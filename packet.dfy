/** The GPSR/SLS wire headers: a one-byte type header followed by one of
    six fixed-size payload headers, each with its own field order and byte
    order. Header setters of the source become datatype updates
    (`h.(inRec := 0)`); getters are the datatype fields. */
module Packet {
  import opened Base
  import opened Wire

  // ---------------------------------------------------------------------
  // Type header
  // ---------------------------------------------------------------------

  datatype MessageType =
    | GpsrHello
    | GpsrPos
    | SlsLocationHello
    | SlsLocationUpdate
    | SlsLocationQuery
    | SlsLocationReply

  /** The enum's numeric value, the byte on the wire. */
  function TypeCode(t: MessageType): (b: uint8)
    ensures 1 <= b <= 6
  {
    match t
    case GpsrHello => 1
    case GpsrPos => 2
    case SlsLocationHello => 3
    case SlsLocationUpdate => 4
    case SlsLocationQuery => 5
    case SlsLocationReply => 6
  }

  lemma TypeCodeInjective(s: MessageType, t: MessageType)
    ensures TypeCode(s) == TypeCode(t) <==> s == t
  {
  }

  /** The message type whose code is `b`, if any. */
  function TypeOfCode(b: uint8): (r: Option<MessageType>)
    ensures r.Some? <==> 1 <= b <= 6
    ensures r.Some? ==> TypeCode(r.value) == b
  {
    if b == 1 then Some(GpsrHello)
    else if b == 2 then Some(GpsrPos)
    else if b == 3 then Some(SlsLocationHello)
    else if b == 4 then Some(SlsLocationUpdate)
    else if b == 5 then Some(SlsLocationQuery)
    else if b == 6 then Some(SlsLocationReply)
    else None
  }

  /** `Get ()` is `msgType`, `IsValid ()` is `valid`. */
  datatype TypeHeader = TypeHeader(msgType: MessageType, valid: bool)

  /** The constructor: a type header built by the sender is valid. */
  function NewTypeHeader(t: MessageType): (h: TypeHeader)
    ensures h.msgType == t && h.valid
  {
    TypeHeader(t, true)
  }

  const TypeHeaderSize: nat := 1

  function SerializeType(h: TypeHeader): (r: seq<uint8>)
    ensures |r| == TypeHeaderSize && 1 <= r[0] <= 6
  {
    [TypeCode(h.msgType)]
  }

  /** `TypeHeader::Deserialize` applied to a header `h` (the one the caller
      constructed) and the byte read: a known code sets the type and
      validity, any other byte only clears validity. */
  function DeserializeType(h: TypeHeader, b: uint8): (r: TypeHeader)
    ensures r.valid <==> 1 <= b <= 6
    ensures r.valid ==> TypeCode(r.msgType) == b
    ensures !r.valid ==> r.msgType == h.msgType
  {
    match TypeOfCode(b)
    case Some(t) => TypeHeader(t, true)
    case None => h.(valid := false)
  }

  lemma TypeRoundTrip(h: TypeHeader, reader: TypeHeader)
    ensures DeserializeType(reader, SerializeType(h)[0]) == TypeHeader(h.msgType, true)
  {
    TypeCodeInjective(DeserializeType(reader, SerializeType(h)[0]).msgType, h.msgType);
  }

  /** `TypeHeader::operator==`: same type and same validity. */
  predicate TypeHeaderEquals(a: TypeHeader, b: TypeHeader) {
    a.msgType == b.msgType && a.valid == b.valid
  }

  lemma TypeHeaderEqualsIsIdentity(a: TypeHeader, b: TypeHeader)
    ensures TypeHeaderEquals(a, b) <==> a == b
  {
  }

  // ---------------------------------------------------------------------
  // Payload headers
  // ---------------------------------------------------------------------

  datatype HelloHeader = HelloHeader(originPosx: uint64, originPosy: uint64)

  datatype PositionHeader = PositionHeader(
    dstPosx: uint64, dstPosy: uint64,
    updated: uint32,
    recPosx: uint64, recPosy: uint64,
    inRec: uint8,
    lastPosx: uint64, lastPosy: uint64)

  datatype LocHelloHeader = LocHelloHeader(nodeId: Addr, nodePosx: uint64, nodePosy: uint64)

  datatype LocUpdateHeader = LocUpdateHeader(nodeId: Addr, originPosx: uint64, originPosy: uint64, speed: uint32)

  datatype LocQueryHeader = LocQueryHeader(nodeId: Addr, destId: Addr, queryId: Addr)

  datatype LocReplyHeader = LocReplyHeader(nodeId: Addr, destId: Addr, posx: uint64, posy: uint64)

  // Default constructors: every number 0, every address Ipv4Address ().
  const DefaultHello := HelloHeader(0, 0)
  const DefaultPosition := PositionHeader(0, 0, 0, 0, 0, 0, 0, 0)
  const DefaultLocHello := LocHelloHeader(DefaultAddr, 0, 0)
  const DefaultLocUpdate := LocUpdateHeader(DefaultAddr, 0, 0, 0)
  const DefaultLocQuery := LocQueryHeader(DefaultAddr, DefaultAddr, DefaultAddr)
  const DefaultLocReply := LocReplyHeader(DefaultAddr, DefaultAddr, 0, 0)

  /** Each of the eight `PositionHeader` setters changes its own field and
      leaves the other seven as they were. */
  lemma PositionSettersAreLocal(h: PositionHeader, v: uint64, u: uint32, r: uint8)
    ensures h.(dstPosx := v) == PositionHeader(v, h.dstPosy, h.updated, h.recPosx, h.recPosy, h.inRec, h.lastPosx, h.lastPosy)
    ensures h.(dstPosy := v) == PositionHeader(h.dstPosx, v, h.updated, h.recPosx, h.recPosy, h.inRec, h.lastPosx, h.lastPosy)
    ensures h.(updated := u) == PositionHeader(h.dstPosx, h.dstPosy, u, h.recPosx, h.recPosy, h.inRec, h.lastPosx, h.lastPosy)
    ensures h.(recPosx := v) == PositionHeader(h.dstPosx, h.dstPosy, h.updated, v, h.recPosy, h.inRec, h.lastPosx, h.lastPosy)
    ensures h.(recPosy := v) == PositionHeader(h.dstPosx, h.dstPosy, h.updated, h.recPosx, v, h.inRec, h.lastPosx, h.lastPosy)
    ensures h.(inRec := r) == PositionHeader(h.dstPosx, h.dstPosy, h.updated, h.recPosx, h.recPosy, r, h.lastPosx, h.lastPosy)
    ensures h.(lastPosx := v) == PositionHeader(h.dstPosx, h.dstPosy, h.updated, h.recPosx, h.recPosy, h.inRec, v, h.lastPosy)
    ensures h.(lastPosy := v) == PositionHeader(h.dstPosx, h.dstPosy, h.updated, h.recPosx, h.recPosy, h.inRec, h.lastPosx, v)
  {
  }

  const HelloSize: nat := 16
  const PositionSize: nat := 53
  const LocHelloSize: nat := 20
  const LocUpdateSize: nat := 24
  const LocQuerySize: nat := 12
  const LocReplySize: nat := 24

  // Hello: two positions in network order.

  function SerializeHello(h: HelloHeader): (r: seq<uint8>)
    ensures |r| == HelloSize
    ensures FromBigEndian(r[..8]) == h.originPosx && FromBigEndian(r[8..16]) == h.originPosy
  {
    var a, b := U64Be(h.originPosx), U64Be(h.originPosy);
    assert (a + b)[..8] == a && (a + b)[8..16] == b;
    a + b
  }

  /** Reads a Hello from the front of `s`; the source asserts that 16 bytes
      are there. */
  function DeserializeHello(s: seq<uint8>): HelloHeader
    requires |s| >= HelloSize
  {
    HelloHeader(ReadU64Be(s[..8]), ReadU64Be(s[8..16]))
  }

  lemma HelloRoundTrip(h: HelloHeader, rest: seq<uint8>)
    ensures DeserializeHello(SerializeHello(h) + rest) == h
  {
    var s := SerializeHello(h);
    assert (s + rest)[..8] == s[..8] && (s + rest)[8..16] == s[8..16];
  }

  // Position: eight fields, host byte order (least significant byte first).

  function SerializePosition(h: PositionHeader): (r: seq<uint8>)
    ensures |r| == PositionSize
    ensures FromLittleEndian(r[..8]) == h.dstPosx && FromLittleEndian(r[8..16]) == h.dstPosy
    ensures FromLittleEndian(r[16..20]) == h.updated
    ensures FromLittleEndian(r[20..28]) == h.recPosx && FromLittleEndian(r[28..36]) == h.recPosy
    ensures r[36] == h.inRec
    ensures FromLittleEndian(r[37..45]) == h.lastPosx && FromLittleEndian(r[45..53]) == h.lastPosy
  {
    var dx, dy, up := U64Le(h.dstPosx), U64Le(h.dstPosy), U32Le(h.updated);
    var rx, ry := U64Le(h.recPosx), U64Le(h.recPosy);
    var lx, ly := U64Le(h.lastPosx), U64Le(h.lastPosy);
    var front := dx + dy + up;
    assert front[..8] == dx;
    assert front[8..16] == dy;
    assert front[16..20] == up;
    var middle := rx + ry + [h.inRec];
    assert middle[..8] == rx;
    assert middle[8..16] == ry;
    var back := lx + ly;
    assert back[..8] == lx;
    assert back[8..16] == ly;
    var r := front + middle + back;
    assert r[..20] == front;
    assert r[20..37] == middle;
    assert r[37..53] == back;
    assert r[..8] == front[..8];
    assert r[8..16] == front[8..16];
    assert r[16..20] == front[16..20];
    assert r[20..28] == middle[..8];
    assert r[28..36] == middle[8..16];
    assert r[37..45] == back[..8];
    assert r[45..53] == back[8..16];
    r
  }

  function DeserializePosition(s: seq<uint8>): PositionHeader
    requires |s| >= PositionSize
  {
    PositionHeader(
      ReadU64Le(s[..8]), ReadU64Le(s[8..16]),
      ReadU32Le(s[16..20]),
      ReadU64Le(s[20..28]), ReadU64Le(s[28..36]),
      s[36],
      ReadU64Le(s[37..45]), ReadU64Le(s[45..53]))
  }

  lemma PositionRoundTrip(h: PositionHeader, rest: seq<uint8>)
    ensures DeserializePosition(SerializePosition(h) + rest) == h
  {
    var s := SerializePosition(h);
    var t := s + rest;
    assert t[..8] == s[..8] && t[8..16] == s[8..16] && t[16..20] == s[16..20];
    assert t[20..28] == s[20..28] && t[28..36] == s[28..36] && t[36] == s[36];
    assert t[37..45] == s[37..45] && t[45..53] == s[45..53];
  }

  // LocHello: the node id (network order), then two positions in network order.

  function SerializeLocHello(h: LocHelloHeader): (r: seq<uint8>)
    ensures |r| == LocHelloSize
    ensures FromBigEndian(r[..4]) == h.nodeId
    ensures FromBigEndian(r[4..12]) == h.nodePosx && FromBigEndian(r[12..20]) == h.nodePosy
  {
    var id, x, y := U32Be(h.nodeId), U64Be(h.nodePosx), U64Be(h.nodePosy);
    var r := id + x + y;
    assert r[..4] == id && r[4..12] == x && r[12..20] == y;
    r
  }

  function DeserializeLocHello(s: seq<uint8>): LocHelloHeader
    requires |s| >= LocHelloSize
  {
    LocHelloHeader(ReadU32Be(s[..4]), ReadU64Be(s[4..12]), ReadU64Be(s[12..20]))
  }

  lemma LocHelloRoundTrip(h: LocHelloHeader, rest: seq<uint8>)
    ensures DeserializeLocHello(SerializeLocHello(h) + rest) == h
  {
    var s := SerializeLocHello(h);
    var t := s + rest;
    assert t[..4] == s[..4] && t[4..12] == s[4..12] && t[12..20] == s[12..20];
  }

  // LocUpdate: id, two positions and the speed, all in network order.

  function SerializeLocUpdate(h: LocUpdateHeader): (r: seq<uint8>)
    ensures |r| == LocUpdateSize
    ensures FromBigEndian(r[..4]) == h.nodeId
    ensures FromBigEndian(r[4..12]) == h.originPosx && FromBigEndian(r[12..20]) == h.originPosy
    ensures FromBigEndian(r[20..24]) == h.speed
  {
    var id, x, y, v := U32Be(h.nodeId), U64Be(h.originPosx), U64Be(h.originPosy), U32Be(h.speed);
    var r := id + x + y + v;
    assert r[..4] == id && r[4..12] == x && r[12..20] == y && r[20..24] == v;
    r
  }

  function DeserializeLocUpdate(s: seq<uint8>): LocUpdateHeader
    requires |s| >= LocUpdateSize
  {
    LocUpdateHeader(ReadU32Be(s[..4]), ReadU64Be(s[4..12]), ReadU64Be(s[12..20]), ReadU32Be(s[20..24]))
  }

  lemma LocUpdateRoundTrip(h: LocUpdateHeader, rest: seq<uint8>)
    ensures DeserializeLocUpdate(SerializeLocUpdate(h) + rest) == h
  {
    var s := SerializeLocUpdate(h);
    var t := s + rest;
    assert t[..4] == s[..4] && t[4..12] == s[4..12] && t[12..20] == s[12..20] && t[20..24] == s[20..24];
  }

  // LocQuery: three ids in network order.

  function SerializeLocQuery(h: LocQueryHeader): (r: seq<uint8>)
    ensures |r| == LocQuerySize
    ensures FromBigEndian(r[..4]) == h.nodeId && FromBigEndian(r[4..8]) == h.destId
    ensures FromBigEndian(r[8..12]) == h.queryId
  {
    var a, b, c := U32Be(h.nodeId), U32Be(h.destId), U32Be(h.queryId);
    var r := a + b + c;
    assert r[..4] == a && r[4..8] == b && r[8..12] == c;
    r
  }

  function DeserializeLocQuery(s: seq<uint8>): LocQueryHeader
    requires |s| >= LocQuerySize
  {
    LocQueryHeader(ReadU32Be(s[..4]), ReadU32Be(s[4..8]), ReadU32Be(s[8..12]))
  }

  lemma LocQueryRoundTrip(h: LocQueryHeader, rest: seq<uint8>)
    ensures DeserializeLocQuery(SerializeLocQuery(h) + rest) == h
  {
    var s := SerializeLocQuery(h);
    var t := s + rest;
    assert t[..4] == s[..4] && t[4..8] == s[4..8] && t[8..12] == s[8..12];
  }

  // LocReply: two ids, then two positions in network order.

  function SerializeLocReply(h: LocReplyHeader): (r: seq<uint8>)
    ensures |r| == LocReplySize
    ensures FromBigEndian(r[..4]) == h.nodeId && FromBigEndian(r[4..8]) == h.destId
    ensures FromBigEndian(r[8..16]) == h.posx && FromBigEndian(r[16..24]) == h.posy
  {
    var a, b, x, y := U32Be(h.nodeId), U32Be(h.destId), U64Be(h.posx), U64Be(h.posy);
    var r := a + b + x + y;
    assert r[..4] == a && r[4..8] == b && r[8..16] == x && r[16..24] == y;
    r
  }

  function DeserializeLocReply(s: seq<uint8>): LocReplyHeader
    requires |s| >= LocReplySize
  {
    LocReplyHeader(ReadU32Be(s[..4]), ReadU32Be(s[4..8]), ReadU64Be(s[8..16]), ReadU64Be(s[16..24]))
  }

  lemma LocReplyRoundTrip(h: LocReplyHeader, rest: seq<uint8>)
    ensures DeserializeLocReply(SerializeLocReply(h) + rest) == h
  {
    var s := SerializeLocReply(h);
    var t := s + rest;
    assert t[..4] == s[..4] && t[4..8] == s[4..8] && t[8..16] == s[8..16] && t[16..24] == s[16..24];
  }

  // ---------------------------------------------------------------------
  // Whole messages: type byte, then the payload of that type
  // ---------------------------------------------------------------------

  datatype Header =
    | HelloMsg(hello: HelloHeader)
    | PositionMsg(position: PositionHeader)
    | LocHelloMsg(locHello: LocHelloHeader)
    | LocUpdateMsg(locUpdate: LocUpdateHeader)
    | LocQueryMsg(locQuery: LocQueryHeader)
    | LocReplyMsg(locReply: LocReplyHeader)

  function TypeOf(h: Header): MessageType {
    match h
    case HelloMsg(_) => GpsrHello
    case PositionMsg(_) => GpsrPos
    case LocHelloMsg(_) => SlsLocationHello
    case LocUpdateMsg(_) => SlsLocationUpdate
    case LocQueryMsg(_) => SlsLocationQuery
    case LocReplyMsg(_) => SlsLocationReply
  }

  /** `GetSerializedSize` of each payload header. */
  function PayloadSize(t: MessageType): nat {
    match t
    case GpsrHello => HelloSize
    case GpsrPos => PositionSize
    case SlsLocationHello => LocHelloSize
    case SlsLocationUpdate => LocUpdateSize
    case SlsLocationQuery => LocQuerySize
    case SlsLocationReply => LocReplySize
  }

  function SerializePayload(h: Header): (r: seq<uint8>)
    ensures |r| == PayloadSize(TypeOf(h))
  {
    match h
    case HelloMsg(p) => SerializeHello(p)
    case PositionMsg(p) => SerializePosition(p)
    case LocHelloMsg(p) => SerializeLocHello(p)
    case LocUpdateMsg(p) => SerializeLocUpdate(p)
    case LocQueryMsg(p) => SerializeLocQuery(p)
    case LocReplyMsg(p) => SerializeLocReply(p)
  }

  function DeserializePayload(t: MessageType, s: seq<uint8>): Header
    requires |s| >= PayloadSize(t)
  {
    match t
    case GpsrHello => HelloMsg(DeserializeHello(s))
    case GpsrPos => PositionMsg(DeserializePosition(s))
    case SlsLocationHello => LocHelloMsg(DeserializeLocHello(s))
    case SlsLocationUpdate => LocUpdateMsg(DeserializeLocUpdate(s))
    case SlsLocationQuery => LocQueryMsg(DeserializeLocQuery(s))
    case SlsLocationReply => LocReplyMsg(DeserializeLocReply(s))
  }

  /** A packet as the sender builds it: `AddHeader (payload)` then
      `AddHeader (TypeHeader (type))`, so the type byte comes first. */
  function Encode(h: Header): (r: seq<uint8>)
    ensures |r| == TypeHeaderSize + PayloadSize(TypeOf(h))
    ensures r[0] == TypeCode(TypeOf(h))
  {
    SerializeType(NewTypeHeader(TypeOf(h))) + SerializePayload(h)
  }

  datatype Decoded = Decoded(header: Header, rest: seq<uint8>)

  /** Strip the type header and the payload header it announces from the
      front of a packet. An unknown type byte is dropped by every receiver;
      a packet too short for its header makes ns-3 abort, here it is
      rejected too. */
  function Decode(s: seq<uint8>): (r: Option<Decoded>)
    ensures r.Some? ==> |s| > 0 && TypeCode(TypeOf(r.value.header)) == s[0]
    ensures r.Some? ==> |s| == 1 + PayloadSize(TypeOf(r.value.header)) + |r.value.rest|
    ensures r.Some? ==> r.value.rest == s[1 + PayloadSize(TypeOf(r.value.header))..]
    ensures |s| > 0 && 1 <= s[0] <= 6 && |s| >= 1 + PayloadSize(TypeOfCode(s[0]).value) ==> r.Some?
  {
    if |s| == 0 then None
    else
      match TypeOfCode(s[0])
      case None => None
      case Some(t) =>
        if |s| - 1 < PayloadSize(t) then None
        else Some(Decoded(DeserializePayload(t, s[1..]), s[1 + PayloadSize(t)..]))
  }

  /** An encoded packet followed by more bytes starts with its type code,
      and the payload bytes follow it directly. */
  lemma EncodeSplit(h: Header, rest: seq<uint8>)
    ensures |Encode(h) + rest| > 0
    ensures (Encode(h) + rest)[0] == TypeCode(TypeOf(h))
    ensures (Encode(h) + rest)[1..] == SerializePayload(h) + rest
  {
    var t := SerializeType(NewTypeHeader(TypeOf(h)));
    assert Encode(h) + rest == t + (SerializePayload(h) + rest);
  }

  lemma {:induction false} EncodeDecode(h: Header, rest: seq<uint8>)
    ensures Decode(Encode(h) + rest) == Some(Decoded(h, rest))
  {
    var s := Encode(h) + rest;
    var p := SerializePayload(h);
    EncodeSplit(h, rest);
    TypeCodeInjective(TypeOfCode(s[0]).value, TypeOf(h));
    PayloadRoundTrip(h, rest);
    assert s[1 + |p|..] == rest by {
      assert s[1..][|p|..] == (p + rest)[|p|..] == rest;
    }
  }

  /** Each payload reads back as the header it was written from. */
  lemma PayloadRoundTrip(h: Header, rest: seq<uint8>)
    ensures DeserializePayload(TypeOf(h), SerializePayload(h) + rest) == h
  {
    match h
    case HelloMsg(x) => HelloRoundTrip(x, rest);
    case PositionMsg(x) => PositionRoundTrip(x, rest);
    case LocHelloMsg(x) => LocHelloRoundTrip(x, rest);
    case LocUpdateMsg(x) => LocUpdateRoundTrip(x, rest);
    case LocQueryMsg(x) => LocQueryRoundTrip(x, rest);
    case LocReplyMsg(x) => LocReplyRoundTrip(x, rest);
  }

  /** Decoding an encoded packet is the identity: one header type can never
      be read back as another. */
  lemma EncodeInjective(a: Header, b: Header)
    ensures Encode(a) == Encode(b) ==> a == b
  {
    EncodeDecode(a, []);
    EncodeDecode(b, []);
    assert Encode(a) + [] == Encode(a) && Encode(b) + [] == Encode(b);
  }

  // ---------------------------------------------------------------------
  // operator== of the payload headers
  // ---------------------------------------------------------------------

  /** `HelloHeader::operator==` as written: the second conjunct compares
      `m_originPosy` with itself. */
  predicate HelloEqualsAsWritten(a: HelloHeader, b: HelloHeader) {
    a.originPosx == b.originPosx && a.originPosy == a.originPosy
  }

  lemma HelloEqualsIgnoresY(a: HelloHeader, b: HelloHeader)
    ensures HelloEqualsAsWritten(a, b) <==> a.originPosx == b.originPosx
    ensures HelloEqualsAsWritten(HelloHeader(0, 0), HelloHeader(0, 1))
  {
  }

  /** `HelloHeader::operator==` as evidently intended: both coordinates. */
  predicate HelloEquals(a: HelloHeader, b: HelloHeader) {
    a.originPosx == b.originPosx && a.originPosy == b.originPosy
  }

  lemma HelloEqualsIsIdentity(a: HelloHeader, b: HelloHeader)
    ensures HelloEquals(a, b) <==> a == b
  {
  }

  /** `PositionHeader::operator==` as written: `m_dstPosy` is compared with itself. */
  predicate PositionEqualsAsWritten(a: PositionHeader, b: PositionHeader) {
    && a.dstPosx == b.dstPosx && a.dstPosy == a.dstPosy && a.updated == b.updated
    && a.recPosx == b.recPosx && a.recPosy == b.recPosy && a.inRec == b.inRec
    && a.lastPosx == b.lastPosx && a.lastPosy == b.lastPosy
  }

  lemma PositionEqualsIgnoresDstY(a: PositionHeader, b: PositionHeader)
    ensures PositionEqualsAsWritten(a, b) <==> a.(dstPosy := 0) == b.(dstPosy := 0)
    ensures PositionEqualsAsWritten(DefaultPosition, DefaultPosition.(dstPosy := 1))
  {
  }

  /** `PositionHeader::operator==` as evidently intended: all eight fields. */
  predicate PositionEquals(a: PositionHeader, b: PositionHeader) {
    && a.dstPosx == b.dstPosx && a.dstPosy == b.dstPosy && a.updated == b.updated
    && a.recPosx == b.recPosx && a.recPosy == b.recPosy && a.inRec == b.inRec
    && a.lastPosx == b.lastPosx && a.lastPosy == b.lastPosy
  }

  lemma PositionEqualsIsIdentity(a: PositionHeader, b: PositionHeader)
    ensures PositionEquals(a, b) <==> a == b
  {
  }

  /** `LocHelloHeader::operator==` compares the node id only. */
  predicate LocHelloEquals(a: LocHelloHeader, b: LocHelloHeader) {
    a.nodeId == b.nodeId
  }

  /** Positions never change the comparison: two LocHello headers compare
      equal exactly when they agree once their positions are cleared. */
  lemma LocHelloEqualsIgnoresPosition(a: LocHelloHeader, b: LocHelloHeader, x: uint64, y: uint64)
    ensures LocHelloEquals(a.(nodePosx := x, nodePosy := y), b) == LocHelloEquals(a, b)
    ensures LocHelloEquals(a, b.(nodePosx := x, nodePosy := y)) == LocHelloEquals(a, b)
    ensures LocHelloEquals(a, b) <==> a.(nodePosx := 0, nodePosy := 0) == b.(nodePosx := 0, nodePosy := 0)
    ensures LocHelloEquals(LocHelloHeader(Anchor1, 0, 0), LocHelloHeader(Anchor1, 5, 7))
  {
  }

  /** The other three directory headers compare every field. */
  predicate LocUpdateEquals(a: LocUpdateHeader, b: LocUpdateHeader) {
    a.nodeId == b.nodeId && a.originPosx == b.originPosx && a.originPosy == b.originPosy && a.speed == b.speed
  }

  predicate LocQueryEquals(a: LocQueryHeader, b: LocQueryHeader) {
    a.nodeId == b.nodeId && a.destId == b.destId && a.queryId == b.queryId
  }

  predicate LocReplyEquals(a: LocReplyHeader, b: LocReplyHeader) {
    a.nodeId == b.nodeId && a.destId == b.destId && a.posx == b.posx && a.posy == b.posy
  }

  lemma DirectoryEqualsAreIdentity(u: LocUpdateHeader, u': LocUpdateHeader,
                                   q: LocQueryHeader, q': LocQueryHeader,
                                   r: LocReplyHeader, r': LocReplyHeader)
    ensures LocUpdateEquals(u, u') <==> u == u'
    ensures LocQueryEquals(q, q') <==> q == q'
    ensures LocReplyEquals(r, r') <==> r == r'
  {
  }
}
