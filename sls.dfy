/** The SLS location service of one node: a location table plus the node's
    role (mobile OBU or fixed RSU anchor) and, on a mobile node, the anchor
    it is bound to. Messages the service would hand to its socket are
    returned as `SlsSend` values; the clock is the input `now`. Each
    operation is specified by a function of the old table (the `...Spec`
    functions and their relatives), and the lemmas state what those
    functions promise. */
module Sls {
  import opened Base
  import opened Packet
  import opened LTable

  /** A message handed to the SLS socket, addressed to `dst`. */
  datatype SlsSend = SlsSend(dst: Addr, header: Header)

  /** The table after a position lookup, the position answered and the
      messages sent on the way. */
  datatype Lookup = Lookup(table: Table, position: Vector, sent: seq<SlsSend>)

  /** The table after a yes/no question and its answer. */
  datatype Answer = Answer(table: Table, holds: bool, sent: seq<SlsSend>)

  /** The table after handling a message and the messages sent in reply. */
  datatype Handled = Handled(table: Table, sent: seq<SlsSend>)

  /** `GetInvalidPosition ()` */
  const InvalidPosition: Vector := Vector(-1, -1, 0)

  /** `Time ("10s")`, the age after which `GetPosition` forgets an entry. */
  const StaleAfter: int := 10 * NanosPerSecond

  /** `VectorComparator`: its second conjunct repeats the first, so only x
      is compared. */
  predicate VectorComparator(a: Vector, b: Vector) {
    a.x == b.x && a.x == b.x
  }

  /** Any position whose x is -1 counts as the invalid position. */
  lemma VectorComparatorComparesX(a: Vector, b: Vector)
    ensures VectorComparator(a, b) <==> a.x == b.x
    ensures VectorComparator(Vector(-1, 7, 3), InvalidPosition)
    ensures !VectorComparator(Vector(0, -1, 0), InvalidPosition)
  {
  }

  // ---------------------------------------------------------------------
  // Messages
  // ---------------------------------------------------------------------

  /** `SendQuery (src, dst, query)`: one query for `query` to `dst`. */
  function QueryMessage(src: Addr, dst: Addr, query: Addr): SlsSend {
    SlsSend(dst, LocQueryMsg(LocQueryHeader(src, dst, query)))
  }

  /** `SendReply (src, dst, query, position)`: a reply to `dst` naming
      `src` as the answering node and carrying the position as uint64. */
  function ReplyMessage(src: Addr, dst: Addr, query: Addr, position: Vector): SlsSend {
    SlsSend(dst, LocReplyMsg(LocReplyHeader(src, query, Wrap64(position.x), Wrap64(position.y))))
  }

  /** `SendLocUpdate (p, dst, src, _)`: the node's own position and the
      integral speed magnitude (computed by the mobility model) to `dst`. */
  function LocUpdateMessage(dst: Addr, src: Addr, ownPosition: Vector, speed: int): SlsSend {
    SlsSend(dst, LocUpdateMsg(LocUpdateHeader(src, Wrap64(ownPosition.x), Wrap64(ownPosition.y), Wrap32(speed))))
  }

  /** `SendLocHello (dst, src, _)`: nothing if the table already has a
      nonzero speed for `dst`, else one hello carrying the node's own
      position (the position argument of the source is unused). */
  function LocHelloMessages(m: Table, dst: Addr, src: Addr, ownPosition: Vector): seq<SlsSend> {
    if SpeedOf(m, dst) != 0 then []
    else [SlsSend(dst, LocHelloMsg(LocHelloHeader(src, Wrap64(ownPosition.x), Wrap64(ownPosition.y))))]
  }

  lemma LocHelloSuppression(m: Table, dst: Addr, src: Addr, ownPosition: Vector)
    ensures SpeedOf(m, dst) != 0 <==> LocHelloMessages(m, dst, src, ownPosition) == []
    ensures SpeedOf(m, dst) == 0 ==>
      var s := LocHelloMessages(m, dst, src, ownPosition);
      |s| == 1 && s[0].dst == dst && s[0].header.LocHelloMsg? && s[0].header.locHello.nodeId == src
  {
  }

  // ---------------------------------------------------------------------
  // Table operations by role
  // ---------------------------------------------------------------------

  /** The service's `AddEntry`: a mobile node adding its own address
      deletes the entry first, so the new values always land. */
  function SlsAdded(m: Table, mobile: bool, local: Addr, id: Addr, position: Vector, speed: int,
                    flag: bool, seqNum: uint8, now: int): Table {
    if mobile && id == local then Added(m - {id}, id, position, now, speed, flag, seqNum)
    else Added(m, id, position, now, speed, flag, seqNum)
  }

  lemma SlsAddedByRole(m: Table, mobile: bool, local: Addr, id: Addr, position: Vector, speed: int,
                       flag: bool, seqNum: uint8, now: int)
    ensures var r := SlsAdded(m, mobile, local, id, position, speed, flag, seqNum, now);
      && (mobile && id == local ==> r == m[id := MapEntry(position, now, speed, flag, seqNum)])
      && (!mobile || id != local ==> r == Added(m, id, position, now, speed, flag, seqNum))
  {
    if mobile && id == local {
      assert id !in m - {id};
      assert (m - {id})[id := MapEntry(position, now, speed, flag, seqNum)] == m[id := MapEntry(position, now, speed, flag, seqNum)];
    }
  }

  /** `IsInSearch`: an entry last updated more than `maxSearch` ago is
      deleted and the answer is no; otherwise the answer is its flag. */
  function SearchStep(m: Table, maxSearch: int, id: Addr, now: int): Answer {
    if UpdateTimeOf(m, id) + maxSearch < now then Answer(m - {id}, false, [])
    else Answer(m, FlagOf(m, id), [])
  }

  lemma SearchStepMeaning(m: Table, maxSearch: int, id: Addr, now: int)
    ensures var a := SearchStep(m, maxSearch, id, now);
      && (a.holds <==> id in m && m[id].researchFlag && now <= m[id].time + maxSearch)
      && (id !in m ==> !a.holds && a.table == m)
      && a.table.Keys <= m.Keys
      && (forall other :: other in a.table ==> a.table[other] == m[other])
      && a.sent == []
  {
    var a := SearchStep(m, maxSearch, id, now);
    if id !in m {
      assert m - {id} == m;
    }
  }

  /** The first step of `GetPosition`: an entry with a nonzero update time
      older than ten seconds is dropped, unless it belongs to an anchor. */
  function ExpireStale(m: Table, id: Addr, now: int): Table {
    var t := UpdateTimeOf(m, id);
    if t != 0 && t + StaleAfter < now && !IsFixedAnchor(id) then m - {id} else m
  }

  lemma ExpireStaleMeaning(m: Table, id: Addr, now: int)
    ensures IsFixedAnchor(id) ==> ExpireStale(m, id, now) == m
    ensures id in m && m[id].time != 0 && m[id].time + StaleAfter < now && !IsFixedAnchor(id)
            ==> ExpireStale(m, id, now) == m - {id} && id !in ExpireStale(m, id, now)
    ensures id in ExpireStale(m, id, now) ==> ExpireStale(m, id, now) == m
    ensures ExpireStale(m, id, now) == m || ExpireStale(m, id, now) == m - {id}
  {
  }

  /** `GetPosition` of the service. A mobile node asking for its anchor gets
      the anchor's stored position; asking for anything else it reads the
      table, and when that read is invalid it inserts a placeholder (twice,
      the second time a no-op), sends one query to its anchor and answers
      with the anchor's position. An anchor only reads its table. */
  function GetPositionSpec(m: Table, mobile: bool, local: Addr, rsu: Addr, posRsu: Vector,
                           id: Addr, now: int): Lookup {
    var m1 := ExpireStale(m, id, now);
    if !mobile then Lookup(m1, PositionOf(m1, id, InvalidPosition, now), [])
    else if id == rsu then Lookup(m1, posRsu, [])
    else
      var pos := PositionOf(m1, id, InvalidPosition, now);
      if VectorComparator(pos, InvalidPosition) then
        var m2 := Added(m1, id, pos, now, 0, true, 1);
        var m3 := Added(m2, id, pos, now, 0, true, 1);
        Lookup(m3, posRsu, [QueryMessage(local, rsu, id)])
      else Lookup(m1, pos, [])
  }

  lemma GetPositionAtAnchor(m: Table, local: Addr, rsu: Addr, posRsu: Vector, id: Addr, now: int)
    ensures var l := GetPositionSpec(m, false, local, rsu, posRsu, id, now);
      && l.sent == []
      && l.table == ExpireStale(m, id, now)
      && l.position == PositionOf(ExpireStale(m, id, now), id, InvalidPosition, now)
  {
  }

  lemma GetPositionOfBoundAnchor(m: Table, local: Addr, rsu: Addr, posRsu: Vector, now: int)
    ensures var l := GetPositionSpec(m, true, local, rsu, posRsu, rsu, now);
      l.position == posRsu && l.sent == [] && l.table == ExpireStale(m, rsu, now)
  {
  }

  /** A mobile node that does not know `id` (after dropping a stale entry)
      records a searching placeholder, sends exactly one query to its
      anchor and answers with the anchor's position. */
  lemma GetPositionMiss(m: Table, local: Addr, rsu: Addr, posRsu: Vector, id: Addr, now: int)
    requires id != rsu && id !in ExpireStale(m, id, now)
    ensures var l := GetPositionSpec(m, true, local, rsu, posRsu, id, now);
      && l.position == posRsu
      && l.sent == [QueryMessage(local, rsu, id)]
      && l.table == ExpireStale(m, id, now)[id := MapEntry(InvalidPosition, now, 0, true, 1)]
  {
    var m1 := ExpireStale(m, id, now);
    AddedZeroSpeedTwice(m1, id, InvalidPosition, now, true, 1);
  }

  /** Every lookup sends at most one message, and only a query to the
      bound anchor; it never touches other entries. */
  lemma GetPositionSendsAtMostOneQuery(m: Table, mobile: bool, local: Addr, rsu: Addr, posRsu: Vector,
                                       id: Addr, now: int)
    ensures var l := GetPositionSpec(m, mobile, local, rsu, posRsu, id, now);
      && |l.sent| <= 1
      && (|l.sent| == 1 ==> mobile && id != rsu && l.sent[0] == QueryMessage(local, rsu, id))
      && (forall other :: other != id ==> (other in l.table <==> other in m))
      && (forall other :: other != id && other in m ==> l.table[other] == m[other])
  {
    var m1 := ExpireStale(m, id, now);
    if mobile && id != rsu {
      var pos := PositionOf(m1, id, InvalidPosition, now);
      AddedEntry(m1, id, pos, now, 0, true, 1);
      AddedEntry(Added(m1, id, pos, now, 0, true, 1), id, pos, now, 0, true, 1);
    }
  }

  /** The placeholder stores the invalid position with speed 0; once time
      moves on, the table extrapolates it to (199, 199, 0) with the
      compensation, which no longer compares as invalid: a later lookup
      sends no query and answers that position. */
  lemma PlaceholderTurnsValid(m: Table, local: Addr, rsu: Addr, posRsu: Vector, id: Addr, now: int, later: int)
    requires id != rsu && id !in ExpireStale(m, id, now) && now < later
    ensures var l := GetPositionSpec(m, true, local, rsu, posRsu, id, now);
      && PositionOf(l.table, id, InvalidPosition, later) == Vector(199, 199, 0)
      && !VectorComparator(PositionOf(l.table, id, InvalidPosition, later), InvalidPosition)
  {
    GetPositionMiss(m, local, rsu, posRsu, id, now);
  }

  /** At the same instant the placeholder still reads as invalid, so a
      second lookup sends a second query. */
  lemma SecondLookupSameInstantQueriesAgain(m: Table, local: Addr, rsu: Addr, posRsu: Vector, id: Addr, now: int)
    requires id != rsu && id !in ExpireStale(m, id, now) && now != 0
    ensures var first := GetPositionSpec(m, true, local, rsu, posRsu, id, now);
      var second := GetPositionSpec(first.table, true, local, rsu, posRsu, id, now);
      second.sent == [QueryMessage(local, rsu, id)]
  {
    GetPositionMiss(m, local, rsu, posRsu, id, now);
    var first := GetPositionSpec(m, true, local, rsu, posRsu, id, now);
    assert ExpireStale(first.table, id, now) == first.table;
  }

  /** `HasPosition`: an entry older than `maxSearch` is deleted and the
      answer is no; otherwise the answer is whether `GetPosition` returns a
      position whose x is not -1. */
  function HasPositionSpec(m: Table, maxSearch: int, mobile: bool, local: Addr, rsu: Addr, posRsu: Vector,
                           id: Addr, now: int): Answer {
    if UpdateTimeOf(m, id) + maxSearch < now then Answer(m - {id}, false, [])
    else
      var l := GetPositionSpec(m, mobile, local, rsu, posRsu, id, now);
      Answer(l.table, !VectorComparator(l.position, InvalidPosition), l.sent)
  }

  /** On a mobile node a miss answers with the anchor's position, so
      `HasPosition` reports yes for an unknown node whenever the anchor's
      position is valid, while the query is still outstanding. */
  lemma HasPositionOnMiss(m: Table, maxSearch: int, local: Addr, rsu: Addr, posRsu: Vector, id: Addr, now: int)
    requires id != rsu && id !in m && 0 <= now <= maxSearch
    ensures var a := HasPositionSpec(m, maxSearch, true, local, rsu, posRsu, id, now);
      && a.holds == (posRsu.x != -1)
      && a.sent == [QueryMessage(local, rsu, id)]
  {
    assert ExpireStale(m, id, now) == m;
    GetPositionMiss(m, local, rsu, posRsu, id, now);
  }

  /** Once `maxSearch` has passed since time 0, an unknown node has no
      position: the missing entry reads as time 0, so it counts as timed
      out, and no query goes out. */
  lemma HasPositionAfterWindow(m: Table, maxSearch: int, mobile: bool, local: Addr, rsu: Addr, posRsu: Vector,
                               id: Addr, now: int)
    requires id !in m && maxSearch < now
    ensures var a := HasPositionSpec(m, maxSearch, mobile, local, rsu, posRsu, id, now);
      !a.holds && a.table == m && a.sent == []
  {
    assert m - {id} == m;
  }

  lemma HasPositionTimeout(m: Table, maxSearch: int, mobile: bool, local: Addr, rsu: Addr, posRsu: Vector,
                           id: Addr, now: int)
    requires id in m && m[id].time + maxSearch < now
    ensures var a := HasPositionSpec(m, maxSearch, mobile, local, rsu, posRsu, id, now);
      !a.holds && a.table == m - {id} && a.sent == []
  {
  }

  /** `Predict`: the table's (already extrapolated) position, moved again
      along x by speed * whole seconds since the entry's time; the invalid
      position when the table read is invalid. */
  function PredictSpec(m: Table, id: Addr, now: int): Vector {
    var pos := PositionOf(m, id, InvalidPosition, now);
    if VectorComparator(pos, InvalidPosition) then InvalidPosition
    else
      var dif1 := TruncDiv(now - UpdateTimeOf(m, id), NanosPerSecond);
      Vector(pos.x + Narrow32(SpeedOf(m, id) * dif1), pos.y, pos.z)
  }

  /** The elapsed movement is counted twice on x (once by the table, once
      by `Predict`) and once on y. */
  lemma PredictCountsXTwice(m: Table, id: Addr, now: int)
    requires id in m && now > m[id].time
    requires !VectorComparator(PositionOf(m, id, InvalidPosition, now), InvalidPosition)
    ensures var k, e := ElapsedSeconds(m[id].time, now), m[id];
      && PredictSpec(m, id, now).x == e.position.x + 2 * Narrow32(k * e.speed) + Compensation
      && PredictSpec(m, id, now).y == e.position.y + Narrow32(k * e.speed) + Compensation
      && PredictSpec(m, id, now).z == e.position.z
  {
    PositionOfShape(m, id, InvalidPosition, now);
    var k, e := ElapsedSeconds(m[id].time, now), m[id];
    assert TruncDiv(now - UpdateTimeOf(m, id), NanosPerSecond) == k;
    assert SpeedOf(m, id) * k == k * e.speed;
  }

  lemma PredictOfUnknownIsInvalid(m: Table, id: Addr, now: int)
    requires id !in m
    ensures PredictSpec(m, id, now) == InvalidPosition
  {
  }

  /** `RefreshPosition`: the entry is deleted before `Predict` runs, so the
      prediction is the invalid position, and that is what is stored with
      the old speed, flag and sequence number. */
  function RefreshPositionSpec(m: Table, id: Addr, now: int): Table {
    var seqNum, flag, speed := SeqOf(m, id), FlagOf(m, id), SpeedOf(m, id);
    var m1 := m - {id};
    var newPos := PredictSpec(m1, id, now);
    Added(m1, id, newPos, now, speed, flag, seqNum)
  }

  lemma RefreshPositionInvalidates(m: Table, id: Addr, now: int)
    ensures var r := RefreshPositionSpec(m, id, now);
      && r == m[id := MapEntry(InvalidPosition, now, SpeedOf(m, id), FlagOf(m, id), SeqOf(m, id))]
  {
    var m1 := m - {id};
    assert id !in m1;
    assert PredictSpec(m1, id, now) == InvalidPosition;
    assert m1[id := MapEntry(InvalidPosition, now, SpeedOf(m, id), FlagOf(m, id), SeqOf(m, id))]
        == m[id := MapEntry(InvalidPosition, now, SpeedOf(m, id), FlagOf(m, id), SeqOf(m, id))];
  }

  /** `ReceiveUpdate`: the table's `AddEntry` with flag false and
      sequence number 1. */
  function ReceivedUpdate(m: Table, dst: Addr, position: Vector, speed: int, now: int): Table {
    Added(m, dst, position, now, speed, false, 1)
  }

  lemma ReceivedUpdateMeaning(m: Table, dst: Addr, position: Vector, speed: int, now: int)
    ensures dst in m && speed == 0 ==> ReceivedUpdate(m, dst, position, speed, now) == m
    ensures dst !in m || speed != 0 ==>
      ReceivedUpdate(m, dst, position, speed, now) == m[dst := MapEntry(position, now, speed, false, 1)]
  {
  }

  /** `ReceiveReply`: delete, then add with speed 0, so the answer always
      replaces what the table held. */
  function ReceivedReply(m: Table, dst: Addr, position: Vector, now: int): Table {
    Added(m - {dst}, dst, position, now, 0, false, 0)
  }

  lemma ReceivedReplyOverwrites(m: Table, dst: Addr, position: Vector, now: int)
    ensures ReceivedReply(m, dst, position, now) == m[dst := MapEntry(position, now, 0, false, 0)]
    ensures !FlagOf(ReceivedReply(m, dst, position, now), dst)
  {
    assert dst !in m - {dst};
    assert (m - {dst})[dst := MapEntry(position, now, 0, false, 0)] == m[dst := MapEntry(position, now, 0, false, 0)];
  }

  /** `ReceiveQuery`: purge, read the queried node from the table (or, if
      that read is invalid, take the anchor search result), and reply to
      the querier. The value `Predict` computes in the source lands in a
      shadowing local and is never sent. */
  function ReceiveQuerySpec(m: Table, lifetime: int, src: Addr, dst: Addr, query: Addr,
                            searched: Vector, now: int): Handled {
    var m1 := Purged(m, lifetime, now);
    var pos := PositionOf(m1, query, InvalidPosition, now);
    var answer := if VectorComparator(pos, InvalidPosition) then searched else pos;
    Handled(m1, [ReplyMessage(dst, src, query, answer)])
  }

  lemma ReceiveQueryReplies(m: Table, lifetime: int, src: Addr, dst: Addr, query: Addr, searched: Vector, now: int)
    ensures var h := ReceiveQuerySpec(m, lifetime, src, dst, query, searched, now);
      var m1 := Purged(m, lifetime, now);
      && h.table == m1
      && |h.sent| == 1 && h.sent[0].dst == src
      && h.sent[0].header.LocReplyMsg?
      && h.sent[0].header.locReply.nodeId == dst && h.sent[0].header.locReply.destId == query
      && (query in m1 && PositionOf(m1, query, InvalidPosition, now).x != -1 ==>
            h.sent[0].header.locReply.posx == Wrap64(PositionOf(m1, query, InvalidPosition, now).x)
            && h.sent[0].header.locReply.posy == Wrap64(PositionOf(m1, query, InvalidPosition, now).y))
      && (query in m1 && PositionOf(m1, query, InvalidPosition, now).x == -1 ==>
            h.sent[0].header.locReply.posx == Wrap64(searched.x)
            && h.sent[0].header.locReply.posy == Wrap64(searched.y))
      && (query !in m1 ==>
            h.sent[0].header.locReply.posx == Wrap64(searched.x)
            && h.sent[0].header.locReply.posy == Wrap64(searched.y))
  {
  }

  /** An anchor holding (10, 20) with speed 3 stored five seconds ago
      answers (225, 235): the table extrapolates both axes and adds the
      compensation; `Predict` is not used. */
  lemma ReceiveQueryFiveSecondsLater(src: Addr, dst: Addr, query: Addr, searched: Vector)
    ensures var stored := 100 * NanosPerSecond;
      var now := stored + 5 * NanosPerSecond;
      var m := map[query := MapEntry(Vector(10, 20, 0), stored, 3, false, 1)];
      var h := ReceiveQuerySpec(m, 10 * NanosPerSecond, src, dst, query, searched, now);
      h.sent == [SlsSend(src, LocReplyMsg(LocReplyHeader(dst, query, 225, 235)))]
  {
    var stored := 100 * NanosPerSecond;
    var now := stored + 5 * NanosPerSecond;
    assert ElapsedSeconds(stored, now) == 5;
  }

  // ---------------------------------------------------------------------
  // The service object
  // ---------------------------------------------------------------------

  class SlsLocationService {
    /** `m_table` */
    const table: LocationTable
    /** The node's address, `m_ipv4->GetAddress (1, 0).GetLocal ()`. */
    const localAddr: Addr
    /** `m_maxSearchTime` */
    var maxSearchTime: int
    /** `m_function`: true for a mobile node (OBU), false for an anchor (RSU). */
    var isMobile: bool
    /** `m_rsu`, the anchor a mobile node is bound to. */
    var rsu: Addr
    /** `m_posrsu`, that anchor's position. */
    var posRsu: Vector

    /** Builds the service with a table of the given lifetime; the maximum
        search time equals that lifetime. `mobile` is the role `SetFunction`
        gives the node right after creation. */
    constructor(tableLifeTime: int, local: Addr, mobile: bool)
      ensures fresh(table)
      ensures table.table == map[] && table.entryLifeTime == tableLifeTime
      ensures maxSearchTime == tableLifeTime && localAddr == local && isMobile == mobile
      ensures rsu == DefaultAddr && posRsu == Vector(0, 0, 0)
    {
      table := new LocationTable(tableLifeTime);
      localAddr := local;
      maxSearchTime := tableLifeTime;
      isMobile := mobile;
      rsu := DefaultAddr;
      posRsu := Vector(0, 0, 0);
    }

    method SetFunction(f: bool)
      modifies this
      ensures isMobile == f
      ensures rsu == old(rsu) && posRsu == old(posRsu) && maxSearchTime == old(maxSearchTime)
    {
      isMobile := f;
    }

    method SetMRsu(anchor: Addr)
      modifies this
      ensures rsu == anchor
      ensures isMobile == old(isMobile) && posRsu == old(posRsu) && maxSearchTime == old(maxSearchTime)
    {
      rsu := anchor;
    }

    method SetMPosRsu(position: Vector)
      modifies this
      ensures posRsu == position
      ensures isMobile == old(isMobile) && rsu == old(rsu) && maxSearchTime == old(maxSearchTime)
    {
      posRsu := position;
    }

    method SetMaxSearchTime(t: int)
      modifies this
      ensures maxSearchTime == t
      ensures isMobile == old(isMobile) && rsu == old(rsu) && posRsu == old(posRsu)
    {
      maxSearchTime := t;
    }

    method GetEntryUpdateTime(id: Addr) returns (t: int)
      ensures t == UpdateTimeOf(table.table, id)
    {
      t := table.GetEntryUpdateTime(id);
    }

    method GetSpeed(id: Addr) returns (speed: int)
      ensures speed == SpeedOf(table.table, id)
    {
      speed := table.GetSpeed(id);
    }

    /** Forwards to the table's `GetTime`, the duplicate of
        `GetEntryUpdateTime`. */
    method GetTime(id: Addr) returns (t: int)
      ensures t == UpdateTimeOf(table.table, id)
    {
      t := table.GetTime(id);
    }

    /** `GetPositionOf`: a stub that answers the invalid position whatever
        the table holds. */
    method GetPositionOf(id: Addr) returns (p: Vector)
      ensures VectorComparator(p, InvalidPosition) && p == InvalidPosition
    {
      p := InvalidPosition;
    }

    method AddEntry(id: Addr, position: Vector, speed: int, flag: bool, seqNum: uint8, now: int)
      modifies table
      ensures table.table == SlsAdded(old(table.table), isMobile, localAddr, id, position, speed, flag, seqNum, now)
      ensures table.entryLifeTime == old(table.entryLifeTime)
    {
      if !isMobile {
        table.AddEntry(id, position, speed, flag, seqNum, now);
      } else if id == localAddr {
        table.DeleteEntry(id);
        table.AddEntry(id, position, speed, flag, seqNum, now);
      } else {
        table.AddEntry(id, position, speed, flag, seqNum, now);
      }
    }

    method DeleteEntry(id: Addr)
      modifies table
      ensures table.table == old(table.table) - {id}
      ensures table.entryLifeTime == old(table.entryLifeTime)
    {
      table.DeleteEntry(id);
    }

    method Purge(now: int)
      modifies table
      ensures table.table == Purged(old(table.table), table.entryLifeTime, now)
      ensures table.entryLifeTime == old(table.entryLifeTime)
    {
      table.Purge(now);
    }

    method Clear()
      modifies table
      ensures table.table == map[]
      ensures table.entryLifeTime == old(table.entryLifeTime)
    {
      table.Clear();
    }

    method IsInSearch(id: Addr, now: int) returns (searching: bool)
      modifies table
      ensures var a := SearchStep(old(table.table), maxSearchTime, id, now);
        table.table == a.table && searching == a.holds
      ensures table.entryLifeTime == old(table.entryLifeTime)
    {
      var updated := table.GetEntryUpdateTime(id);
      if updated + maxSearchTime < now {
        table.DeleteEntry(id);
        return false;
      }
      searching := table.GetResearchFlag(id);
    }

    method GetPosition(id: Addr, now: int) returns (pos: Vector, sent: seq<SlsSend>)
      modifies table
      ensures var l := GetPositionSpec(old(table.table), isMobile, localAddr, rsu, posRsu, id, now);
        table.table == l.table && pos == l.position && sent == l.sent
      ensures table.entryLifeTime == old(table.entryLifeTime)
    {
      var updated := table.GetEntryUpdateTime(id);
      if updated != 0 && updated + StaleAfter < now {
        if !IsFixedAnchor(id) {
          table.DeleteEntry(id);
        }
      }
      sent := [];
      if isMobile {
        if id == rsu {
          return posRsu, [];
        }
        pos := table.GetPosition(id, InvalidPosition, now);
        if VectorComparator(pos, InvalidPosition) {
          table.AddEntry(id, pos, 0, true, 1, now);
          sent := [QueryMessage(localAddr, rsu, id)];
          table.AddEntry(id, pos, 0, true, 1, now);
          pos := posRsu;
        }
      } else {
        pos := table.GetPosition(id, InvalidPosition, now);
      }
    }

    method HasPosition(id: Addr, now: int) returns (has: bool, sent: seq<SlsSend>)
      modifies table
      ensures var a := HasPositionSpec(old(table.table), maxSearchTime, isMobile, localAddr, rsu, posRsu, id, now);
        table.table == a.table && has == a.holds && sent == a.sent
      ensures table.entryLifeTime == old(table.entryLifeTime)
    {
      var updated := table.GetEntryUpdateTime(id);
      if updated + maxSearchTime < now {
        table.DeleteEntry(id);
        return false, [];
      }
      var pos;
      pos, sent := GetPosition(id, now);
      has := !VectorComparator(pos, InvalidPosition);
    }

    method Predict(dst: Addr, now: int) returns (p: Vector)
      ensures p == PredictSpec(table.table, dst, now)
    {
      var pos := table.GetPosition(dst, InvalidPosition, now);
      if VectorComparator(pos, InvalidPosition) {
        return InvalidPosition;
      }
      var timeOld := table.GetTime(dst);
      var speed := table.GetSpeed(dst);
      var dif := now - timeOld;
      var dif1 := TruncDiv(dif, NanosPerSecond);
      var meters := Narrow32(speed * dif1);
      p := Vector(pos.x + meters, pos.y, pos.z);
    }

    method RefreshPosition(dst: Addr, now: int)
      modifies table
      ensures table.table == RefreshPositionSpec(old(table.table), dst, now)
      ensures table.entryLifeTime == old(table.entryLifeTime)
    {
      var seqNum := table.GetSeqNumber(dst);
      var flag := table.GetResearchFlag(dst);
      var speed := table.GetSpeed(dst);
      table.DeleteEntry(dst);
      var newPos := Predict(dst, now);
      table.AddEntry(dst, newPos, speed, flag, seqNum, now);
    }

    method ReceiveUpdate(dst: Addr, position: Vector, speed: int, now: int)
      modifies table
      ensures table.table == ReceivedUpdate(old(table.table), dst, position, speed, now)
      ensures table.entryLifeTime == old(table.entryLifeTime)
    {
      table.AddEntry(dst, position, speed, false, 1, now);
    }

    method ReceiveReply(dst: Addr, position: Vector, now: int)
      modifies table
      ensures table.table == ReceivedReply(old(table.table), dst, position, now)
      ensures table.entryLifeTime == old(table.entryLifeTime)
    {
      table.DeleteEntry(dst);
      table.AddEntry(dst, position, 0, false, 0, now);
    }

    /** `searched` is what `RSUSearch (query)` would return; it is used only
        when the table read is invalid. */
    method ReceiveQuery(src: Addr, dst: Addr, query: Addr, searched: Vector, now: int) returns (sent: seq<SlsSend>)
      modifies table
      ensures var h := ReceiveQuerySpec(old(table.table), table.entryLifeTime, src, dst, query, searched, now);
        table.table == h.table && sent == h.sent
      ensures table.entryLifeTime == old(table.entryLifeTime)
    {
      table.Purge(now);
      var pos := table.GetPosition(query, InvalidPosition, now);
      if VectorComparator(pos, InvalidPosition) {
        pos := searched;
      }
      sent := [ReplyMessage(dst, src, query, pos)];
    }

    method SendLocHello(dst: Addr, src: Addr, ownPosition: Vector) returns (sent: seq<SlsSend>)
      ensures sent == LocHelloMessages(table.table, dst, src, ownPosition)
    {
      var speed := table.GetSpeed(dst);
      if speed != 0 {
        return [];
      }
      sent := [SlsSend(dst, LocHelloMsg(LocHelloHeader(src, Wrap64(ownPosition.x), Wrap64(ownPosition.y))))];
    }
  }
}
