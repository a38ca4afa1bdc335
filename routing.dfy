/** GPSR's per-packet decisions that do not touch the location service:
    leaving recovery, the recovery (perimeter) hop with its header
    rewrite, the greedy hop, the pending-address list operations and the
    dispatch of control messages by role.

    The neighbour table is not part of this model: its three queries are
    the fields of a `NeighborView`, taken as given. */
module Routing {
  import opened Base
  import opened Packet

  /** The neighbour table as seen by one decision: `isNeighbour (dst)`,
      `BestNeighbor (dstPos, myPos)` and `BestAngle (refPos, myPos)`, the
      last two answering 0.0.0.0 when they have no candidate. */
  datatype NeighborView = NeighborView(
    isNeighbour: Addr -> bool,
    bestNeighbor: (Vector, Vector) -> Addr,
    bestAngle: (Vector, Vector) -> Addr)

  /** The outcome of one routing step for a data packet: dropped, or handed
      to `nextHop` with the position header it now carries. */
  datatype Hop = Drop | Hop(nextHop: Addr, hdr: PositionHeader)

  /** The position the forwarding code uses for the node itself: x and y
      of the mobility model, z left 0. */
  function MyPosition(own: Vector): Vector {
    Vector(own.x, own.y, 0)
  }

  /** `RecoveryMode` first copies the node's position into `uint64_t`
      variables. */
  function RecoveryPosition(own: Vector): Vector {
    Vector(Wrap64(own.x), Wrap64(own.y), 0)
  }

  function DstOf(h: PositionHeader): Vector {
    Vector(h.dstPosx, h.dstPosy, 0)
  }

  function RecOf(h: PositionHeader): Vector {
    Vector(h.recPosx, h.recPosy, 0)
  }

  /** The routing fields a forwarder reads: the position header when the
      type is POS, otherwise the defaults `Forwarding` starts from. */
  function Fields(th: TypeHeader, hdr: PositionHeader): PositionHeader {
    if th.msgType == GpsrPos then hdr else DefaultPosition
  }

  // ---------------------------------------------------------------------
  // Forwarding's recovery test and the recovery hop
  // ---------------------------------------------------------------------

  /** A packet in recovery (`inRec == 1`) that reached a node strictly
      closer to the destination than the node where recovery began leaves
      recovery. */
  function ExitRecovery(h: PositionHeader, myPos: Vector): PositionHeader {
    if h.inRec == 1 && Dist2(myPos, DstOf(h)) < Dist2(RecOf(h), DstOf(h)) then h.(inRec := 0) else h
  }

  lemma ExitRecoveryMeaning(h: PositionHeader, myPos: Vector)
    ensures var r := ExitRecovery(h, myPos);
      && (r.inRec == 0 <==> h.inRec == 0 || (h.inRec == 1 && Dist2(myPos, DstOf(h)) < Dist2(RecOf(h), DstOf(h))))
      && r.(inRec := h.inRec) == h
      && (h.inRec > 1 ==> r == h)
  {
  }

  /** A node 60 m from the destination, on a packet that entered recovery
      100 m away, clears the flag. */
  lemma ExitRecoveryCloser(h: PositionHeader)
    requires h.inRec == 1 && DstOf(h) == Vector(100, 0, 0) && RecOf(h) == Vector(0, 0, 0)
    ensures ExitRecovery(h, Vector(40, 0, 0)).inRec == 0
    ensures ExitRecovery(h, Vector(0, 0, 0)).inRec == 1
  {
  }

  /** `RecoveryMode`: re-reads the packet's routing fields (all zero
      unless the type is POS), keeps the destination, `updated` and the
      recovery entry point, marks the packet in recovery with this node as
      last hop, and asks `BestAngle` for the next hop around `angleRef`
      (the caller passes the destination's true position there, not the
      previous hop); no candidate drops the packet. */
  function RecoveryMode(th: TypeHeader, h: PositionHeader, own: Vector, angleRef: Vector, nv: NeighborView): Hop {
    var f := Fields(th, h);
    var me := RecoveryPosition(own);
    var out := PositionHeader(f.dstPosx, f.dstPosy, f.updated, f.recPosx, f.recPosy, 1, Wrap64(me.x), Wrap64(me.y));
    var next := nv.bestAngle(angleRef, me);
    if next == ZeroAddr then Drop else Hop(next, out)
  }

  lemma RecoveryModeMeaning(h: PositionHeader, own: Vector, angleRef: Vector, nv: NeighborView)
    ensures var r := RecoveryMode(TypeHeader(GpsrPos, true), h, own, angleRef, nv);
      && (r.Drop? <==> nv.bestAngle(angleRef, RecoveryPosition(own)) == ZeroAddr)
      && (r.Hop? ==>
            && r.nextHop == nv.bestAngle(angleRef, RecoveryPosition(own))
            && r.hdr.dstPosx == h.dstPosx && r.hdr.dstPosy == h.dstPosy && r.hdr.updated == h.updated
            && r.hdr.recPosx == h.recPosx && r.hdr.recPosy == h.recPosy
            && r.hdr.inRec == 1
            && r.hdr.lastPosx == Wrap64(own.x) && r.hdr.lastPosy == Wrap64(own.y))
  {
  }

  /** A packet whose type is not POS is routed around a destination at the
      origin with no entry point. */
  lemma RecoveryModeOfOtherTypes(th: TypeHeader, h: PositionHeader, own: Vector, angleRef: Vector, nv: NeighborView)
    requires th.msgType != GpsrPos
    ensures var r := RecoveryMode(th, h, own, angleRef, nv);
      r.Hop? ==> r.hdr == PositionHeader(0, 0, 0, 0, 0, 1, Wrap64(own.x), Wrap64(own.y))
  {
  }

  /** The header's previous hop plays no part: two packets that differ only
      in their last-hop fields go the same way with the same header. */
  lemma RecoveryModeIgnoresLastHop(th: TypeHeader, h: PositionHeader, lx: uint64, ly: uint64, own: Vector, angleRef: Vector, nv: NeighborView)
    ensures RecoveryMode(th, h.(lastPosx := lx, lastPosy := ly), own, angleRef, nv) == RecoveryMode(th, h, own, angleRef, nv)
  {
  }

  // ---------------------------------------------------------------------
  // The greedy hop
  // ---------------------------------------------------------------------

  /** The greedy choice: the destination itself if it is a neighbour,
      else the neighbour `BestNeighbor` picks. */
  function GreedyNext(position: Vector, dst: Addr, own: Vector, nv: NeighborView): Addr {
    if nv.isNeighbour(dst) then dst else nv.bestNeighbor(position, MyPosition(own))
  }

  /** The greedy part of `Forwarding` with the destination position and
      `updated` it settled on: the destination itself if it is a
      neighbour, else `BestNeighbor`; on success the packet carries a fresh
      header out of recovery with this node as last hop. Without a
      candidate the header is put into recovery (entry point here, last
      hop the destination position) and handed to `RecoveryMode`. */
  function GreedyStep(th: TypeHeader, h: PositionHeader, position: Vector, updated: uint32, dst: Addr,
                      own: Vector, angleRef: Vector, nv: NeighborView): Hop {
    var myPos := MyPosition(own);
    var next := GreedyNext(position, dst, own, nv);
    if next != ZeroAddr then
      Hop(next, PositionHeader(Wrap64(position.x), Wrap64(position.y), updated, 0, 0, 0, Wrap64(myPos.x), Wrap64(myPos.y)))
    else
      var entering := h.(inRec := 1, recPosx := Wrap64(myPos.x), recPosy := Wrap64(myPos.y),
                         lastPosx := Wrap64(position.x), lastPosy := Wrap64(position.y));
      RecoveryMode(th, entering, own, angleRef, nv)
  }

  lemma GreedySuccess(th: TypeHeader, h: PositionHeader, position: Vector, updated: uint32, dst: Addr,
                      own: Vector, angleRef: Vector, nv: NeighborView)
    requires GreedyNext(position, dst, own, nv) != ZeroAddr
    ensures var r := GreedyStep(th, h, position, updated, dst, own, angleRef, nv);
      && r.Hop?
      && r.nextHop == (if nv.isNeighbour(dst) then dst else nv.bestNeighbor(position, MyPosition(own)))
      && r.hdr == PositionHeader(Wrap64(position.x), Wrap64(position.y), updated, 0, 0, 0, Wrap64(own.x), Wrap64(own.y))
  {
  }

  /** Greedy failure enters recovery with this node as entry point; the
      destination fields and `updated` stay as received (a refreshed
      position is not carried), and the last hop set to the destination on
      entry is overwritten by `RecoveryMode` with this node's position. */
  lemma GreedyFailureEntersRecovery(h: PositionHeader, position: Vector, updated: uint32, dst: Addr,
                                    own: Vector, angleRef: Vector, nv: NeighborView)
    requires GreedyNext(position, dst, own, nv) == ZeroAddr
    ensures var r := GreedyStep(TypeHeader(GpsrPos, true), h, position, updated, dst, own, angleRef, nv);
      && (r.Drop? <==> nv.bestAngle(angleRef, RecoveryPosition(own)) == ZeroAddr)
      && (r.Hop? ==> r.hdr == PositionHeader(h.dstPosx, h.dstPosy, h.updated, Wrap64(own.x), Wrap64(own.y), 1,
                                             Wrap64(own.x), Wrap64(own.y)))
  {
  }

  /** The destination's position the header leaves with, on the greedy
      path, is the one greedy used, and the next packet at the next hop
      starts out of recovery. */
  lemma GreedyThenNoRecovery(th: TypeHeader, h: PositionHeader, position: Vector, updated: uint32, dst: Addr,
                             own: Vector, angleRef: Vector, nv: NeighborView, there: Vector)
    requires GreedyNext(position, dst, own, nv) != ZeroAddr
    ensures var r := GreedyStep(th, h, position, updated, dst, own, angleRef, nv);
      r.Hop? && ExitRecovery(r.hdr, there).inRec == 0
  {
  }

  // ---------------------------------------------------------------------
  // The list of destinations with deferred packets
  // ---------------------------------------------------------------------

  /** `std::list::unique`: collapses each run of equal adjacent elements
      to one. */
  function Unique(s: seq<Addr>): (r: seq<Addr>)
    ensures |r| <= |s|
    ensures s != [] ==> r != [] && r[0] == s[0]
  {
    if |s| <= 1 then s
    else
      var tail := Unique(s[1..]);
      if s[0] == s[1] then tail else [s[0]] + tail
  }

  predicate NoAdjacentDuplicates(s: seq<Addr>) {
    forall i :: 0 <= i < |s| - 1 ==> s[i] != s[i + 1]
  }

  lemma {:induction false} UniqueMeaning(s: seq<Addr>)
    ensures NoAdjacentDuplicates(Unique(s))
    ensures forall a :: a in Unique(s) <==> a in s
    ensures NoAdjacentDuplicates(s) ==> Unique(s) == s
  {
    if |s| > 1 {
      UniqueMeaning(s[1..]);
      var tail := Unique(s[1..]);
      assert tail[0] == s[1];
      if s[0] != s[1] {
        var r := [s[0]] + tail;
        forall i | 0 <= i < |r| - 1
          ensures r[i] != r[i + 1]
        {
          if i > 0 {
            assert r[i] == tail[i - 1] && r[i + 1] == tail[i];
          }
        }
      }
      forall a
        ensures a in Unique(s) <==> a in s
      {
        assert a in s <==> a == s[0] || a in s[1..];
      }
      if NoAdjacentDuplicates(s) {
        assert s[0] != s[1];
        assert NoAdjacentDuplicates(s[1..]) by {
          forall i | 0 <= i < |s[1..]| - 1
            ensures s[1..][i] != s[1..][i + 1]
          {
            assert s[1..][i] == s[i + 1] && s[1..][i + 1] == s[i + 2];
          }
        }
        assert s == [s[0]] + s[1..];
      }
    }
  }

  /** Pushing a destination at the front of a list without adjacent
      repeats and running `unique` adds it unless it is already first. */
  lemma PushFrontUnique(s: seq<Addr>, dst: Addr)
    requires NoAdjacentDuplicates(s)
    ensures Unique([dst] + s) == if s != [] && s[0] == dst then s else [dst] + s
  {
    UniqueMeaning(s);
    var t := [dst] + s;
    if s != [] {
      assert t[1..] == s;
    }
  }

  /** A destination can appear twice when a removal brings two equal
      entries together: `unique` only merges neighbours. */
  lemma UniqueKeepsDistantRepeats(a: Addr, b: Addr)
    requires a != b
    ensures Unique([a, b, a]) == [a, b, a]
  {
    assert [a, b, a][1..] == [b, a];
    assert [b, a][1..] == [a];
  }

  /** `remove (x)` for every `x` collected by `CheckQueue`: the order of the
      survivors is kept. */
  function RemoveAll(s: seq<Addr>, gone: set<Addr>): (r: seq<Addr>)
    ensures |r| <= |s|
  {
    if s == [] then []
    else if s[0] in gone then RemoveAll(s[1..], gone)
    else [s[0]] + RemoveAll(s[1..], gone)
  }

  lemma {:induction false} RemoveAllMeaning(s: seq<Addr>, gone: set<Addr>)
    ensures forall a :: a in RemoveAll(s, gone) <==> a in s && a !in gone
    ensures RemoveAll(s, {}) == s
    ensures RemoveAll(RemoveAll(s, gone), gone) == RemoveAll(s, gone)
  {
    if s != [] {
      RemoveAllMeaning(s[1..], gone);
      forall a
        ensures a in RemoveAll(s, gone) <==> a in s && a !in gone
      {
        assert a in s <==> a == s[0] || a in s[1..];
      }
      assert s == [s[0]] + s[1..];
      if s[0] !in gone {
        var r := RemoveAll(s, gone);
        assert r[1..] == RemoveAll(s[1..], gone);
      }
    }
  }

  // ---------------------------------------------------------------------
  // Control messages by role
  // ---------------------------------------------------------------------

  /** The branch of `RecvGPSR` that handles a message of a given type at a
      node of a given role. */
  datatype Handler =
    | RebindAndUpdate   // location hello at a mobile node
    | StoreUpdate       // location update at an anchor
    | AnswerQuery       // location query at an anchor
    | StoreReply        // location reply at a mobile node
    | Ignore            // query at a mobile node, reply at an anchor
    | GenericHello      // the trailing `else`: parse a GPSR hello

  /** The `else` that handles hellos hangs on the reply test alone, so a
      location hello at an anchor and a location update at a mobile node
      fall through into it. */
  function Dispatch(t: MessageType, mobile: bool): Handler {
    if t == SlsLocationHello && mobile then RebindAndUpdate
    else if t == SlsLocationUpdate && !mobile then StoreUpdate
    else if t == SlsLocationQuery then (if mobile then Ignore else AnswerQuery)
    else if t == SlsLocationReply then (if mobile then StoreReply else Ignore)
    else GenericHello
  }

  lemma DispatchFallThrough(t: MessageType, mobile: bool)
    ensures Dispatch(t, mobile) == GenericHello <==>
      t == GpsrHello || t == GpsrPos || (t == SlsLocationHello && !mobile) || (t == SlsLocationUpdate && mobile)
    ensures Dispatch(t, mobile) == RebindAndUpdate <==> t == SlsLocationHello && mobile
    ensures Dispatch(t, mobile) == StoreUpdate <==> t == SlsLocationUpdate && !mobile
  {
  }

  /** `HelloTimerExpire`: the three anchors neither send hellos nor re-arm
      the timer; any other node broadcasts its position and re-arms. */
  function HelloTimerExpire(local: Addr, own: Vector): Option<HelloHeader> {
    if IsFixedAnchor(local) then None
    else Some(HelloHeader(Wrap64(own.x), Wrap64(own.y)))
  }

  /** A hello carries the sender's truncated position to every receiver. */
  lemma HelloTimerMeaning(local: Addr, own: Vector, rest: seq<uint8>)
    ensures HelloTimerExpire(local, own).None? <==> IsFixedAnchor(local)
    ensures HelloTimerExpire(local, own).Some? ==>
      Decode(Encode(HelloMsg(HelloTimerExpire(local, own).value)) + rest)
        == Some(Decoded(HelloMsg(HelloHeader(Wrap64(own.x), Wrap64(own.y))), rest))
  {
    if !IsFixedAnchor(local) {
      EncodeDecode(HelloMsg(HelloHeader(Wrap64(own.x), Wrap64(own.y))), rest);
    }
  }
}
