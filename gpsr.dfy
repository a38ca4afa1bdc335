/** The GPSR routing protocol object: the queue of packets waiting for a
    destination's position, the periodic queue check, forwarding of data
    packets, route selection for locally generated packets and the
    handling of control messages. Each operation is specified by a
    function of the old state (the location table, the queue and the
    service's role), and the class keeps one invariant: every destination
    with a waiting packet is on the list the queue check walks, and the
    check timer is armed while anything waits. */
module Gpsr {
  import opened Base
  import opened Packet
  import opened LTable
  import opened Sls
  import opened Routing

  const HelloInterval: int := 1 * NanosPerSecond
  /** `GPSR_MAXJITTER`: half the hello interval. */
  const MaxJitter: int := HelloInterval / 2
  const CheckQueueInterval: int := 500 * 1_000_000

  /** A data packet as the routing code sees it: the IP source and
      destination and the GPSR headers at its front (the position header
      is meaningful only when the type is POS). */
  datatype DataPacket = DataPacket(source: Addr, destination: Addr, th: TypeHeader, hdr: PositionHeader)

  /** What leaves the node with a data packet: a unicast through the
      forwarding callback (gateway and route source), or a send on the
      control socket to the broadcast address. */
  datatype Emission =
    | Unicast(gateway: Addr, routeSource: Addr, packet: DataPacket)
    | Broadcast(packet: DataPacket)

  /** The request queue: the waiting packets for each destination, oldest
      first. */
  type Queue = map<Addr, seq<DataPacket>>

  /** Everything a decision takes from outside the model: the clock, the
      node's own position, the neighbour table and `GODPredict`. */
  datatype Environment = Environment(now: int, ownPosition: Vector, neighbors: NeighborView, godPredict: Addr -> Vector)

  /** The location service's configuration as the routing code reads it. */
  datatype SlsView = SlsView(mobile: bool, local: Addr, rsu: Addr, posRsu: Vector, maxSearch: int)

  function Pending(q: Queue, dst: Addr): seq<DataPacket> {
    if dst in q then q[dst] else []
  }

  predicate QueueEmpty(q: Queue) {
    forall d :: Pending(q, d) == []
  }

  /** `Enqueue` of an accepted entry: appended behind the packets already
      waiting for the same destination. */
  function Enqueued(q: Queue, p: DataPacket): Queue {
    q[p.destination := Pending(q, p.destination) + [p]]
  }

  /** The queue after the first `k` packets for `dst` were dequeued. */
  function Dequeued(q: Queue, dst: Addr, k: nat): Queue
    requires k <= |Pending(q, dst)|
  {
    if dst in q then q[dst := q[dst][k..]] else q
  }

  lemma DequeuedMeaning(q: Queue, dst: Addr, k: nat)
    requires k <= |Pending(q, dst)|
    ensures Pending(Dequeued(q, dst, k), dst) == Pending(q, dst)[k..]
    ensures forall d :: d != dst ==> Pending(Dequeued(q, dst, k), d) == Pending(q, d)
  {
  }

  /** Dequeuing one more packet after `k` is dequeuing `k + 1`. */
  lemma DequeuedOneMore(q: Queue, dst: Addr, k: nat)
    requires k < |Pending(q, dst)|
    ensures Pending(Dequeued(q, dst, k), dst) == Pending(q, dst)[k..]
    ensures Dequeued(Dequeued(q, dst, k), dst, 1) == Dequeued(q, dst, k + 1)
  {
    assert Pending(q, dst)[k..][1..] == Pending(q, dst)[k + 1..];
  }

  lemma EnqueuedMeaning(q: Queue, p: DataPacket)
    ensures Pending(Enqueued(q, p), p.destination) == Pending(q, p.destination) + [p]
    ensures forall d :: d != p.destination ==> Pending(Enqueued(q, p), d) == Pending(q, d)
    ensures !QueueEmpty(Enqueued(q, p))
  {
    assert Pending(Enqueued(q, p), p.destination) != [];
  }

  /** Queuing a packet, whether or not the queue accepts it, and listing
      its destination keeps every destination with waiting packets
      listed. */
  lemma DeferredKeepsListed(q: Queue, l: seq<Addr>, p: DataPacket, accepted: bool)
    requires forall d :: Pending(q, d) != [] ==> d in l
    ensures var q1 := if accepted then Enqueued(q, p) else q;
      forall d :: Pending(q1, d) != [] ==> d in Unique([p.destination] + l)
    ensures accepted ==> !QueueEmpty(Enqueued(q, p))
  {
    EnqueuedMeaning(q, p);
    UniqueMeaning([p.destination] + l);
    assert forall d :: d in l ==> d in [p.destination] + l;
  }

  /** Dequeuing everything just enqueued for a destination gives the
      packets back in the order they came. */
  lemma EnqueueThenDequeueAll(q: Queue, p: DataPacket)
    requires Pending(q, p.destination) == []
    ensures Pending(Enqueued(q, p), p.destination) == [p]
    ensures Pending(Dequeued(Enqueued(q, p), p.destination, 1), p.destination) == []
  {
    EnqueuedMeaning(q, p);
    DequeuedMeaning(Enqueued(q, p), p.destination, 1);
  }

  /** A queue only shrinks: no destination's packets appear out of
      nothing. */
  predicate Shrunk(before: Queue, after: Queue) {
    forall d :: Pending(before, d) == [] ==> Pending(after, d) == []
  }

  // ---------------------------------------------------------------------
  // Emissions
  // ---------------------------------------------------------------------

  /** A hop chosen for a packet, as what leaves the node: the route source
      is the packet's IP source. */
  function HopEmission(hop: Hop, p: DataPacket): seq<Emission> {
    match hop
    case Drop => []
    case Hop(next, h) => [Unicast(next, p.source, p.(hdr := h))]
  }

  /** A queued packet sent greedily: a source still set to the
      placeholder 102.102.102.102 becomes the node's address, in the route
      and in the IP header; the GPSR headers stay as queued. */
  function FromQueue(p: DataPacket, gateway: Addr, local: Addr): Emission {
    var src := if p.source == DefaultAddr then local else p.source;
    Unicast(gateway, src, p.(source := src))
  }

  function UnicastAll(entries: seq<DataPacket>, gateway: Addr, local: Addr): (r: seq<Emission>)
    ensures |r| == |entries|
    ensures forall i :: 0 <= i < |entries| ==> r[i] == FromQueue(entries[i], gateway, local)
  {
    if entries == [] then []
    else UnicastAll(entries[..|entries| - 1], gateway, local) + [FromQueue(entries[|entries| - 1], gateway, local)]
  }

  function BroadcastAll(entries: seq<DataPacket>): (r: seq<Emission>)
    ensures |r| == |entries|
    ensures forall i :: 0 <= i < |entries| ==> r[i] == Broadcast(entries[i])
  {
    if entries == [] then [] else BroadcastAll(entries[..|entries| - 1]) + [Broadcast(entries[|entries| - 1])]
  }

  // ---------------------------------------------------------------------
  // SendPacketFromQueue
  // ---------------------------------------------------------------------

  /** The header a queued packet enters recovery with: entry point and
      this node, last hop the destination. */
  function QueueRecoveryHeader(h: PositionHeader, own: Vector): PositionHeader {
    PositionHeader(h.dstPosx, h.dstPosy, h.updated, Wrap64(own.x), Wrap64(own.y), 1, h.dstPosx, h.dstPosy)
  }

  /** The result of draining a destination in recovery: whether the
      destination may leave the list, how many packets were dequeued and
      what was sent. */
  datatype RecoveryRun = RecoveryRun(erase: bool, consumed: nat, emitted: seq<Emission>)

  /** The recovery loop of `SendPacketFromQueue`: each packet is dequeued
      and routed by `RecoveryMode`; a packet with an invalid type ends the
      loop (it is lost, the rest stay queued) and keeps the destination on
      the list. */
  function QueueRecovery(entries: seq<DataPacket>, own: Vector, angleRef: Vector, nv: NeighborView): (r: RecoveryRun)
    ensures r.consumed <= |entries|
    ensures r.erase ==> r.consumed == |entries|
    ensures !r.erase ==> r.consumed > 0 && !entries[r.consumed - 1].th.valid
  {
    if entries == [] then RecoveryRun(true, 0, [])
    else if !entries[0].th.valid then RecoveryRun(false, 1, [])
    else
      var p := entries[0];
      var hop := RecoveryMode(p.th, QueueRecoveryHeader(p.hdr, own), own, angleRef, nv);
      var rest := QueueRecovery(entries[1..], own, angleRef, nv);
      RecoveryRun(rest.erase, rest.consumed + 1, HopEmission(hop, p) + rest.emitted)
  }

  /** Packets before the first invalid one are all routed. */
  lemma {:induction false} QueueRecoveryValidPrefix(entries: seq<DataPacket>, own: Vector, angleRef: Vector, nv: NeighborView)
    ensures var r := QueueRecovery(entries, own, angleRef, nv);
      forall i :: 0 <= i < r.consumed - 1 ==> entries[i].th.valid
  {
    if entries != [] && entries[0].th.valid {
      QueueRecoveryValidPrefix(entries[1..], own, angleRef, nv);
      var r := QueueRecovery(entries, own, angleRef, nv);
      forall i | 0 <= i < r.consumed - 1
        ensures entries[i].th.valid
      {
        if i > 0 {
          assert entries[i] == entries[1..][i - 1];
        }
      }
    }
  }

  /** One pass of the recovery loop at position `k` of the waiting
      packets. */
  lemma QueueRecoveryAt(entries: seq<DataPacket>, k: nat, own: Vector, angleRef: Vector, nv: NeighborView)
    requires k < |entries|
    ensures entries[k..][1..] == entries[k + 1..]
    ensures var rest := QueueRecovery(entries[k + 1..], own, angleRef, nv);
      var p := entries[k];
      QueueRecovery(entries[k..], own, angleRef, nv)
        == if !p.th.valid then RecoveryRun(false, 1, [])
           else RecoveryRun(rest.erase, rest.consumed + 1,
                            HopEmission(RecoveryMode(p.th, QueueRecoveryHeader(p.hdr, own), own, angleRef, nv), p) + rest.emitted)
  {
    assert entries[k..][1..] == entries[k + 1..];
  }

  /** The header a queued packet leaves recovery with: a POS packet keeps
      its destination and `updated`, every packet is marked in recovery
      with this node as entry point and last hop; a packet of another type
      carries zeros, which `RecoveryMode` reads for it. */
  function RecoveredHeader(p: DataPacket, own: Vector): PositionHeader {
    var me := Wrap64(own.x);
    var mine := Wrap64(own.y);
    if p.th.msgType == GpsrPos then PositionHeader(p.hdr.dstPosx, p.hdr.dstPosy, p.hdr.updated, me, mine, 1, me, mine)
    else PositionHeader(0, 0, 0, 0, 0, 1, me, mine)
  }

  /** The recovery loop empties the queue exactly when every packet is
      valid; each packet before the first invalid one goes to the one
      `BestAngle` candidate, in order, with its recovery header, and
      nothing goes out when there is no candidate. */
  lemma {:induction false} QueueRecoveryEmits(entries: seq<DataPacket>, own: Vector, angleRef: Vector, nv: NeighborView)
    ensures var r := QueueRecovery(entries, own, angleRef, nv);
      var next := nv.bestAngle(angleRef, RecoveryPosition(own));
      var routed := if r.erase then r.consumed else r.consumed - 1;
      && (r.erase <==> forall i :: 0 <= i < |entries| ==> entries[i].th.valid)
      && (next == ZeroAddr ==> r.emitted == [])
      && (next != ZeroAddr ==>
            && |r.emitted| == routed
            && forall i :: 0 <= i < routed ==>
                 r.emitted[i] == Unicast(next, entries[i].source, entries[i].(hdr := RecoveredHeader(entries[i], own))))
  {
    if entries != [] && entries[0].th.valid {
      QueueRecoveryEmits(entries[1..], own, angleRef, nv);
      RecoveryHopOfQueued(entries[0], own, angleRef, nv);
      AllValidSplit(entries);
      var next := nv.bestAngle(angleRef, RecoveryPosition(own));
      if next != ZeroAddr {
        var r := QueueRecovery(entries, own, angleRef, nv);
        var routed := if r.erase then r.consumed else r.consumed - 1;
        forall i | 0 <= i < routed
          ensures r.emitted[i] == Unicast(next, entries[i].source, entries[i].(hdr := RecoveredHeader(entries[i], own)))
        {
          if i > 0 { assert entries[i] == entries[1..][i - 1]; }
        }
      }
    } else if entries != [] {
      AllValidSplit(entries);
    }
  }

  /** One valid queued packet through `RecoveryMode`. */
  lemma RecoveryHopOfQueued(p: DataPacket, own: Vector, angleRef: Vector, nv: NeighborView)
    requires p.th.valid
    ensures var next := nv.bestAngle(angleRef, RecoveryPosition(own));
      RecoveryMode(p.th, QueueRecoveryHeader(p.hdr, own), own, angleRef, nv)
        == if next == ZeroAddr then Drop else Hop(next, RecoveredHeader(p, own))
  {
    if p.th.msgType == GpsrPos {
      assert p.th == TypeHeader(GpsrPos, true);
      RecoveryModeMeaning(QueueRecoveryHeader(p.hdr, own), own, angleRef, nv);
    } else {
      RecoveryModeOfOtherTypes(p.th, QueueRecoveryHeader(p.hdr, own), own, angleRef, nv);
    }
  }

  lemma AllValidSplit(entries: seq<DataPacket>)
    requires entries != []
    ensures (forall i :: 0 <= i < |entries| ==> entries[i].th.valid)
        <==> entries[0].th.valid && (forall i :: 0 <= i < |entries[1..]| ==> entries[1..][i].th.valid)
  {
    if entries[0].th.valid && forall i :: 0 <= i < |entries[1..]| ==> entries[1..][i].th.valid {
      forall i | 0 <= i < |entries|
        ensures entries[i].th.valid
      {
        if i > 0 { assert entries[i] == entries[1..][i - 1]; }
      }
    }
  }

  /** What `SendPacketFromQueue` did: whether the destination may leave
      the list, the location table afterwards, how many of the
      destination's packets were dequeued, and what was sent. */
  datatype QueueStep = QueueStep(erase: bool, table: Table, consumed: nat, emitted: seq<Emission>, sent: seq<SlsSend>)

  /** `SendPacketFromQueue (dst)`: broadcast packets are flushed to the
      broadcast address; a destination still being searched stays; one the
      location service gave up on has its packets dropped; otherwise every
      waiting packet goes to the same next hop (the destination if it is a
      neighbour, else the neighbour greedy picks for its position) or, when
      there is none, through recovery. The answer says whether the
      destination leaves the list. */
  function SendFromQueueSpec(s: SlsView, m: Table, q: Queue, broadcast: Addr, local: Addr, dst: Addr,
                             env: Environment): (st: QueueStep)
    ensures st.consumed <= |Pending(q, dst)|
    ensures st.erase ==> st.consumed == |Pending(q, dst)|
  {
    var pending := Pending(q, dst);
    if dst == broadcast then
      QueueStep(true, m, |pending|, BroadcastAll(pending), [])
    else
      var a := SearchStep(m, s.maxSearch, dst, env.now);
      if a.holds then QueueStep(false, a.table, 0, [], [])
      else
        var hp := HasPositionSpec(a.table, s.maxSearch, s.mobile, s.local, s.rsu, s.posRsu, dst, env.now);
        if !hp.holds then QueueStep(true, hp.table, |pending|, [], hp.sent)
        else if env.neighbors.isNeighbour(dst) then
          QueueStep(true, hp.table, |pending|, UnicastAll(pending, dst, local), hp.sent)
        else
          var l := GetPositionSpec(hp.table, s.mobile, s.local, s.rsu, s.posRsu, dst, env.now);
          var next := env.neighbors.bestNeighbor(l.position, MyPosition(env.ownPosition));
          if next == ZeroAddr then
            var r := QueueRecovery(pending, env.ownPosition, env.godPredict(dst), env.neighbors);
            QueueStep(r.erase, l.table, r.consumed, r.emitted, hp.sent + l.sent)
          else
            QueueStep(true, l.table, |pending|, UnicastAll(pending, next, local), hp.sent + l.sent)
  }

  /** The queue after `SendPacketFromQueue (dst)`. */
  function QueueAfter(q: Queue, dst: Addr, st: QueueStep): Queue
    requires st.consumed <= |Pending(q, dst)|
  {
    Dequeued(q, dst, st.consumed)
  }

  /** Only `dst`'s packets are touched; when the destination leaves the
      list none of its packets are left behind; a destination still being
      searched keeps all of them. */
  lemma SendFromQueueMeaning(s: SlsView, m: Table, q: Queue, broadcast: Addr, local: Addr, dst: Addr, env: Environment)
    ensures var st := SendFromQueueSpec(s, m, q, broadcast, local, dst, env);
      && (forall d :: d != dst ==> Pending(QueueAfter(q, dst, st), d) == Pending(q, d))
      && (st.erase ==> Pending(QueueAfter(q, dst, st), dst) == [])
      && (dst != broadcast && SearchStep(m, s.maxSearch, dst, env.now).holds ==>
            !st.erase && QueueAfter(q, dst, st) == q && st.emitted == [])
      && Shrunk(q, QueueAfter(q, dst, st))
  {
    var st := SendFromQueueSpec(s, m, q, broadcast, local, dst, env);
    DequeuedMeaning(q, dst, st.consumed);
  }

  /** A destination flushed greedily sends every waiting packet, in order,
      to one gateway. */
  lemma SendFromQueueGreedy(s: SlsView, m: Table, q: Queue, broadcast: Addr, local: Addr, dst: Addr, env: Environment)
    requires dst != broadcast && !SearchStep(m, s.maxSearch, dst, env.now).holds
    requires env.neighbors.isNeighbour(dst)
    requires HasPositionSpec(SearchStep(m, s.maxSearch, dst, env.now).table, s.maxSearch, s.mobile, s.local,
                             s.rsu, s.posRsu, dst, env.now).holds
    ensures var st := SendFromQueueSpec(s, m, q, broadcast, local, dst, env);
      && st.erase && |st.emitted| == |Pending(q, dst)|
      && forall i :: 0 <= i < |st.emitted| ==>
           st.emitted[i].Unicast? && st.emitted[i].gateway == dst
           && st.emitted[i].routeSource == st.emitted[i].packet.source
           && (Pending(q, dst)[i].source != DefaultAddr ==> st.emitted[i].packet == Pending(q, dst)[i])
           && (Pending(q, dst)[i].source == DefaultAddr ==> st.emitted[i].packet == Pending(q, dst)[i].(source := local))
  {
  }

  /** A broadcast destination leaves the list: every waiting packet is
      broadcast, in order, and the location service is not consulted. */
  lemma SendFromQueueBroadcast(s: SlsView, m: Table, q: Queue, broadcast: Addr, local: Addr, dst: Addr, env: Environment)
    requires dst == broadcast
    ensures var st := SendFromQueueSpec(s, m, q, broadcast, local, dst, env);
      && st.erase && st.table == m && st.sent == []
      && Pending(QueueAfter(q, dst, st), dst) == []
      && |st.emitted| == |Pending(q, dst)|
      && forall i :: 0 <= i < |st.emitted| ==> st.emitted[i] == Broadcast(Pending(q, dst)[i])
  {
    var st := SendFromQueueSpec(s, m, q, broadcast, local, dst, env);
    DequeuedMeaning(q, dst, st.consumed);
  }

  /** A destination the location service has given up on leaves the list
      with all its packets dropped: nothing is emitted. */
  lemma SendFromQueueNoPosition(s: SlsView, m: Table, q: Queue, broadcast: Addr, local: Addr, dst: Addr, env: Environment)
    requires dst != broadcast && !SearchStep(m, s.maxSearch, dst, env.now).holds
    requires !HasPositionSpec(SearchStep(m, s.maxSearch, dst, env.now).table, s.maxSearch, s.mobile, s.local,
                              s.rsu, s.posRsu, dst, env.now).holds
    ensures var st := SendFromQueueSpec(s, m, q, broadcast, local, dst, env);
      var hp := HasPositionSpec(SearchStep(m, s.maxSearch, dst, env.now).table, s.maxSearch, s.mobile, s.local,
                                s.rsu, s.posRsu, dst, env.now);
      && st.erase && st.emitted == [] && st.table == hp.table && st.sent == hp.sent
      && Pending(QueueAfter(q, dst, st), dst) == []
  {
    var st := SendFromQueueSpec(s, m, q, broadcast, local, dst, env);
    DequeuedMeaning(q, dst, st.consumed);
  }

  /** A destination that is not a neighbour is looked up once more and
      every waiting packet goes, in order, to the neighbour `BestNeighbor`
      picks for that position. */
  lemma SendFromQueueBestNeighbor(s: SlsView, m: Table, q: Queue, broadcast: Addr, local: Addr, dst: Addr, env: Environment)
    requires dst != broadcast && !SearchStep(m, s.maxSearch, dst, env.now).holds
    requires !env.neighbors.isNeighbour(dst)
    requires HasPositionSpec(SearchStep(m, s.maxSearch, dst, env.now).table, s.maxSearch, s.mobile, s.local,
                             s.rsu, s.posRsu, dst, env.now).holds
    ensures var st := SendFromQueueSpec(s, m, q, broadcast, local, dst, env);
      var hp := HasPositionSpec(SearchStep(m, s.maxSearch, dst, env.now).table, s.maxSearch, s.mobile, s.local,
                                s.rsu, s.posRsu, dst, env.now);
      var l := GetPositionSpec(hp.table, s.mobile, s.local, s.rsu, s.posRsu, dst, env.now);
      var next := env.neighbors.bestNeighbor(l.position, MyPosition(env.ownPosition));
      next != ZeroAddr ==>
        && st.erase && st.table == l.table && st.sent == hp.sent + l.sent
        && |st.emitted| == |Pending(q, dst)|
        && forall i :: 0 <= i < |st.emitted| ==> st.emitted[i] == FromQueue(Pending(q, dst)[i], next, local)
  {
  }

  /** Without a greedy neighbour every waiting packet goes through
      recovery: the destination leaves the list exactly when all of them
      are valid, and each packet before the first invalid one goes, in
      order, to the `BestAngle` candidate around the destination's true
      position with its recovery header. */
  lemma SendFromQueueRecovery(s: SlsView, m: Table, q: Queue, broadcast: Addr, local: Addr, dst: Addr, env: Environment)
    requires dst != broadcast && !SearchStep(m, s.maxSearch, dst, env.now).holds
    requires !env.neighbors.isNeighbour(dst)
    requires HasPositionSpec(SearchStep(m, s.maxSearch, dst, env.now).table, s.maxSearch, s.mobile, s.local,
                             s.rsu, s.posRsu, dst, env.now).holds
    ensures var st := SendFromQueueSpec(s, m, q, broadcast, local, dst, env);
      var hp := HasPositionSpec(SearchStep(m, s.maxSearch, dst, env.now).table, s.maxSearch, s.mobile, s.local,
                                s.rsu, s.posRsu, dst, env.now);
      var l := GetPositionSpec(hp.table, s.mobile, s.local, s.rsu, s.posRsu, dst, env.now);
      var pending := Pending(q, dst);
      var angle := env.neighbors.bestAngle(env.godPredict(dst), RecoveryPosition(env.ownPosition));
      env.neighbors.bestNeighbor(l.position, MyPosition(env.ownPosition)) == ZeroAddr ==>
        && st.table == l.table && st.sent == hp.sent + l.sent
        && (st.erase <==> forall i :: 0 <= i < |pending| ==> pending[i].th.valid)
        && (angle == ZeroAddr ==> st.emitted == [])
        && (angle != ZeroAddr ==>
              && |st.emitted| == (if st.erase then st.consumed else st.consumed - 1)
              && forall i :: 0 <= i < |st.emitted| ==>
                st.emitted[i] == Unicast(angle, pending[i].source, pending[i].(hdr := RecoveredHeader(pending[i], env.ownPosition))))
  {
    QueueRecoveryEmits(Pending(q, dst), env.ownPosition, env.godPredict(dst), env.neighbors);
  }

  // ---------------------------------------------------------------------
  // CheckQueue
  // ---------------------------------------------------------------------

  datatype CheckRun = CheckRun(table: Table, queue: Queue, removed: set<Addr>, emitted: seq<Emission>, sent: seq<SlsSend>)

  /** The loop of `CheckQueue`: `SendPacketFromQueue` for each listed
      destination in order, collecting those that may leave the list. */
  function CheckQueueRun(s: SlsView, m: Table, q: Queue, broadcast: Addr, local: Addr, addrs: seq<Addr>,
                         env: Environment): CheckRun
    decreases |addrs|
  {
    if addrs == [] then CheckRun(m, q, {}, [], [])
    else
      var st := SendFromQueueSpec(s, m, q, broadcast, local, addrs[0], env);
      var rest := CheckQueueRun(s, st.table, QueueAfter(q, addrs[0], st), broadcast, local, addrs[1..], env);
      CheckRun(rest.table, rest.queue, Erased(st, addrs[0]) + rest.removed,
               st.emitted + rest.emitted, st.sent + rest.sent)
  }

  /** Every destination removed from the list has nothing left in the
      queue, destinations not on the list are untouched, and the queue
      only shrinks. */
  lemma {:induction false} CheckQueueRunMeaning(s: SlsView, m: Table, q: Queue, broadcast: Addr, local: Addr,
                                                addrs: seq<Addr>, env: Environment)
    decreases |addrs|
    ensures var r := CheckQueueRun(s, m, q, broadcast, local, addrs, env);
      && (forall d :: d in r.removed ==> d in addrs && Pending(r.queue, d) == [])
      && (forall d :: d !in addrs ==> Pending(r.queue, d) == Pending(q, d))
      && Shrunk(q, r.queue)
  {
    if addrs != [] {
      var st := SendFromQueueSpec(s, m, q, broadcast, local, addrs[0], env);
      SendFromQueueMeaning(s, m, q, broadcast, local, addrs[0], env);
      CheckQueueRunMeaning(s, st.table, QueueAfter(q, addrs[0], st), broadcast, local, addrs[1..], env);
      var r := CheckQueueRun(s, m, q, broadcast, local, addrs, env);
      forall d | d !in addrs
        ensures Pending(r.queue, d) == Pending(q, d)
      {
        assert d !in addrs[1..];
      }
      forall d | d in r.removed
        ensures d in addrs && Pending(r.queue, d) == []
      {
        if d != addrs[0] || !st.erase {
          assert d in CheckQueueRun(s, st.table, QueueAfter(q, addrs[0], st), broadcast, local, addrs[1..], env).removed;
        }
      }
    }
  }

  /** The loop's result so far followed by the run over the remaining
      destinations. */
  function Continue(done: CheckRun, rest: CheckRun): CheckRun {
    CheckRun(rest.table, rest.queue, done.removed + rest.removed, done.emitted + rest.emitted, done.sent + rest.sent)
  }

  function Erased(st: QueueStep, dst: Addr): set<Addr> {
    if st.erase then {dst} else {}
  }

  /** A destination still holding packets after the loop is still listed
      once the erased destinations are removed from the list. */
  lemma CheckQueueKeepsListed(s: SlsView, m: Table, q: Queue, broadcast: Addr, local: Addr, addrs: seq<Addr>,
                              env: Environment)
    requires forall d :: Pending(q, d) != [] ==> d in addrs
    ensures var r := CheckQueueRun(s, m, q, broadcast, local, addrs, env);
      forall d :: Pending(r.queue, d) != [] ==> d in RemoveAll(addrs, r.removed)
  {
    var r := CheckQueueRun(s, m, q, broadcast, local, addrs, env);
    CheckQueueRunMeaning(s, m, q, broadcast, local, addrs, env);
    RemoveAllMeaning(addrs, r.removed);
  }

  /** One destination of the loop moves from the remaining run into the
      result so far. */
  lemma CheckQueueRunStep(s: SlsView, m: Table, q: Queue, broadcast: Addr, local: Addr, addrs: seq<Addr>,
                          env: Environment, done: CheckRun)
    requires addrs != []
    ensures var st := SendFromQueueSpec(s, m, q, broadcast, local, addrs[0], env);
      Continue(done, CheckQueueRun(s, m, q, broadcast, local, addrs, env))
        == Continue(CheckRun(st.table, QueueAfter(q, addrs[0], st),
                             done.removed + Erased(st, addrs[0]),
                             done.emitted + st.emitted, done.sent + st.sent),
                    CheckQueueRun(s, st.table, QueueAfter(q, addrs[0], st), broadcast, local, addrs[1..], env))
  {
    var st := SendFromQueueSpec(s, m, q, broadcast, local, addrs[0], env);
    var rest := CheckQueueRun(s, st.table, QueueAfter(q, addrs[0], st), broadcast, local, addrs[1..], env);
    assert CheckQueueRun(s, m, q, broadcast, local, addrs, env)
      == CheckRun(rest.table, rest.queue, Erased(st, addrs[0]) + rest.removed,
                  st.emitted + rest.emitted, st.sent + rest.sent);
    ContinueShift(done, st.table, QueueAfter(q, addrs[0], st), Erased(st, addrs[0]), st.emitted, st.sent, rest);
  }

  /** `CheckQueueRunStep` at position `i` of the list. */
  lemma CheckQueueLoopStep(s: SlsView, m: Table, q: Queue, broadcast: Addr, local: Addr, addrs: seq<Addr>, i: nat,
                           env: Environment, done: CheckRun)
    requires i < |addrs|
    ensures var st := SendFromQueueSpec(s, m, q, broadcast, local, addrs[i], env);
      Continue(done, CheckQueueRun(s, m, q, broadcast, local, addrs[i..], env))
        == Continue(CheckRun(st.table, QueueAfter(q, addrs[i], st),
                             done.removed + (if st.erase then {addrs[i]} else {}),
                             done.emitted + st.emitted, done.sent + st.sent),
                    CheckQueueRun(s, st.table, QueueAfter(q, addrs[i], st), broadcast, local, addrs[i + 1..], env))
  {
    assert addrs[i..][0] == addrs[i] && addrs[i..][1..] == addrs[i + 1..];
    CheckQueueRunStep(s, m, q, broadcast, local, addrs[i..], env, done);
  }

  /** Moving one step's output from the remaining run into the result so
      far leaves the combined result unchanged. */
  lemma ContinueShift(done: CheckRun, table: Table, queue: Queue, removed: set<Addr>, emitted: seq<Emission>,
                      sent: seq<SlsSend>, rest: CheckRun)
    ensures Continue(done, CheckRun(rest.table, rest.queue, removed + rest.removed, emitted + rest.emitted, sent + rest.sent))
         == Continue(CheckRun(table, queue, done.removed + removed, done.emitted + emitted, done.sent + sent), rest)
  {
    assert done.emitted + (emitted + rest.emitted) == (done.emitted + emitted) + rest.emitted;
    assert done.sent + (sent + rest.sent) == (done.sent + sent) + rest.sent;
  }

  // ---------------------------------------------------------------------
  // Forwarding
  // ---------------------------------------------------------------------

  /** `(uint32_t) t.GetSeconds ()` of a time in nanoseconds. */
  function WholeSeconds(t: int): uint32 {
    Wrap32(TruncDiv(t, NanosPerSecond))
  }

  /** What `Forwarding` returns, the hop it took and the location
      service's state and messages afterwards. */
  datatype Forwarded = Forwarded(accepted: bool, hop: Hop, table: Table, sent: seq<SlsSend>)

  /** `Forwarding`: an invalid type is refused; a packet that stays in
      recovery goes to `RecoveryMode`; otherwise the destination position
      is refreshed from the location service when its entry is newer than
      the header's `updated` (x and y from two separate lookups) and the
      greedy step decides. */
  function ForwardingSpec(s: SlsView, m: Table, p: DataPacket, env: Environment): Forwarded {
    if !p.th.valid then Forwarded(false, Drop, m, [])
    else
      var own := env.ownPosition;
      var dst := p.destination;
      var h := ExitRecovery(Fields(p.th, p.hdr), MyPosition(own));
      if h.inRec != 0 then
        Forwarded(true, RecoveryMode(p.th, h, own, env.godPredict(dst), env.neighbors), m, [])
      else
        var myUpdated := WholeSeconds(UpdateTimeOf(m, dst));
        if myUpdated > h.updated then
          var first := GetPositionSpec(m, s.mobile, s.local, s.rsu, s.posRsu, dst, env.now);
          var second := GetPositionSpec(first.table, s.mobile, s.local, s.rsu, s.posRsu, dst, env.now);
          var position := Vector(first.position.x, second.position.y, 0);
          Forwarded(true, GreedyStep(p.th, h, position, myUpdated, dst, own, env.godPredict(dst), env.neighbors),
                    second.table, first.sent + second.sent)
        else
          Forwarded(true, GreedyStep(p.th, h, DstOf(h), h.updated, dst, own, env.godPredict(dst), env.neighbors), m, [])
  }

  /** A header no newer than the node's entry is routed on its own
      position and leaves the location service alone; a packet still in
      recovery does too. */
  lemma ForwardingWithoutLookup(s: SlsView, m: Table, p: DataPacket, env: Environment)
    requires p.th.valid && p.th.msgType == GpsrPos
    requires p.hdr.inRec == 0 && WholeSeconds(UpdateTimeOf(m, p.destination)) <= p.hdr.updated
    ensures var f := ForwardingSpec(s, m, p, env);
      && f.accepted && f.table == m && f.sent == []
      && f.hop == GreedyStep(p.th, p.hdr, DstOf(p.hdr), p.hdr.updated, p.destination, env.ownPosition,
                             env.godPredict(p.destination), env.neighbors)
  {
  }

  /** A node whose entry for the destination is newer than the header's
      `updated` looks the destination up twice (x from the first answer, y
      from the second) and routes greedily on that position, carrying its
      own update time; if greedy fails, recovery starts from the header as
      received, so the refreshed position is not carried. */
  lemma ForwardingWithLookup(s: SlsView, m: Table, p: DataPacket, env: Environment)
    requires p.th.valid && p.th.msgType == GpsrPos
    requires p.hdr.inRec == 0 && WholeSeconds(UpdateTimeOf(m, p.destination)) > p.hdr.updated
    ensures var f := ForwardingSpec(s, m, p, env);
      var dst, own := p.destination, env.ownPosition;
      var first := GetPositionSpec(m, s.mobile, s.local, s.rsu, s.posRsu, dst, env.now);
      var second := GetPositionSpec(first.table, s.mobile, s.local, s.rsu, s.posRsu, dst, env.now);
      var position := Vector(first.position.x, second.position.y, 0);
      var next := GreedyNext(position, dst, own, env.neighbors);
      && f.accepted && f.table == second.table && f.sent == first.sent + second.sent
      && (next != ZeroAddr ==>
            f.hop == Hop(next, PositionHeader(Wrap64(first.position.x), Wrap64(second.position.y),
                                              WholeSeconds(UpdateTimeOf(m, dst)), 0, 0, 0, Wrap64(own.x), Wrap64(own.y))))
      && (next == ZeroAddr ==>
            && (f.hop.Drop? <==> env.neighbors.bestAngle(env.godPredict(dst), RecoveryPosition(own)) == ZeroAddr)
            && (f.hop.Hop? ==> f.hop.nextHop == env.neighbors.bestAngle(env.godPredict(dst), RecoveryPosition(own)))
            && (f.hop.Hop? ==> f.hop.hdr == PositionHeader(p.hdr.dstPosx, p.hdr.dstPosy, p.hdr.updated,
                                                          Wrap64(own.x), Wrap64(own.y), 1, Wrap64(own.x), Wrap64(own.y))))
  {
    var dst, own := p.destination, env.ownPosition;
    var first := GetPositionSpec(m, s.mobile, s.local, s.rsu, s.posRsu, dst, env.now);
    var second := GetPositionSpec(first.table, s.mobile, s.local, s.rsu, s.posRsu, dst, env.now);
    var position := Vector(first.position.x, second.position.y, 0);
    var myUpdated := WholeSeconds(UpdateTimeOf(m, dst));
    assert ExitRecovery(Fields(p.th, p.hdr), MyPosition(own)) == p.hdr;
    if GreedyNext(position, dst, own, env.neighbors) != ZeroAddr {
      GreedySuccess(p.th, p.hdr, position, myUpdated, dst, own, env.godPredict(dst), env.neighbors);
    } else {
      assert p.th == TypeHeader(GpsrPos, true);
      GreedyFailureEntersRecovery(p.hdr, position, myUpdated, dst, own, env.godPredict(dst), env.neighbors);
    }
  }

  /** A packet in recovery that is no closer to the destination than its
      entry point goes straight to `RecoveryMode` with its header as
      received: no lookup, still flagged, same entry point. */
  lemma ForwardingInRecovery(s: SlsView, m: Table, p: DataPacket, env: Environment)
    requires p.th.valid && p.th.msgType == GpsrPos && p.hdr.inRec == 1
    requires Dist2(MyPosition(env.ownPosition), DstOf(p.hdr)) >= Dist2(RecOf(p.hdr), DstOf(p.hdr))
    ensures var f := ForwardingSpec(s, m, p, env);
      && f.accepted && f.table == m && f.sent == []
      && f.hop == RecoveryMode(p.th, p.hdr, env.ownPosition, env.godPredict(p.destination), env.neighbors)
      && (f.hop.Hop? ==> f.hop.hdr.inRec == 1 && f.hop.hdr.recPosx == p.hdr.recPosx && f.hop.hdr.recPosy == p.hdr.recPosy)
  {
  }

  /** Only an invalid type makes `Forwarding` refuse a packet. */
  lemma ForwardingRefusesOnlyInvalid(s: SlsView, m: Table, p: DataPacket, env: Environment)
    ensures !ForwardingSpec(s, m, p, env).accepted <==> !p.th.valid
    ensures !p.th.valid ==> ForwardingSpec(s, m, p, env).table == m
  {
  }

  // ---------------------------------------------------------------------
  // RouteOutput
  // ---------------------------------------------------------------------

  /** A route, or the loopback route that defers the packet to the
      queue. */
  datatype RouteDecision = Deferred | Route(gateway: Addr, source: Addr)

  datatype RouteOutcome = RouteOutcome(decision: RouteDecision, table: Table, sent: seq<SlsSend>)

  /** `RouteOutput` with one interface: the destination's position comes
      from the location service unless the packet is a broadcast; the
      packet is deferred when that position is exactly the invalid one and
      a search for it is running, or when no next hop exists; otherwise
      the route goes to the destination if it is a neighbour or the
      broadcast address, else to the greedy neighbour, with the
      placeholder source replaced by the node's address. */
  function RouteOutputSpec(s: SlsView, m: Table, broadcast: Addr, local: Addr, src: Addr, dst: Addr,
                           env: Environment): RouteOutcome
  {
    var l := if dst != broadcast then GetPositionSpec(m, s.mobile, s.local, s.rsu, s.posRsu, dst, env.now)
             else Lookup(m, InvalidPosition, []);
    var unknown := l.position == InvalidPosition && dst != broadcast;
    var a := if unknown then SearchStep(l.table, s.maxSearch, dst, env.now) else Answer(l.table, false, []);
    if a.holds then RouteOutcome(Deferred, a.table, l.sent)
    else
      var next := if env.neighbors.isNeighbour(dst) || dst == broadcast then dst
                  else env.neighbors.bestNeighbor(l.position, MyPosition(env.ownPosition));
      if next != ZeroAddr then
        RouteOutcome(Route(next, if src == DefaultAddr then local else src), a.table, l.sent)
      else RouteOutcome(Deferred, a.table, l.sent)
  }

  /** A broadcast is routed to the broadcast address without touching the
      location service. */
  lemma RouteOutputBroadcast(s: SlsView, m: Table, broadcast: Addr, local: Addr, src: Addr, env: Environment)
    requires broadcast != ZeroAddr
    ensures var o := RouteOutputSpec(s, m, broadcast, local, src, broadcast, env);
      && o.decision == Route(broadcast, if src == DefaultAddr then local else src)
      && o.table == m && o.sent == []
  {
  }

  /** For any node and any destination other than the broadcast address,
      the packet is deferred exactly when the looked-up position is the
      invalid one while a search for the destination is still running, or
      when there is no next hop toward the looked-up position; otherwise it
      is routed to that next hop. An anchor sends nothing. */
  lemma RouteOutputDefers(s: SlsView, m: Table, broadcast: Addr, local: Addr, src: Addr, dst: Addr, env: Environment)
    requires dst != broadcast
    ensures var o := RouteOutputSpec(s, m, broadcast, local, src, dst, env);
      var l := GetPositionSpec(m, s.mobile, s.local, s.rsu, s.posRsu, dst, env.now);
      var searching := l.position == InvalidPosition && dst in l.table && l.table[dst].researchFlag
                       && env.now <= l.table[dst].time + s.maxSearch;
      var next := if env.neighbors.isNeighbour(dst) then dst
                  else env.neighbors.bestNeighbor(l.position, MyPosition(env.ownPosition));
      && (o.decision == Deferred <==> searching || next == ZeroAddr)
      && (o.decision.Route? ==> o.decision == Route(next, if src == DefaultAddr then local else src))
      && o.sent == l.sent
      && (!s.mobile ==> o.sent == [])
  {
    var l := GetPositionSpec(m, s.mobile, s.local, s.rsu, s.posRsu, dst, env.now);
    SearchStepMeaning(l.table, s.maxSearch, dst, env.now);
  }

  /** A mobile node without an entry for the destination never defers on
      the search: the lookup answers its anchor's position, so the packet
      heads toward the anchor, and one query goes out. */
  lemma RouteOutputMobileMiss(s: SlsView, m: Table, broadcast: Addr, local: Addr, src: Addr, dst: Addr, env: Environment)
    requires s.mobile && dst != broadcast && dst != s.rsu && s.posRsu != InvalidPosition
    requires dst !in ExpireStale(m, dst, env.now)
    ensures var o := RouteOutputSpec(s, m, broadcast, local, src, dst, env);
      var next := if env.neighbors.isNeighbour(dst) then dst else env.neighbors.bestNeighbor(s.posRsu, MyPosition(env.ownPosition));
      && o.decision == (if next != ZeroAddr then Route(next, if src == DefaultAddr then local else src) else Deferred)
      && o.sent == [QueryMessage(s.local, s.rsu, dst)]
  {
    GetPositionMiss(m, s.local, s.rsu, s.posRsu, dst, env.now);
  }

  // ---------------------------------------------------------------------
  // RecvGPSR
  // ---------------------------------------------------------------------

  /** A neighbour-table insertion `m_neighbors.AddEntry (addr, position)`. */
  datatype NeighborSample = NeighborSample(addr: Addr, position: Vector)

  datatype Received = Received(table: Table, rsu: Addr, posRsu: Vector, neighbor: Option<NeighborSample>, sent: seq<SlsSend>)

  /** `UpdateRouteToNeighbor`'s location-table part: a mobile node files
      the position under the receiving address (its own), an anchor under
      the sender. */
  function NeighborEntry(s: SlsView, m: Table, sender: Addr, receiver: Addr, position: Vector, speed: int, now: int): Table {
    var id := if s.mobile then receiver else sender;
    SlsAdded(m, s.mobile, s.local, id, position, speed, false, 0, now)
  }

  /** Nothing changes and nothing is sent. */
  function Ignored(s: SlsView, m: Table): Received {
    Received(m, s.rsu, s.posRsu, None, [])
  }

  /** A location hello at a mobile node: a new anchor replaces the bound
      one (and the node's own entry is dropped); either way a location
      update goes back to the sender. */
  function RecvLocHello(s: SlsView, m: Table, payload: seq<uint8>, sender: Addr, receiver: Addr,
                        own: Vector, speed: int): Received {
    if |payload| < LocHelloSize then Ignored(s, m)
    else
      var lh := DeserializeLocHello(payload);
      var update := [LocUpdateMessage(sender, receiver, own, speed)];
      if sender == s.rsu then Received(m, s.rsu, s.posRsu, None, update)
      else Received(m - {s.local}, sender, Vector(lh.nodePosx, lh.nodePosy, 0), None, update)
  }

  /** A location update at an anchor: the sender becomes a neighbour and
      its position and speed (read as a signed `int`) are stored. */
  function RecvLocUpdate(s: SlsView, m: Table, payload: seq<uint8>, sender: Addr, receiver: Addr, now: int): Received {
    if |payload| < LocUpdateSize then Ignored(s, m)
    else
      var lu := DeserializeLocUpdate(payload);
      var position := Vector(lu.originPosx, lu.originPosy, 0);
      var v := Int32Of(lu.speed);
      var m1 := NeighborEntry(s, m, sender, receiver, position, v, now);
      Received(ReceivedUpdate(m1, sender, position, v, now), s.rsu, s.posRsu, Some(NeighborSample(sender, position)), [])
  }

  /** A location query at an anchor, answered by `ReceiveQuery`. */
  function RecvLocQuery(s: SlsView, lifetime: int, m: Table, payload: seq<uint8>, sender: Addr, receiver: Addr,
                        searched: Vector, now: int): Received {
    if |payload| < LocQuerySize then Ignored(s, m)
    else
      var lq := DeserializeLocQuery(payload);
      var h := ReceiveQuerySpec(m, lifetime, sender, receiver, lq.queryId, searched, now);
      Received(h.table, s.rsu, s.posRsu, None, h.sent)
  }

  /** A location reply at a mobile node, stored under the node it answers
      for. */
  function RecvLocReply(s: SlsView, m: Table, payload: seq<uint8>, now: int): Received {
    if |payload| < LocReplySize then Ignored(s, m)
    else
      var lr := DeserializeLocReply(payload);
      Received(ReceivedReply(m, lr.destId, Vector(lr.posx, lr.posy, 0), now), s.rsu, s.posRsu, None, [])
  }

  /** The trailing `else`: the payload is read as a GPSR hello, the sender
      becomes a neighbour, the location table files the position, and an
      anchor answers with a location hello unless it knows the sender's
      speed. */
  function RecvHello(s: SlsView, m: Table, payload: seq<uint8>, sender: Addr, receiver: Addr, own: Vector, now: int): Received {
    if |payload| < HelloSize then Ignored(s, m)
    else
      var hh := DeserializeHello(payload);
      var position := Vector(hh.originPosx, hh.originPosy, 0);
      var m1 := NeighborEntry(s, m, sender, receiver, position, 0, now);
      Received(m1, s.rsu, s.posRsu, Some(NeighborSample(sender, position)),
               if s.mobile then [] else LocHelloMessages(m1, sender, receiver, own))
  }

  /** The branch `handler` of `RecvGPSR` run on `payload`. */
  function RecvBranch(handler: Handler, s: SlsView, lifetime: int, m: Table, payload: seq<uint8>, sender: Addr,
                      receiver: Addr, own: Vector, speed: int, searched: Vector, now: int): Received {
    match handler
    case RebindAndUpdate => RecvLocHello(s, m, payload, sender, receiver, own, speed)
    case StoreUpdate => RecvLocUpdate(s, m, payload, sender, receiver, now)
    case AnswerQuery => RecvLocQuery(s, lifetime, m, payload, sender, receiver, searched, now)
    case StoreReply => RecvLocReply(s, m, payload, now)
    case Ignore => Ignored(s, m)
    case GenericHello => RecvHello(s, m, payload, sender, receiver, own, now)
  }

  /** `RecvGPSR` on a packet from `sender` received on `receiver`: the type
      byte is read (an unknown one is ignored) and the branch `Dispatch`
      names runs on the payload. A payload too short for the header the
      branch reads makes ns-3 abort; here it is ignored. `speed` is the
      node's speed magnitude and `searched` what `RSUSearch` would
      answer. */
  function RecvSpec(s: SlsView, lifetime: int, m: Table, packet: seq<uint8>, sender: Addr, receiver: Addr,
                    own: Vector, speed: int, searched: Vector, now: int): Received
  {
    if |packet| == 0 then Ignored(s, m)
    else
      var th := DeserializeType(NewTypeHeader(GpsrHello), packet[0]);
      if !th.valid then Ignored(s, m)
      else RecvBranch(Dispatch(th.msgType, s.mobile), s, lifetime, m, packet[1..], sender, receiver, own, speed, searched, now)
  }

  /** An encoded message reaches the branch its type and the node's role
      select, with its own payload bytes. */
  lemma RecvOfEncoded(s: SlsView, lifetime: int, m: Table, hd: Header, rest: seq<uint8>, sender: Addr, receiver: Addr,
                      own: Vector, speed: int, searched: Vector, now: int)
    ensures RecvSpec(s, lifetime, m, Encode(hd) + rest, sender, receiver, own, speed, searched, now)
         == RecvBranch(Dispatch(TypeOf(hd), s.mobile), s, lifetime, m, SerializePayload(hd) + rest, sender, receiver,
                       own, speed, searched, now)
  {
    var packet := Encode(hd) + rest;
    EncodeSplit(hd, rest);
    var th := DeserializeType(NewTypeHeader(GpsrHello), packet[0]);
    TypeCodeInjective(th.msgType, TypeOf(hd));
    assert th == TypeHeader(TypeOf(hd), true);
    assert RecvSpec(s, lifetime, m, packet, sender, receiver, own, speed, searched, now)
        == RecvBranch(Dispatch(th.msgType, s.mobile), s, lifetime, m, packet[1..], sender, receiver, own, speed, searched, now);
  }

  /** A hello from a mobile node at an anchor: the node becomes a
      neighbour, gets an entry with its position unless it already has one
      (a zero speed never overwrites), and, as its speed is 0, a location
      hello goes back to it. */
  lemma RecvHelloAtAnchor(s: SlsView, lifetime: int, m: Table, h: HelloHeader, rest: seq<uint8>, sender: Addr, receiver: Addr,
                          own: Vector, speed: int, searched: Vector, now: int)
    requires !s.mobile
    requires sender !in m || m[sender].speed == 0
    ensures var r := RecvSpec(s, lifetime, m, Encode(HelloMsg(h)) + rest, sender, receiver, own, speed, searched, now);
      var position := Vector(h.originPosx, h.originPosy, 0);
      && r.neighbor == Some(NeighborSample(sender, position))
      && r.table == (if sender in m then m else m[sender := MapEntry(position, now, 0, false, 0)])
      && r.sent == [SlsSend(sender, LocHelloMsg(LocHelloHeader(receiver, Wrap64(own.x), Wrap64(own.y))))]
  {
    RecvOfEncoded(s, lifetime, m, HelloMsg(h), rest, sender, receiver, own, speed, searched, now);
    HelloRoundTrip(h, rest);
  }

  /** A mobile node files a hello's position under its own address, not
      the sender's, and answers nothing. */
  lemma RecvHelloAtMobile(s: SlsView, lifetime: int, m: Table, h: HelloHeader, rest: seq<uint8>, sender: Addr,
                          own: Vector, speed: int, searched: Vector, now: int)
    requires s.mobile
    ensures var r := RecvSpec(s, lifetime, m, Encode(HelloMsg(h)) + rest, sender, s.local, own, speed, searched, now);
      && r.neighbor == Some(NeighborSample(sender, Vector(h.originPosx, h.originPosy, 0)))
      && r.table == m[s.local := MapEntry(Vector(h.originPosx, h.originPosy, 0), now, 0, false, 0)]
      && r.sent == []
  {
    RecvOfEncoded(s, lifetime, m, HelloMsg(h), rest, sender, s.local, own, speed, searched, now);
    HelloRoundTrip(h, rest);
    SlsAddedByRole(m, true, s.local, s.local, Vector(h.originPosx, h.originPosy, 0), 0, false, 0, now);
  }

  /** A location hello from a new anchor rebinds a mobile node: its own
      entry is dropped, the anchor and its position are recorded, and a
      location update goes back; from the current anchor only the update
      is sent. */
  lemma RecvLocHelloAtMobile(s: SlsView, lifetime: int, m: Table, h: LocHelloHeader, rest: seq<uint8>, sender: Addr, receiver: Addr,
                             own: Vector, speed: int, searched: Vector, now: int)
    requires s.mobile
    ensures var r := RecvSpec(s, lifetime, m, Encode(LocHelloMsg(h)) + rest, sender, receiver, own, speed, searched, now);
      && r.sent == [LocUpdateMessage(sender, receiver, own, speed)]
      && r.neighbor == None
      && (sender == s.rsu ==> r.table == m && r.rsu == s.rsu && r.posRsu == s.posRsu)
      && (sender != s.rsu ==> r.table == m - {s.local} && r.rsu == sender && r.posRsu == Vector(h.nodePosx, h.nodePosy, 0))
  {
    RecvOfEncoded(s, lifetime, m, LocHelloMsg(h), rest, sender, receiver, own, speed, searched, now);
    LocHelloRoundTrip(h, rest);
  }

  /** An anchor stores a location update with the sender's speed (read as
      a signed int) and a sequence number of 1. */
  lemma RecvLocUpdateAtAnchor(s: SlsView, lifetime: int, m: Table, h: LocUpdateHeader, rest: seq<uint8>, sender: Addr, receiver: Addr,
                              own: Vector, speed: int, searched: Vector, now: int)
    requires !s.mobile && h.speed != 0 && h.speed < 0x8000_0000
    ensures var r := RecvSpec(s, lifetime, m, Encode(LocUpdateMsg(h)) + rest, sender, receiver, own, speed, searched, now);
      && r.table == m[sender := MapEntry(Vector(h.originPosx, h.originPosy, 0), now, h.speed, false, 1)]
      && r.neighbor == Some(NeighborSample(sender, Vector(h.originPosx, h.originPosy, 0)))
      && r.sent == []
  {
    RecvOfEncoded(s, lifetime, m, LocUpdateMsg(h), rest, sender, receiver, own, speed, searched, now);
    LocUpdateRoundTrip(h, rest);
  }

  /** A byte that names no message type changes nothing. */
  lemma RecvUnknownType(s: SlsView, lifetime: int, m: Table, packet: seq<uint8>, sender: Addr, receiver: Addr,
                        own: Vector, speed: int, searched: Vector, now: int)
    requires |packet| > 0 && (packet[0] == 0 || packet[0] > 6)
    ensures RecvSpec(s, lifetime, m, packet, sender, receiver, own, speed, searched, now)
      == Received(m, s.rsu, s.posRsu, None, [])
  {
  }

  // ---------------------------------------------------------------------
  // The protocol object
  // ---------------------------------------------------------------------

  class RoutingProtocol {
    /** `m_locationService` */
    const ls: SlsLocationService
    /** The address and broadcast address of interface 1. */
    const localAddr: Addr
    const broadcastAddr: Addr
    /** `m_queue` */
    var queue: Queue
    /** `m_queuedAddresses`: destinations the queue check walks. */
    var queuedAddresses: seq<Addr>
    /** When `CheckQueueTimer` fires, if it is armed. */
    var checkQueueAt: Option<int>
    /** When `HelloIntervalTimer` fires, if it is armed. */
    var helloAt: Option<int>

    /** No packet is stranded: every destination with a waiting packet is
        listed, and the check timer is armed while anything waits. */
    ghost predicate Valid()
      reads this
    {
      && (forall d :: Pending(queue, d) != [] ==> d in queuedAddresses)
      && (!QueueEmpty(queue) ==> checkQueueAt.Some?)
    }

    function View(): SlsView
      reads ls
    {
      SlsView(ls.isMobile, ls.localAddr, ls.rsu, ls.posRsu, ls.maxSearchTime)
    }

    /** The constructor and `Start`: an empty queue and list, no check
        pending, the first hello at `firstJitter`. */
    constructor(service: SlsLocationService, local: Addr, broadcast: Addr, firstJitter: int)
      requires 0 <= firstJitter <= MaxJitter
      ensures Valid()
      ensures ls == service && localAddr == local && broadcastAddr == broadcast
      ensures queue == map[] && queuedAddresses == [] && checkQueueAt == None && helloAt == Some(firstJitter)
    {
      ls := service;
      localAddr := local;
      broadcastAddr := broadcast;
      queue := map[];
      queuedAddresses := [];
      checkQueueAt := None;
      helloAt := Some(firstJitter);
    }

    /** `HelloTimerExpire` at `now`: an anchor stays silent and its timer
        stays off; any other node broadcasts a hello and re-arms after one
        interval plus jitter. */
    method HelloTimerExpire(own: Vector, now: int, jitter: int) returns (hello: Option<HelloHeader>)
      requires -MaxJitter <= jitter <= MaxJitter
      modifies this
      ensures hello == Routing.HelloTimerExpire(localAddr, own)
      ensures helloAt == if hello.Some? then Some(now + HelloInterval + jitter) else None
      ensures queue == old(queue) && queuedAddresses == old(queuedAddresses) && checkQueueAt == old(checkQueueAt)
    {
      if IsFixedAnchor(localAddr) {
        hello := None;
        helloAt := None;
      } else {
        hello := Some(HelloHeader(Wrap64(own.x), Wrap64(own.y)));
        helloAt := Some(now + HelloInterval + jitter);
      }
    }

    /** `m_queue.Dequeue (dst, entry)`: the oldest packet for `dst`. */
    method Dequeue(dst: Addr) returns (e: Option<DataPacket>)
      modifies this
      ensures old(Pending(queue, dst)) == [] ==> e == None && queue == old(queue)
      ensures old(Pending(queue, dst)) != [] ==>
        e == Some(old(Pending(queue, dst))[0]) && queue == Dequeued(old(queue), dst, 1)
      ensures queuedAddresses == old(queuedAddresses) && checkQueueAt == old(checkQueueAt) && helloAt == old(helloAt)
    {
      if Pending(queue, dst) == [] {
        return None;
      }
      e := Some(queue[dst][0]);
      queue := queue[dst := queue[dst][1..]];
    }

    /** `DeferredRouteOutput`: arms the check timer if the queue was
        empty, enqueues the packet when the queue accepts it (`accepted`
        is `Enqueue`'s answer) and puts the destination at the front of
        the list, merging adjacent repeats. */
    method DeferredRouteOutput(p: DataPacket, accepted: bool, now: int)
      requires Valid()
      modifies this
      ensures Valid()
      ensures queue == if accepted then Enqueued(old(queue), p) else old(queue)
      ensures queuedAddresses == Unique([p.destination] + old(queuedAddresses))
      ensures checkQueueAt == if QueueEmpty(old(queue)) then Some(now + CheckQueueInterval) else old(checkQueueAt)
      ensures helloAt == old(helloAt)
    {
      if QueueEmpty(queue) {
        checkQueueAt := Some(now + CheckQueueInterval);
      }
      DeferredKeepsListed(queue, queuedAddresses, p, accepted);
      if accepted {
        queue := Enqueued(queue, p);
      }
      queuedAddresses := Unique([p.destination] + queuedAddresses);
    }

    /** `SendPacketFromQueue (dst)`. */
    method SendPacketFromQueue(dst: Addr, env: Environment) returns (erase: bool, emitted: seq<Emission>, sent: seq<SlsSend>)
      modifies this, ls.table
      ensures var st := SendFromQueueSpec(View(), old(ls.table.table), old(queue), broadcastAddr, localAddr, dst, env);
        && erase == st.erase && emitted == st.emitted && sent == st.sent
        && ls.table.table == st.table && queue == QueueAfter(old(queue), dst, st)
      ensures queuedAddresses == old(queuedAddresses) && checkQueueAt == old(checkQueueAt) && helloAt == old(helloAt)
      ensures ls.table.entryLifeTime == old(ls.table.entryLifeTime)
    {
      ghost var q0 := queue;
      var pending := Pending(queue, dst);
      if dst == broadcastAddr {
        emitted := FlushBroadcast(dst);
        return true, emitted, [];
      }
      var searching := ls.IsInSearch(dst, env.now);
      if searching {
        return false, [], [];
      }
      var has, sent1 := ls.HasPosition(dst, env.now);
      if !has {
        queue := Dequeued(queue, dst, |pending|);
        return true, [], sent1;
      }
      var myPos := MyPosition(env.ownPosition);
      var nextHop: Addr;
      sent := sent1;
      if env.neighbors.isNeighbour(dst) {
        nextHop := dst;
      } else {
        var dstPos, sent2 := ls.GetPosition(dst, env.now);
        sent := sent + sent2;
        nextHop := env.neighbors.bestNeighbor(dstPos, myPos);
        if nextHop == ZeroAddr {
          erase, emitted := FlushRecovery(dst, env);
          return;
        }
      }
      emitted := FlushGreedy(dst, nextHop);
      erase := true;
    }

    /** The broadcast loop of `SendPacketFromQueue`. */
    method FlushBroadcast(dst: Addr) returns (emitted: seq<Emission>)
      modifies this
      ensures emitted == BroadcastAll(old(Pending(queue, dst)))
      ensures queue == Dequeued(old(queue), dst, |old(Pending(queue, dst))|)
      ensures queuedAddresses == old(queuedAddresses) && checkQueueAt == old(checkQueueAt) && helloAt == old(helloAt)
    {
      ghost var q0 := queue;
      ghost var pending := Pending(queue, dst);
      ghost var k := 0;
      emitted := [];
      while true
        invariant 0 <= k <= |pending|
        invariant queue == Dequeued(q0, dst, k) && Pending(queue, dst) == pending[k..]
        invariant emitted == BroadcastAll(pending[..k])
        invariant queuedAddresses == old(queuedAddresses) && checkQueueAt == old(checkQueueAt) && helloAt == old(helloAt)
        decreases |Pending(queue, dst)|
      {
        var e := Dequeue(dst);
        if e.None? {
          assert pending[..k] == pending;
          break;
        }
        assert pending[..k + 1][..k] == pending[..k];
        emitted := emitted + [Broadcast(e.value)];
        k := k + 1;
      }
    }

    /** The greedy loop of `SendPacketFromQueue`. */
    method FlushGreedy(dst: Addr, nextHop: Addr) returns (emitted: seq<Emission>)
      modifies this
      ensures emitted == UnicastAll(old(Pending(queue, dst)), nextHop, localAddr)
      ensures queue == Dequeued(old(queue), dst, |old(Pending(queue, dst))|)
      ensures queuedAddresses == old(queuedAddresses) && checkQueueAt == old(checkQueueAt) && helloAt == old(helloAt)
    {
      ghost var q0 := queue;
      ghost var pending := Pending(queue, dst);
      ghost var k := 0;
      emitted := [];
      while true
        invariant 0 <= k <= |pending|
        invariant queue == Dequeued(q0, dst, k) && Pending(queue, dst) == pending[k..]
        invariant emitted == UnicastAll(pending[..k], nextHop, localAddr)
        invariant queuedAddresses == old(queuedAddresses) && checkQueueAt == old(checkQueueAt) && helloAt == old(helloAt)
        decreases |Pending(queue, dst)|
      {
        var e := Dequeue(dst);
        if e.None? {
          assert pending[..k] == pending;
          break;
        }
        var p := e.value;
        var src := if p.source == DefaultAddr then localAddr else p.source;
        assert pending[..k + 1][..k] == pending[..k];
        emitted := emitted + [Unicast(nextHop, src, p.(source := src))];
        k := k + 1;
      }
    }

    /** The recovery loop of `SendPacketFromQueue`. */
    method FlushRecovery(dst: Addr, env: Environment) returns (erase: bool, emitted: seq<Emission>)
      modifies this
      ensures var r := QueueRecovery(old(Pending(queue, dst)), env.ownPosition, env.godPredict(dst), env.neighbors);
        erase == r.erase && emitted == r.emitted && queue == Dequeued(old(queue), dst, r.consumed)
      ensures queuedAddresses == old(queuedAddresses) && checkQueueAt == old(checkQueueAt) && helloAt == old(helloAt)
    {
      ghost var q0 := queue;
      ghost var pending := Pending(queue, dst);
      ghost var full := QueueRecovery(pending, env.ownPosition, env.godPredict(dst), env.neighbors);
      ghost var k := 0;
      emitted := [];
      while true
        invariant 0 <= k <= |pending|
        invariant queue == Dequeued(q0, dst, k) && Pending(queue, dst) == pending[k..]
        invariant var r := QueueRecovery(pending[k..], env.ownPosition, env.godPredict(dst), env.neighbors);
          full == RecoveryRun(r.erase, k + r.consumed, emitted + r.emitted)
        invariant queuedAddresses == old(queuedAddresses) && checkQueueAt == old(checkQueueAt) && helloAt == old(helloAt)
        decreases |Pending(queue, dst)|
      {
        var e := Dequeue(dst);
        if e.None? {
          return true, emitted;
        }
        var p := e.value;
        DequeuedOneMore(q0, dst, k);
        QueueRecoveryAt(pending, k, env.ownPosition, env.godPredict(dst), env.neighbors);
        if !p.th.valid {
          return false, emitted;
        }
        var hop := RecoveryMode(p.th, QueueRecoveryHeader(p.hdr, env.ownPosition), env.ownPosition,
                                env.godPredict(dst), env.neighbors);
        ghost var rest := QueueRecovery(pending[k + 1..], env.ownPosition, env.godPredict(dst), env.neighbors);
        assert emitted + (HopEmission(hop, p) + rest.emitted) == (emitted + HopEmission(hop, p)) + rest.emitted;
        emitted := emitted + HopEmission(hop, p);
        k := k + 1;
      }
    }

    /** `CheckQueue`: tries every listed destination, drops from the list
        those whose packets are gone and re-arms the timer while the list
        is not empty. */
    method CheckQueue(env: Environment) returns (emitted: seq<Emission>, sent: seq<SlsSend>)
      requires Valid()
      modifies this, ls.table
      ensures Valid()
      ensures var r := CheckQueueRun(View(), old(ls.table.table), old(queue), broadcastAddr, localAddr, old(queuedAddresses), env);
        && queuedAddresses == RemoveAll(old(queuedAddresses), r.removed)
        && queue == r.queue && ls.table.table == r.table && emitted == r.emitted && sent == r.sent
      ensures checkQueueAt == if queuedAddresses != [] then Some(env.now + CheckQueueInterval) else None
      ensures helloAt == old(helloAt)
      ensures ls.table.entryLifeTime == old(ls.table.entryLifeTime)
    {
      ghost var q0 := queue;
      ghost var m0 := ls.table.table;
      ghost var view := View();
      var addrs := queuedAddresses;
      ghost var full := CheckQueueRun(view, m0, q0, broadcastAddr, localAddr, addrs, env);
      var gone: set<Addr> := {};
      emitted, sent := [], [];
      var i := 0;
      while i < |addrs|
        invariant 0 <= i <= |addrs|
        invariant View() == view
        invariant queuedAddresses == addrs && helloAt == old(helloAt)
        invariant ls.table.entryLifeTime == old(ls.table.entryLifeTime)
        invariant full == Continue(CheckRun(ls.table.table, queue, gone, emitted, sent),
                                   CheckQueueRun(view, ls.table.table, queue, broadcastAddr, localAddr, addrs[i..], env))
      {
        CheckQueueLoopStep(view, ls.table.table, queue, broadcastAddr, localAddr, addrs, i, env,
                           CheckRun(ls.table.table, queue, gone, emitted, sent));
        var erase, e, s := SendPacketFromQueue(addrs[i], env);
        gone := gone + (if erase then {addrs[i]} else {});
        emitted, sent := emitted + e, sent + s;
        i := i + 1;
      }
      assert addrs[i..] == [];
      assert gone == full.removed && queue == full.queue;
      CheckQueueKeepsListed(view, m0, q0, broadcastAddr, localAddr, addrs, env);
      queuedAddresses := RemoveAll(queuedAddresses, gone);
      checkQueueAt := if queuedAddresses != [] then Some(env.now + CheckQueueInterval) else None;
    }

    /** `UpdateRouteToNeighbor`: the sender becomes a neighbour at
        `position`, and the location service files the position (under
        the receiving address at a mobile node, under the sender at an
        anchor). */
    method UpdateRouteToNeighbor(sender: Addr, receiver: Addr, position: Vector, speed: int, now: int)
      returns (neighbor: NeighborSample)
      modifies ls.table
      ensures neighbor == NeighborSample(sender, position)
      ensures ls.table.table == NeighborEntry(View(), old(ls.table.table), sender, receiver, position, speed, now)
      ensures ls.table.entryLifeTime == old(ls.table.entryLifeTime)
    {
      neighbor := NeighborSample(sender, position);
      if ls.isMobile {
        ls.AddEntry(receiver, position, speed, false, 0, now);
      } else {
        ls.AddEntry(sender, position, speed, false, 0, now);
      }
    }

    /** `Forwarding` of a data packet that is not for this node. */
    method Forwarding(p: DataPacket, env: Environment) returns (accepted: bool, hop: Hop, sent: seq<SlsSend>)
      modifies ls.table
      ensures var f := ForwardingSpec(View(), old(ls.table.table), p, env);
        accepted == f.accepted && hop == f.hop && sent == f.sent && ls.table.table == f.table
      ensures ls.table.entryLifeTime == old(ls.table.entryLifeTime)
    {
      if !p.th.valid {
        return false, Drop, [];
      }
      var own := env.ownPosition;
      var dst := p.destination;
      var hdr := Fields(p.th, p.hdr);
      var myPos := MyPosition(own);
      if hdr.inRec == 1 && Dist2(myPos, DstOf(hdr)) < Dist2(RecOf(hdr), DstOf(hdr)) {
        hdr := hdr.(inRec := 0);
      }
      if hdr.inRec != 0 {
        return true, RecoveryMode(p.th, hdr, own, env.godPredict(dst), env.neighbors), [];
      }
      var position := DstOf(hdr);
      var updated := hdr.updated;
      var entryTime := ls.GetEntryUpdateTime(dst);
      var myUpdated := WholeSeconds(entryTime);
      sent := [];
      if myUpdated > updated {
        var first, sent1 := ls.GetPosition(dst, env.now);
        var second, sent2 := ls.GetPosition(dst, env.now);
        position := Vector(first.x, second.y, 0);
        updated := myUpdated;
        sent := sent1 + sent2;
      }
      accepted := true;
      hop := GreedyStep(p.th, hdr, position, updated, dst, own, env.godPredict(dst), env.neighbors);
    }

    /** `RouteOutput` for a packet from `src` to `dst`. */
    method RouteOutput(src: Addr, dst: Addr, env: Environment) returns (decision: RouteDecision, sent: seq<SlsSend>)
      modifies ls.table
      ensures var o := RouteOutputSpec(View(), old(ls.table.table), broadcastAddr, localAddr, src, dst, env);
        decision == o.decision && sent == o.sent && ls.table.table == o.table
      ensures ls.table.entryLifeTime == old(ls.table.entryLifeTime)
    {
      var dstPos := InvalidPosition;
      sent := [];
      if dst != broadcastAddr {
        dstPos, sent := ls.GetPosition(dst, env.now);
      }
      if dstPos == InvalidPosition && dst != broadcastAddr {
        var searching := ls.IsInSearch(dst, env.now);
        if searching {
          return Deferred, sent;
        }
      }
      var nextHop: Addr;
      if env.neighbors.isNeighbour(dst) || dst == broadcastAddr {
        nextHop := dst;
      } else {
        nextHop := env.neighbors.bestNeighbor(dstPos, MyPosition(env.ownPosition));
      }
      if nextHop != ZeroAddr {
        decision := Route(nextHop, if src == DefaultAddr then localAddr else src);
      } else {
        decision := Deferred;
      }
    }

    /** `RecvGPSR` on one control packet. */
    method RecvGPSR(packet: seq<uint8>, sender: Addr, receiver: Addr, own: Vector, speed: int, searched: Vector, now: int)
      returns (neighbor: Option<NeighborSample>, sent: seq<SlsSend>)
      modifies ls, ls.table
      ensures var r := RecvSpec(old(View()), old(ls.table.entryLifeTime), old(ls.table.table), packet, sender, receiver,
                                own, speed, searched, now);
        && ls.table.table == r.table && ls.rsu == r.rsu && ls.posRsu == r.posRsu
        && neighbor == r.neighbor && sent == r.sent
      ensures ls.isMobile == old(ls.isMobile) && ls.maxSearchTime == old(ls.maxSearchTime)
      ensures ls.table.entryLifeTime == old(ls.table.entryLifeTime)
    {
      neighbor, sent := None, [];
      if |packet| == 0 {
        return;
      }
      var th := DeserializeType(NewTypeHeader(GpsrHello), packet[0]);
      var payload := packet[1..];
      if !th.valid {
        return;
      }
      match Dispatch(th.msgType, ls.isMobile)
      case RebindAndUpdate =>
        if |payload| >= LocHelloSize {
          var lh := DeserializeLocHello(payload);
          var position := Vector(lh.nodePosx, lh.nodePosy, 0);
          if sender != ls.rsu {
            ls.DeleteEntry(ls.localAddr);
            ls.SetMRsu(sender);
            ls.SetMPosRsu(position);
          }
          sent := [LocUpdateMessage(sender, receiver, own, speed)];
        }
      case StoreUpdate =>
        if |payload| >= LocUpdateSize {
          var lu := DeserializeLocUpdate(payload);
          var position := Vector(lu.originPosx, lu.originPosy, 0);
          var v := Int32Of(lu.speed);
          var n := UpdateRouteToNeighbor(sender, receiver, position, v, now);
          neighbor := Some(n);
          ls.ReceiveUpdate(sender, position, v, now);
        }
      case AnswerQuery =>
        if |payload| >= LocQuerySize {
          var lq := DeserializeLocQuery(payload);
          sent := ls.ReceiveQuery(sender, receiver, lq.queryId, searched, now);
        }
      case StoreReply =>
        if |payload| >= LocReplySize {
          var lr := DeserializeLocReply(payload);
          ls.ReceiveReply(lr.destId, Vector(lr.posx, lr.posy, 0), now);
        }
      case Ignore =>
      case GenericHello =>
        if |payload| >= HelloSize {
          var hh := DeserializeHello(payload);
          var position := Vector(hh.originPosx, hh.originPosy, 0);
          var n := UpdateRouteToNeighbor(sender, receiver, position, 0, now);
          neighbor := Some(n);
          if !ls.isMobile {
            sent := ls.SendLocHello(sender, receiver, own);
          }
        }
    }
  }
}
