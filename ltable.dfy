/** The SLS location table: one entry per node address holding the last
    known position, the time it was stored, the node's speed, whether a
    search for it is running and a one-byte sequence number. The table is
    a `std::map` in the source, so it holds at most one entry per address;
    here it is a Dafny `map`. Simulation time is an input `now`, in
    nanoseconds. */
module LTable {
  import opened Base

  /** `MapEntry`: what the table knows about one node. */
  datatype MapEntry = MapEntry(position: Vector, time: int, speed: int, researchFlag: bool, seqNumber: uint8)

  type Table = map<Addr, MapEntry>

  /** The extra metres `GetPosition` adds to both coordinates of an
      extrapolated position. */
  const Compensation: int := 200

  // ---------------------------------------------------------------------
  // MapEntry setters
  // ---------------------------------------------------------------------

  /** `MapEntry::SetSeqNumber (int)`: the argument lands in a `uint8_t`. */
  function WithSeqNumber(e: MapEntry, num: int): (r: MapEntry)
    ensures r.seqNumber == Wrap8(num)
    ensures 0 <= num < 0x100 ==> r.seqNumber == num
    ensures r.position == e.position && r.time == e.time && r.speed == e.speed
    ensures r.researchFlag == e.researchFlag
  {
    e.(seqNumber := Wrap8(num))
  }

  /** The stored sequence number differs from the requested one by a
      multiple of 256, and two requests that differ by 256 store the same. */
  lemma SeqNumberIsModulo256(e: MapEntry, num: int)
    ensures (WithSeqNumber(e, num).seqNumber - num) % 0x100 == 0
    ensures WithSeqNumber(e, num + 0x100) == WithSeqNumber(e, num)
  {
    assert (num + 0x100) % 0x100 == num % 0x100;
  }

  // ---------------------------------------------------------------------
  // Read-only lookups. An absent id yields the defaults the source returns
  // on a miss (it dereferences `end ()` there; the model checks presence).
  // ---------------------------------------------------------------------

  /** `GetEntryUpdateTime` and `GetTime`: the stored time, or 0. */
  function UpdateTimeOf(m: Table, id: Addr): int {
    if id in m then m[id].time else 0
  }

  function SpeedOf(m: Table, id: Addr): int {
    if id in m then m[id].speed else 0
  }

  function FlagOf(m: Table, id: Addr): bool {
    id in m && m[id].researchFlag
  }

  function SeqOf(m: Table, id: Addr): uint8 {
    if id in m then m[id].seqNumber else 0
  }

  /** `LocationTable::GetPosition`: the caller's `invVec` on a miss; the
      stored position if no time has passed since it was stored; otherwise
      the stored position moved by (whole elapsed seconds * speed) plus a
      fixed compensation, on x and y alike. */
  function PositionOf(m: Table, id: Addr, invVec: Vector, now: int): Vector {
    if id !in m then invVec
    else
      var e := m[id];
      if now > e.time then
        var shift := Narrow32(ElapsedSeconds(e.time, now) * e.speed);
        Vector(e.position.x + shift + Compensation, e.position.y + shift + Compensation, e.position.z)
      else e.position
  }

  /** An extrapolated position is shifted by the same amount on x and y,
      never on z, and by at least the compensation when the speed is not
      negative; a fresh entry is returned as stored. */
  lemma PositionOfShape(m: Table, id: Addr, invVec: Vector, now: int)
    requires id in m
    ensures now <= m[id].time ==> PositionOf(m, id, invVec, now) == m[id].position
    ensures now > m[id].time ==>
      var p, q := PositionOf(m, id, invVec, now), m[id].position;
      && p.x - q.x == p.y - q.y
      && p.z == q.z
      && p.x - q.x == Narrow32(ElapsedSeconds(m[id].time, now) * m[id].speed) + Compensation
      && (m[id].speed >= 0 && ElapsedSeconds(m[id].time, now) * m[id].speed < 0x8000_0000 ==>
            p.x - q.x == ElapsedSeconds(m[id].time, now) * m[id].speed + Compensation >= Compensation)
  {
    var e := m[id];
    if now > e.time && e.speed >= 0 {
      var k := ElapsedSeconds(e.time, now);
      assert k >= 0;
      assert k * e.speed >= 0;
    }
  }

  /** The shift is computed in a 32-bit `int`: a large enough product wraps
      around, and the position moves backwards. */
  lemma ExtrapolationWraps(m: Table, id: Addr, invVec: Vector, now: int)
    requires id in m && m[id].speed == 0x7FFF_FFFF && now == m[id].time + 2 * NanosPerSecond
    ensures PositionOf(m, id, invVec, now).x == m[id].position.x - 2 + Compensation
  {
    assert ElapsedSeconds(m[id].time, now) == 2;
  }

  /** Within the first second after an entry was stored, the extrapolation
      adds the compensation alone. */
  lemma SubSecondAddsOnlyCompensation(m: Table, id: Addr, invVec: Vector, now: int)
    requires id in m && m[id].time < now < m[id].time + NanosPerSecond
    ensures PositionOf(m, id, invVec, now).x == m[id].position.x + Compensation
    ensures PositionOf(m, id, invVec, now).y == m[id].position.y + Compensation
  {
    assert ElapsedSeconds(m[id].time, now) == 0;
  }

  // ---------------------------------------------------------------------
  // Whole-table updates
  // ---------------------------------------------------------------------

  /** `LocationTable::AddEntry`: a new id is inserted with time `now`; an
      existing id is replaced only when the speed is nonzero, because the
      speed-0 branch calls `std::map::insert`, which keeps the old entry. */
  function Added(m: Table, id: Addr, position: Vector, now: int, speed: int, flag: bool, seqNum: uint8): Table {
    if id in m && speed == 0 then m
    else m[id := MapEntry(position, now, speed, flag, seqNum)]
  }

  lemma AddedEntry(m: Table, id: Addr, position: Vector, now: int, speed: int, flag: bool, seqNum: uint8)
    ensures var r := Added(m, id, position, now, speed, flag, seqNum);
      && id in r
      && (id !in m || speed != 0 ==> r[id] == MapEntry(position, now, speed, flag, seqNum))
      && (id in m && speed == 0 ==> r == m)
      && r.Keys == m.Keys + {id}
      && (forall other :: other in m && other != id ==> r[other] == m[other])
  {
  }

  /** After an insertion into a miss, every accessor reports what was stored. */
  lemma AddedThenRead(m: Table, id: Addr, position: Vector, now: int, speed: int, flag: bool, seqNum: uint8, inv: Vector)
    requires id !in m
    ensures var r := Added(m, id, position, now, speed, flag, seqNum);
      && UpdateTimeOf(r, id) == now && SpeedOf(r, id) == speed
      && FlagOf(r, id) == flag && SeqOf(r, id) == seqNum
      && PositionOf(r, id, inv, now) == position
  {
  }

  /** Adding twice with speed 0 is adding once: the second insert finds the
      key and leaves the map alone. */
  lemma AddedZeroSpeedTwice(m: Table, id: Addr, position: Vector, now: int, flag: bool, seqNum: uint8)
    ensures var once := Added(m, id, position, now, 0, flag, seqNum);
      Added(once, id, position, now, 0, flag, seqNum) == once
  {
  }

  /** Entries whose age is below the lifetime are kept unchanged; all
      others are removed. */
  function Purged(m: Table, lifetime: int, now: int): Table {
    map id | id in m && lifetime + m[id].time > now :: m[id]
  }

  lemma PurgedExactly(m: Table, lifetime: int, now: int)
    ensures forall id :: id in Purged(m, lifetime, now) <==> id in m && lifetime + m[id].time > now
    ensures forall id :: id in Purged(m, lifetime, now) ==> Purged(m, lifetime, now)[id] == m[id]
  {
  }

  /** Purging twice at the same instant is purging once, and purging with a
      longer lifetime keeps at least as much. */
  lemma PurgedIdempotentAndMonotone(m: Table, lifetime: int, longer: int, now: int)
    requires lifetime <= longer
    ensures Purged(Purged(m, lifetime, now), lifetime, now) == Purged(m, lifetime, now)
    ensures Purged(m, lifetime, now).Keys <= Purged(m, longer, now).Keys
  {
  }

  /** One entry as `Refresh` rewrites it: its speed becomes the whole
      elapsed seconds times its speed, and only if that product is nonzero
      is it stored again (time `now`); a zero product hits the no-op
      insert of `AddEntry`. */
  function RefreshedEntry(e: MapEntry, now: int): MapEntry {
    var speed2 := Narrow32(ElapsedSeconds(e.time, now) * e.speed);
    if speed2 != 0 then MapEntry(e.position, now, speed2, e.researchFlag, e.seqNumber) else e
  }

  function Refreshed(m: Table, now: int): Table {
    map id | id in m :: RefreshedEntry(m[id], now)
  }

  /** `Refresh` keeps the key set, rewrites exactly the entries whose
      32-bit product of elapsed seconds and speed is non-zero (stamping
      them with `now` and storing that product as the speed), leaves the
      rest untouched, and a second refresh at the same instant changes
      nothing. */
  lemma RefreshedProperties(m: Table, now: int)
    ensures Refreshed(m, now).Keys == m.Keys
    ensures forall id :: id in m ==>
      var k := Narrow32(ElapsedSeconds(m[id].time, now) * m[id].speed);
      && (k == 0 ==> Refreshed(m, now)[id] == m[id])
      && (k != 0 ==> Refreshed(m, now)[id] == m[id].(time := now, speed := k))
    ensures forall id :: id in m && m[id].speed == 0 ==> Refreshed(m, now)[id] == m[id]
    ensures forall id :: id in m && Refreshed(m, now)[id] != m[id] ==> Refreshed(m, now)[id].time == now
    ensures Refreshed(Refreshed(m, now), now) == Refreshed(m, now)
  {
    var r := Refreshed(m, now);
    forall id | id in r
      ensures RefreshedEntry(r[id], now) == r[id]
    {
      var e := m[id];
      if Narrow32(ElapsedSeconds(e.time, now) * e.speed) != 0 {
        assert r[id].time == now;
        assert ElapsedSeconds(now, now) == 0;
      }
    }
  }

  // ---------------------------------------------------------------------
  // The table object
  // ---------------------------------------------------------------------

  class LocationTable {
    /** `m_table` */
    var table: Table
    /** `m_entryLifeTime`, in nanoseconds */
    var entryLifeTime: int

    /** The constructor as evidently intended: the lifetime argument is
        stored (see `LifetimeAsWritten` for the source's self-copy). */
    constructor(lifetime: int)
      ensures table == map[] && entryLifeTime == lifetime
    {
      table := map[];
      entryLifeTime := lifetime;
    }

    method GetEntryUpdateTime(id: Addr) returns (t: int)
      ensures t == UpdateTimeOf(table, id)
    {
      if id in table {
        t := table[id].time;
      } else {
        t := 0;
      }
    }

    /** The source declares this second accessor with the same body as
        `GetEntryUpdateTime`; it is kept because the location service calls
        it. */
    method GetTime(id: Addr) returns (t: int)
      ensures t == UpdateTimeOf(table, id)
    {
      if id in table {
        t := table[id].time;
      } else {
        t := 0;
      }
    }

    method GetSpeed(id: Addr) returns (speed: int)
      ensures speed == SpeedOf(table, id)
    {
      if id in table {
        speed := table[id].speed;
      } else {
        speed := 0;
      }
    }

    method GetResearchFlag(id: Addr) returns (flag: bool)
      ensures flag == FlagOf(table, id)
    {
      if id in table {
        flag := table[id].researchFlag;
      } else {
        flag := false;
      }
    }

    method GetSeqNumber(id: Addr) returns (seqNum: int)
      ensures seqNum == SeqOf(table, id) && 0 <= seqNum < 0x100
    {
      if id in table {
        seqNum := table[id].seqNumber;
      } else {
        seqNum := 0;
      }
    }

    method GetPosition(id: Addr, invVec: Vector, now: int) returns (p: Vector)
      ensures p == PositionOf(table, id, invVec, now)
    {
      if id !in table {
        return invVec;
      }
      var e := table[id];
      if now > e.time {
        var time2 := ElapsedSeconds(e.time, now);
        var speed2 := Narrow32(time2 * e.speed);
        p := Vector(e.position.x + speed2 + Compensation, e.position.y + speed2 + Compensation, e.position.z);
      } else {
        p := e.position;
      }
    }

    method SetTime(id: Addr, time: int)
      modifies this
      ensures id in old(table) ==> table == old(table)[id := old(table)[id].(time := time)]
      ensures id !in old(table) ==> table == old(table)
      ensures entryLifeTime == old(entryLifeTime)
    {
      if id !in table {
        return;
      }
      table := table[id := table[id].(time := time)];
    }

    method SetResearchFlag(id: Addr, value: bool)
      modifies this
      ensures id in old(table) ==> table == old(table)[id := old(table)[id].(researchFlag := value)]
      ensures id !in old(table) ==> table == old(table)
      ensures entryLifeTime == old(entryLifeTime)
    {
      if id !in table {
        return;
      }
      table := table[id := table[id].(researchFlag := value)];
    }

    method SetSeqNumber(id: Addr, num: int)
      modifies this
      ensures id in old(table) ==> table == old(table)[id := WithSeqNumber(old(table)[id], num)]
      ensures id !in old(table) ==> table == old(table)
      ensures entryLifeTime == old(entryLifeTime)
    {
      if id !in table {
        return;
      }
      table := table[id := WithSeqNumber(table[id], num)];
    }

    method AddEntry(id: Addr, position: Vector, speed: int, flag: bool, seqNum: uint8, now: int)
      modifies this
      ensures table == Added(old(table), id, position, now, speed, flag, seqNum)
      ensures entryLifeTime == old(entryLifeTime)
    {
      if id in table {
        if speed != 0 {
          table := table - {id};
          table := table[id := MapEntry(position, now, speed, flag, seqNum)];
        }
        // speed 0: std::map::insert finds the key and stores nothing
        return;
      }
      table := table[id := MapEntry(position, now, speed, flag, seqNum)];
    }

    method DeleteEntry(id: Addr)
      modifies this
      ensures table == old(table) - {id}
      ensures entryLifeTime == old(entryLifeTime)
    {
      table := table - {id};
    }

    method Clear()
      modifies this
      ensures table == map[]
      ensures entryLifeTime == old(entryLifeTime)
    {
      table := map[];
    }

    /** Visits every key once and erases the expired ones. The source
        erases through the iterator it is advancing and then dereferences
        `end ()`; the model removes exactly what that loop means to. */
    method Purge(now: int)
      modifies this
      ensures table == Purged(old(table), entryLifeTime, now)
      ensures entryLifeTime == old(entryLifeTime)
    {
      ghost var start := table;
      var pending := table.Keys;
      while pending != {}
        invariant pending <= start.Keys
        invariant table.Keys <= start.Keys
        invariant forall id :: id in pending ==> id in table
        invariant forall id :: id in table ==> table[id] == start[id]
        invariant forall id :: id in start && id !in pending ==>
                    (id in table <==> entryLifeTime + start[id].time > now)
        invariant entryLifeTime == old(entryLifeTime)
        decreases pending
      {
        var id :| id in pending;
        var updated := table[id].time;
        if entryLifeTime + updated <= now {
          table := table - {id};
        }
        pending := pending - {id};
      }
      assert table.Keys == Purged(start, entryLifeTime, now).Keys;
    }

    /** Re-adds every entry with speed = elapsed seconds * speed, as
        `Refresh` does through `AddEntry`. The source re-inserts into the
        map it is iterating; the model updates each entry once. */
    method Refresh(now: int)
      modifies this
      ensures table == Refreshed(old(table), now)
      ensures entryLifeTime == old(entryLifeTime)
    {
      ghost var start := table;
      var pending := table.Keys;
      while pending != {}
        invariant pending <= start.Keys
        invariant table.Keys == start.Keys
        invariant forall id :: id in pending ==> table[id] == start[id]
        invariant forall id :: id in start && id !in pending ==> table[id] == RefreshedEntry(start[id], now)
        invariant entryLifeTime == old(entryLifeTime)
        decreases pending
      {
        var id :| id in pending;
        var e := table[id];
        var time2 := ElapsedSeconds(e.time, now);
        var speed2 := Narrow32(time2 * e.speed);
        AddEntry(id, e.position, speed2, e.researchFlag, e.seqNumber, now);
        pending := pending - {id};
      }
      assert table.Keys == Refreshed(start, now).Keys;
    }
  }

  // ---------------------------------------------------------------------
  // The source's constructor
  // ---------------------------------------------------------------------

  /** The lifetime the source's constructor stores: its initialiser copies
      `m_entryLifeTime` into itself, so the value is whatever the member
      held before (`indeterminate`), never the `Lifetime` argument. */
  function LifetimeAsWritten(lifetime: int, indeterminate: int): int {
    indeterminate
  }

  /** With the member starting at 0, a table built for a 10 s lifetime
      purges an entry stored one second ago, which the intended table keeps. */
  lemma LifetimeAsWrittenDropsFreshEntries(id: Addr, p: Vector)
    ensures var tenSeconds, now := 10 * NanosPerSecond, 5 * NanosPerSecond;
      var m := map[id := MapEntry(p, now - NanosPerSecond, 0, false, 0)];
      && LifetimeAsWritten(tenSeconds, 0) != tenSeconds
      && id !in Purged(m, LifetimeAsWritten(tenSeconds, 0), now)
      && id in Purged(m, tenSeconds, now)
  {
  }
}
