/**
 The CPU times of the previous scan: two open-addressed tables with linear probing that
 change roles at every scan.
 */
module ProcessHistory {
  const HIST_SIZE: nat := 16384

  /** A slot; pid 0 marks a free one. */
  datatype Hist = Hist(pid: nat, time: nat)

  // ---------- linear probing ----------

  /** Slot number `k` on the way of `pid`. */
  function Way(pid: nat, k: nat): (a: nat)
    ensures a < HIST_SIZE
  {
    (pid + k) % HIST_SIZE
  }

  lemma NextWay(pid: nat, k: nat)
    ensures Way(pid, k + 1) == (Way(pid, k) + 1) % HIST_SIZE && Way(pid, 0) == pid % HIST_SIZE
    ensures 0 < k < HIST_SIZE ==> Way(pid, k) != Way(pid, 0)
    ensures k == HIST_SIZE ==> Way(pid, k) == Way(pid, 0)
  {
  }

  /** Every slot lies on every way. */
  lemma WayTo(pid: nat, a: nat) returns (k: nat)
    requires a < HIST_SIZE
    ensures k < HIST_SIZE && Way(pid, k) == a
  {
    var s := pid % HIST_SIZE;
    k := if a >= s then a - s else a - s + HIST_SIZE;
  }

  ghost predicate Occupied(t: seq<Hist>, pid: nat, k: nat)
    requires |t| == HIST_SIZE
  {
    forall j :: 0 <= j < k ==> t[Way(pid, j)].pid != 0
  }

  ghost predicate OnWay(t: seq<Hist>, pid: nat, k: nat, a: nat)
    requires |t| == HIST_SIZE
  {
    k < HIST_SIZE && Way(pid, k) == a && Occupied(t, pid, k)
  }

  ghost predicate Stored(t: seq<Hist>, times: map<nat, nat>, a: nat)
    requires |t| == HIST_SIZE && a < HIST_SIZE
  {
    t[a].pid != 0 ==> t[a].pid in times && times[t[a].pid] == t[a].time && exists k: nat :: OnWay(t, t[a].pid, k, a)
  }

  ghost predicate Found(t: seq<Hist>, pid: nat)
    requires |t| == HIST_SIZE
  {
    exists a :: 0 <= a < HIST_SIZE && t[a].pid == pid
  }

  /** The table holds exactly the times in `times`, each of them in one place that can be found. */
  ghost predicate Table(t: seq<Hist>, times: map<nat, nat>)
  {
    && |t| == HIST_SIZE && 0 !in times
    && (forall a :: 0 <= a < HIST_SIZE ==> Stored(t, times, a))
    && (forall pid :: pid in times ==> Found(t, pid))
    && (forall a, b :: 0 <= a < b < HIST_SIZE && t[a].pid != 0 ==> t[a].pid != t[b].pid)
  }

  lemma EmptyTable(t: seq<Hist>)
    requires |t| == HIST_SIZE && forall a :: 0 <= a < HIST_SIZE ==> t[a].pid == 0
    ensures Table(t, map[])
  {
  }

  lemma Passed(t: seq<Hist>, pid: nat, k: nat, l: nat, a: nat)
    requires |t| == HIST_SIZE && a < HIST_SIZE && OnWay(t, t[a].pid, l, a) && t[a].pid != 0
    requires Occupied(t, pid, k) && (k < HIST_SIZE ==> t[Way(pid, k)].pid == 0)
    ensures t[a].pid == pid ==> l < k && Way(pid, l) == a
  {
    hide Way;
  }

  /** A way that ends in a free slot, or comes round, without meeting `pid` shows that it is not there. */
  lemma NotThere(t: seq<Hist>, times: map<nat, nat>, pid: nat, k: nat)
    requires Table(t, times) && pid != 0 && k <= HIST_SIZE && Occupied(t, pid, k)
    requires k < HIST_SIZE ==> t[Way(pid, k)].pid == 0
    requires forall j :: 0 <= j < k ==> t[Way(pid, j)].pid != pid
    ensures pid !in times
  {
    hide Way;
    if pid in times {
      assert Found(t, pid);
      var a :| 0 <= a < HIST_SIZE && t[a].pid == pid;
      assert Stored(t, times, a);
      var l: nat :| OnWay(t, t[a].pid, l, a);
      Passed(t, pid, k, l, a);
    }
  }

  /** A pid that is met stands in the only slot it can have. */
  lemma There(t: seq<Hist>, times: map<nat, nat>, a: nat)
    requires Table(t, times) && a < HIST_SIZE && t[a].pid != 0
    ensures t[a].pid in times && times[t[a].pid] == t[a].time
  {
    assert Stored(t, times, a);
  }

  // ---------- room for one more ----------

  ghost function Pids(t: seq<Hist>, n: nat): set<nat>
    requires n <= |t|
  {
    if n == 0 then {} else Pids(t, n - 1) + {t[n - 1].pid}
  }

  lemma {:induction false} PidSlot(t: seq<Hist>, n: nat, pid: nat) returns (a: nat)
    requires n <= |t| && pid in Pids(t, n)
    ensures a < n && t[a].pid == pid
  {
    if pid == t[n - 1].pid {
      a := n - 1;
    } else {
      a := PidSlot(t, n - 1, pid);
    }
  }

  lemma {:induction false} DistinctPids(t: seq<Hist>, n: nat)
    requires n <= |t| && forall a, b :: 0 <= a < b < n ==> t[a].pid != t[b].pid
    ensures |Pids(t, n)| == n
  {
    if n > 0 {
      DistinctPids(t, n - 1);
      OtherPids(t, n - 1, t[n - 1].pid);
    }
  }

  lemma {:induction false} OtherPids(t: seq<Hist>, n: nat, pid: nat)
    requires n <= |t| && forall a :: 0 <= a < n ==> t[a].pid != pid
    ensures pid !in Pids(t, n)
  {
    if n > 0 {
      OtherPids(t, n - 1, pid);
    }
  }

  lemma {:induction false} Fewer<T>(a: set<T>, b: set<T>)
    requires a <= b
    ensures |a| <= |b|
    decreases |a|
  {
    if a != {} {
      var x :| x in a;
      Fewer(a - {x}, b - {x});
    }
  }

  /** With fewer than 16384 entries a slot is free. */
  lemma FreeSlot(t: seq<Hist>, times: map<nat, nat>) returns (a: nat)
    requires Table(t, times) && |times| < HIST_SIZE
    ensures a < HIST_SIZE && t[a].pid == 0
  {
    if forall b :: 0 <= b < HIST_SIZE ==> t[b].pid != 0 {
      DistinctPids(t, HIST_SIZE);
      forall pid | pid in Pids(t, HIST_SIZE) ensures pid in times.Keys {
        var b := PidSlot(t, HIST_SIZE, pid);
        There(t, times, b);
      }
      Fewer(Pids(t, HIST_SIZE), times.Keys);
    }
    a :| 0 <= a < HIST_SIZE && t[a].pid == 0;
  }

  lemma {:induction false} PidsBound(t: seq<Hist>, n: nat)
    requires n <= |t|
    ensures |Pids(t, n)| <= n && forall a :: 0 <= a < n ==> t[a].pid in Pids(t, n)
  {
    if n > 0 {
      PidsBound(t, n - 1);
    }
  }

  /** A free slot shows that fewer than 16384 entries are stored. */
  lemma RoomLeft(t: seq<Hist>, times: map<nat, nat>, a: nat)
    requires Table(t, times) && a < HIST_SIZE && t[a].pid == 0
    ensures |times| < HIST_SIZE
  {
    PidsBound(t, HIST_SIZE);
    forall pid | pid in times.Keys + {0} ensures pid in Pids(t, HIST_SIZE) {
      if pid in times {
        assert Found(t, pid);
      }
    }
    Fewer(times.Keys + {0}, Pids(t, HIST_SIZE));
    assert |times.Keys + {0}| == |times.Keys| + 1;
  }

  lemma StoreKeeps(t: seq<Hist>, times: map<nat, nat>, pid: nat, time: nat, k: nat)
    requires Table(t, times) && pid != 0 && pid !in times && k < HIST_SIZE && Occupied(t, pid, k) && t[Way(pid, k)].pid == 0
    ensures Table(t[Way(pid, k) := Hist(pid, time)], times[pid := time])
  {
    hide Way;
    var n := Way(pid, k);
    var u, more := t[n := Hist(pid, time)], times[pid := time];
    forall a | 0 <= a < HIST_SIZE ensures Stored(u, more, a) {
      assert Stored(t, times, a);
      if a == n {
        assert OnWay(u, pid, k, n);
      } else if t[a].pid != 0 {
        var l: nat :| OnWay(t, t[a].pid, l, a);
        assert OnWay(u, u[a].pid, l, a);
      }
    }
    forall p | p in more ensures Found(u, p) {
      if p == pid {
        assert u[n].pid == p;
      } else {
        assert Found(t, p);
        var a :| 0 <= a < HIST_SIZE && t[a].pid == p;
        assert u[a].pid == p;
      }
    }
    forall a, b | 0 <= a < b < HIST_SIZE && u[a].pid != 0 ensures u[a].pid != u[b].pid {
      assert Stored(t, times, a) && Stored(t, times, b);
    }
  }

  // ---------- the two tables ----------

  class History {
    var current: array<Hist>
    var previous: array<Hist>
    ghost var now: map<nat, nat>
    ghost var before: map<nat, nat>

    /** `before` has the times of the previous scan, `now` those of this scan so far. */
    ghost predicate Valid()
      reads this, current, previous
    {
      current != previous && Table(current[..], now) && Table(previous[..], before)
    }

    constructor ()
      ensures Valid() && now == before == map[] && fresh(current) && fresh(previous)
    {
      current := new Hist[HIST_SIZE](i => Hist(0, 0));
      previous := new Hist[HIST_SIZE](i => Hist(0, 0));
      now, before := map[], map[];
      new;
      EmptyTable(current[..]);
      EmptyTable(previous[..]);
    }

    /** The tables change roles, and the new current one is cleared. */
    method BeginScan()
      requires Valid()
      modifies this, previous
      ensures Valid() && before == old(now) && now == map[]
      ensures current == old(previous) && previous == old(current)
    {
      hide Table;
      TableSize(previous[..], before);
      current, previous := previous, current;
      now, before := map[], now;
      Clear(current);
      EmptyTable(current[..]);
    }

    /** The time that the previous scan stored for `pid`, or 0. */
    method Lookup(pid: nat) returns (time: nat)
      requires Valid() && pid != 0
      ensures time == if pid in before then before[pid] else 0
    {
      hide Way, Table;
      ghost var t := previous[..];
      TableSize(t, before);
      time := 0;
      var slot := pid % HIST_SIZE;
      var startSlot := slot;
      ghost var k := 0;
      NextWay(pid, 0);
      while previous[slot].pid != 0
        invariant 0 <= k < HIST_SIZE && slot == Way(pid, k) && time == 0 && startSlot == Way(pid, 0)
        invariant Occupied(t, pid, k) && forall j :: 0 <= j < k ==> t[Way(pid, j)].pid != pid
        decreases HIST_SIZE - k
      {
        if previous[slot].pid == pid {
          There(t, before, slot);
          time := previous[slot].time;
          return;
        }
        NextWay(pid, k);
        NextWay(pid, k + 1);
        slot := (slot + 1) % HIST_SIZE;
        k := k + 1;
        if slot == startSlot {
          break;
        }
      }
      NotThere(t, before, pid, k);
    }

    /** Store the time of a process that this scan has not seen yet; a full table silently drops it. */
    method Record(pid: nat, time: nat)
      requires Valid() && pid != 0 && pid !in now
      modifies this`now, current
      ensures Valid() && now == if |old(now)| < HIST_SIZE then old(now)[pid := time] else old(now)
    {
      hide Table, Way;
      ghost var t := current[..];
      TableSize(t, now);
      ghost var k;
      var slot;
      slot, k := FindFree(current, pid, now);
      if current[slot].pid == 0 {
        StoreKeeps(t, now, pid, time, k);
        current[slot] := Hist(pid, time);
        assert current[..] == t[slot := Hist(pid, time)];
        now := now[pid := time];
      }
    }
  }

  /** The search for a free slot; in a full table it comes round to a slot in use. */
  method FindFree(table: array<Hist>, pid: nat, ghost times: map<nat, nat>) returns (slot: nat, ghost k: nat)
    requires Table(table[..], times) && table.Length == HIST_SIZE
    ensures slot < HIST_SIZE && (table[slot].pid == 0 <==> |times| < HIST_SIZE)
    ensures |times| < HIST_SIZE ==> k < HIST_SIZE && slot == Way(pid, k) && Occupied(table[..], pid, k)
  {
    hide Way, Table;
    ghost var t := table[..];
    slot := pid % HIST_SIZE;
    var startSlot := slot;
    k := 0;
    NextWay(pid, 0);
    while table[slot].pid != 0
      invariant 0 <= k < HIST_SIZE && slot == Way(pid, k) && startSlot == Way(pid, 0) && Occupied(t, pid, k)
      decreases HIST_SIZE - k
    {
      NextWay(pid, k);
      NextWay(pid, k + 1);
      slot := (slot + 1) % HIST_SIZE;
      k := k + 1;
      if slot == startSlot {
        break;
      }
    }
    if |times| < HIST_SIZE {
      ghost var free := FreeSlot(t, times);
      ghost var last := WayTo(pid, free);
      assert last >= k;
    }
    if table[slot].pid == 0 {
      RoomLeft(t, times, slot);
    }
  }

  method Clear(table: array<Hist>)
    modifies table
    ensures forall a :: 0 <= a < table.Length ==> table[a].pid == 0
  {
    var i := 0;
    while i < table.Length
      invariant 0 <= i <= table.Length && forall a :: 0 <= a < i ==> table[a].pid == 0
    {
      table[i] := table[i].(pid := 0);
      i := i + 1;
    }
  }

  lemma TableSize(t: seq<Hist>, times: map<nat, nat>)
    requires Table(t, times)
    ensures |t| == HIST_SIZE
  {
  }
}
