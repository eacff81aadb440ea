/** The ranking of processes in scan_processes: the best fifteen, kept in place as processes come in. */
module TopList {
  const MAX_TOP_PROCS: nat := 15

  /** A process with the value it is ranked by. */
  datatype Process = Process(key: int, id: int)

  // ---------- stable sorting, largest first ----------

  ghost predicate Descending(l: seq<Process>)
  {
    forall i, j :: 0 <= i < j < |l| ==> l[i].key >= l[j].key
  }

  function WithKey(l: seq<Process>, key: int): seq<Process>
  {
    if l == [] then [] else WithKey(l[..|l| - 1], key) + (if l[|l| - 1].key == key then [l[|l| - 1]] else [])
  }

  /** `l` is `ps` sorted by descending key; equal keys keep their order. */
  ghost predicate StableSortOf(l: seq<Process>, ps: seq<Process>)
  {
    Descending(l) && forall key :: WithKey(l, key) == WithKey(ps, key)
  }

  /** Number of elements that stay in front of a new one with the given key. */
  function Place(l: seq<Process>, key: int): (k: nat)
    ensures k <= |l| && (forall i :: k <= i < |l| ==> l[i].key < key) && (k > 0 ==> l[k - 1].key >= key)
  {
    if l == [] then 0
    else if l[|l| - 1].key < key then Place(l[..|l| - 1], key)
    else |l|
  }

  /** `p` put in front of place `k`. */
  function Spliced(l: seq<Process>, p: Process, k: nat): (r: seq<Process>)
    requires k <= |l|
    ensures |r| == |l| + 1
    ensures forall i :: 0 <= i <= |l| ==> r[i] == if i < k then l[i] else if i == k then p else l[i - 1]
  {
    l[..k] + [p] + l[k..]
  }

  lemma SplicedAt(l: seq<Process>, p: Process, k: nat, i: nat)
    requires k <= |l| && i <= |l|
    ensures Spliced(l, p, k)[i] == if i < k then l[i] else if i == k then p else l[i - 1]
  {
  }

  lemma TakeAt(l: seq<Process>, n: nat, i: nat)
    requires i < |Take(l, n)|
    ensures i < |l| && i < n && Take(l, n)[i] == l[i]
  {
  }

  function Insert(l: seq<Process>, p: Process): (r: seq<Process>)
    ensures |r| == |l| + 1
  {
    Spliced(l, p, Place(l, p.key))
  }

  function Sorted(ps: seq<Process>): (r: seq<Process>)
    ensures |r| == |ps|
  {
    if ps == [] then [] else Insert(Sorted(ps[..|ps| - 1]), ps[|ps| - 1])
  }

  lemma {:induction false} WithKeyConcat(a: seq<Process>, b: seq<Process>, key: int)
    ensures WithKey(a + b, key) == WithKey(a, key) + WithKey(b, key)
  {
    if b == [] {
      assert a + b == a;
    } else {
      assert (a + b)[..|a + b| - 1] == a + b[..|b| - 1];
      WithKeyConcat(a, b[..|b| - 1], key);
    }
  }

  lemma {:induction false} NoneWithKey(l: seq<Process>, key: int)
    requires forall i :: 0 <= i < |l| ==> l[i].key != key
    ensures WithKey(l, key) == []
  {
    if l != [] {
      NoneWithKey(l[..|l| - 1], key);
    }
  }

  lemma InsertKeys(l: seq<Process>, p: Process, key: int)
    ensures WithKey(Insert(l, p), key) == WithKey(l, key) + WithKey([p], key)
  {
    hide WithKey, Place;
    var k := Place(l, p.key);
    assert l == l[..k] + l[k..];
    WithKeyConcat(l[..k] + [p], l[k..], key);
    WithKeyConcat(l[..k], [p], key);
    WithKeyConcat(l[..k], l[k..], key);
    if key == p.key {
      NoneWithKey(l[k..], key);
    } else {
      NoneWithKey([p], key);
    }
  }

  lemma InsertDescends(l: seq<Process>, p: Process)
    requires Descending(l)
    ensures Descending(Insert(l, p))
  {
    var k := Place(l, p.key);
    assert forall i :: 0 <= i < k ==> l[i].key >= p.key;
  }

  /** Insertion of one process after the other is a stable sort. */
  lemma {:induction false} SortedIsStable(ps: seq<Process>)
    ensures StableSortOf(Sorted(ps), ps)
  {
    hide WithKey, Insert, Descending;
    if ps == [] {
      NothingDescends();
    } else {
      var rest, p := ps[..|ps| - 1], ps[|ps| - 1];
      SortedIsStable(rest);
      InsertDescends(Sorted(rest), p);
      forall key ensures WithKey(Sorted(ps), key) == WithKey(ps, key) {
        InsertKeys(Sorted(rest), p, key);
        WithKeyConcat(rest, [p], key);
        assert rest + [p] == ps;
      }
    }
  }

  lemma NothingDescends()
    ensures Descending([])
  {
  }

  // ---------- the first fifteen ----------

  function Take(l: seq<Process>, n: nat): (r: seq<Process>)
    ensures |r| == (if |l| <= n then |l| else n) && forall i :: 0 <= i < |r| ==> r[i] == l[i]
  {
    if |l| <= n then l else l[..n]
  }

  /** The ranking after the processes `ps`. */
  function Top(ps: seq<Process>): seq<Process>
  {
    Take(Sorted(ps), MAX_TOP_PROCS)
  }

  lemma PlaceIs(l: seq<Process>, key: int, k: nat)
    requires Descending(l) && k <= |l| && (forall i :: k <= i < |l| ==> l[i].key < key) && (k > 0 ==> l[k - 1].key >= key)
    ensures Place(l, key) == k
  {
  }

  /** What has fallen off the end never comes back. */
  lemma TakeInsert(l: seq<Process>, p: Process, n: nat)
    requires Descending(l)
    ensures Take(Insert(l, p), n) == Take(Insert(Take(l, n), p), n)
  {
    hide Place, Spliced, Take;
    var k, t := Place(l, p.key), Take(l, n);
    if |l| > n {
      PlaceIs(t, p.key, if k <= n then k else n);
      var j := if k <= n then k else n;
      forall i | 0 <= i < n ensures Spliced(l, p, k)[i] == Spliced(t, p, j)[i] {
        SplicedAt(l, p, k, i);
        SplicedAt(t, p, j, i);
        TakeAt(l, n, i);
        if i > 0 {
          TakeAt(l, n, i - 1);
        }
      }
      SameTake(Spliced(l, p, k), Spliced(t, p, j), n);
    } else {
      assert t == l;
    }
  }

  lemma SameTake(a: seq<Process>, b: seq<Process>, n: nat)
    requires |a| >= n && |b| >= n && forall i :: 0 <= i < n ==> a[i] == b[i]
    ensures Take(a, n) == Take(b, n)
  {
  }

  /** The array holds the ranking `l`, followed by places that no process has taken. */
  ghost predicate Holds(a: seq<Process>, l: seq<Process>)
  {
    && |l| <= |a| == MAX_TOP_PROCS
    && forall i :: 0 <= i < |a| ==> if i < |l| then a[i] == l[i] && a[i].key >= 0 else a[i].key == -1
  }

  lemma PlaceInArray(a: seq<Process>, l: seq<Process>, key: int, k: nat)
    requires Holds(a, l) && Descending(l) && key >= 0 && k <= MAX_TOP_PROCS
    requires (forall i :: k <= i < MAX_TOP_PROCS ==> a[i].key < key) && (k > 0 ==> a[k - 1].key >= key)
    ensures k <= |l| && Place(l, key) == k
  {
    PlaceIs(l, key, k);
  }

  lemma ArrayInsert(a: seq<Process>, b: seq<Process>, l: seq<Process>, p: Process, k: nat)
    requires Holds(a, l) && p.key >= 0 && k <= |l| && k == Place(l, p.key) && k < MAX_TOP_PROCS
    requires |b| == MAX_TOP_PROCS && forall i :: 0 <= i < |b| ==> b[i] == Spliced(a, p, k)[i]
    ensures Holds(b, Take(Insert(l, p), MAX_TOP_PROCS))
  {
    hide Place, Spliced, Take;
    var t := Take(Insert(l, p), MAX_TOP_PROCS);
    forall i | 0 <= i < |b| ensures if i < |t| then b[i] == t[i] && b[i].key >= 0 else b[i].key == -1 {
      assert b[i] == Spliced(a, p, k)[i];
      SplicedAt(a, p, k, i);
      if i < |t| {
        TakeAt(Insert(l, p), MAX_TOP_PROCS, i);
        SplicedAt(l, p, k, i);
      }
    }
  }

  lemma SpliceSlices(a: seq<Process>, b: seq<Process>, p: Process, k: nat)
    requires k < |a| && b == a[..k] + [p] + a[k..|a| - 1]
    ensures |b| == |a| && forall i :: 0 <= i < |b| ==> b[i] == Spliced(a, p, k)[i]
  {
    forall i | 0 <= i < |b| ensures b[i] == Spliced(a, p, k)[i] {
      SplicedAt(a, p, k, i);
    }
  }

  /** Processes with a negative value are never ranked. */
  function Ranked(ps: seq<Process>): seq<Process>
  {
    if ps == [] then []
    else if ps[|ps| - 1].key < 0 then Ranked(ps[..|ps| - 1])
    else Ranked(ps[..|ps| - 1]) + [ps[|ps| - 1]]
  }

  /** All others are, in the order in which they come. */
  lemma {:induction false} RankedAre(ps: seq<Process>)
    ensures (forall i :: 0 <= i < |ps| ==> ps[i].key >= 0) ==> Ranked(ps) == ps
    ensures forall p :: p in Ranked(ps) <==> p in ps && p.key >= 0
  {
    if ps != [] {
      var rest, p := ps[..|ps| - 1], ps[|ps| - 1];
      assert ps == rest + [p];
      RankedAre(rest);
    }
  }

  lemma RankedNext(ps: seq<Process>, p: Process)
    ensures Ranked(ps + [p]) == if p.key < 0 then Ranked(ps) else Ranked(ps) + [p]
  {
    assert (ps + [p])[..|ps|] == ps;
  }

  /** One of the insertion passages of scan_processes: the ranking after one more process. */
  method Rank(a: array<Process>, p: Process, num0: nat, ghost ps: seq<Process>) returns (num: nat)
    requires Holds(a[..], Top(Ranked(ps))) && num0 == |Top(Ranked(ps))|
    modifies a
    ensures Holds(a[..], Top(Ranked(ps + [p]))) && num == |Top(Ranked(ps + [p]))|
  {
    RankedNext(ps, p);
    LastKey(a[..], Top(Ranked(ps)));
    num := num0;
    if p.key > a[MAX_TOP_PROCS - 1].key {
      num := PutIn(a, p, num0, Ranked(ps));
    } else if p.key >= 0 {
      Facts(a[..], Ranked(ps), p);
      PlaceInArray(a[..], Top(Ranked(ps)), p.key, MAX_TOP_PROCS);
      NotAmong(Top(Ranked(ps)), p);
    }
  }

  lemma LastKey(a: seq<Process>, l: seq<Process>)
    requires Holds(a, l)
    ensures |a| == MAX_TOP_PROCS && a[MAX_TOP_PROCS - 1].key >= -1
  {
  }

  /** The process goes behind all that are not smaller; the last one may fall off. */
  method PutIn(a: array<Process>, p: Process, num0: nat, ghost ps: seq<Process>) returns (num: nat)
    requires Holds(a[..], Top(ps)) && num0 == |Top(ps)| && p.key >= 0
    requires a.Length == MAX_TOP_PROCS && p.key > a[MAX_TOP_PROCS - 1].key
    modifies a
    ensures Holds(a[..], Top(ps + [p])) && num == |Top(ps + [p])|
  {
    hide Holds, Insert, Sorted, Place;
    ghost var before, l := a[..], Top(ps);
    Facts(before, ps, p);
    num := num0;
    var insertIdx := MAX_TOP_PROCS - 1;
    while insertIdx > 0 && p.key > a[insertIdx - 1].key
      invariant 0 <= insertIdx < MAX_TOP_PROCS && a[..] == before
      invariant forall i :: insertIdx <= i < MAX_TOP_PROCS ==> a[i].key < p.key
    {
      insertIdx := insertIdx - 1;
    }
    PlaceInArray(before, l, p.key, insertIdx);
    var i := MAX_TOP_PROCS - 1;
    while i > insertIdx
      invariant insertIdx <= i < MAX_TOP_PROCS
      invariant a[..] == before[..i + 1] + before[i..MAX_TOP_PROCS - 1]
    {
      a[i] := a[i - 1];
      i := i - 1;
    }
    a[insertIdx] := p;
    SpliceSlices(before, a[..], p, insertIdx);
    ArrayInsert(before, a[..], l, p, insertIdx);
    if num < MAX_TOP_PROCS {
      num := num + 1;
    }
  }

  /** The ranking is taken from a stable sort, and a new process is inserted into the ranking alone. */
  lemma Facts(a: seq<Process>, ps: seq<Process>, p: Process)
    requires Holds(a, Top(ps))
    ensures |a| == MAX_TOP_PROCS && |Top(ps)| <= MAX_TOP_PROCS && Descending(Top(ps))
    ensures Top(ps + [p]) == Take(Insert(Top(ps), p), MAX_TOP_PROCS)
  {
    SortedIsStable(ps);
    assert (ps + [p])[..|ps|] == ps;
    TakeInsert(Sorted(ps), p, MAX_TOP_PROCS);
  }

  /** All places are free at first. */
  method Clear(a: array<Process>)
    requires a.Length == MAX_TOP_PROCS
    modifies a
    ensures Holds(a[..], Top(Ranked([])))
  {
    var i := 0;
    while i < MAX_TOP_PROCS
      invariant 0 <= i <= MAX_TOP_PROCS && forall k :: 0 <= k < i ==> a[k].key == -1
    {
      a[i] := Process(-1, 0);
      i := i + 1;
    }
  }

  lemma NotAmong(l: seq<Process>, p: Process)
    requires |l| == MAX_TOP_PROCS == Place(l, p.key)
    ensures Take(Insert(l, p), MAX_TOP_PROCS) == l
  {
  }
}
