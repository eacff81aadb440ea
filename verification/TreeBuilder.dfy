/** build_tree: from symbol frequencies to a complete canonical code. */
module TreeBuilder {
  import opened Arith
  import opened Canonical
  import opened CodeTables
  import opened TreeHeap
  import opened HuffmanCost
  import opened HuffmanTree
  import opened TreeSums
  import opened BitLengths
  import opened CodeSpace
  import opened LengthLimit
  import opened TreeLengths
  import opened TreeDepths

  // ---------- the initial heap ----------

  ghost function UsedTo(freq: seq<nat>, n: nat): set<nat>
    requires n <= |freq|
  {
    set i | 0 <= i < n && freq[i] > 0
  }

  /** The heap holds the symbols below `n` that occur; `maxCode` is the largest, or -1. */
  ghost predicate Collected(h: seq<nat>, len: nat, freq: seq<nat>, n: nat, maxCode: int)
  {
    && n <= |freq| && len < |h| && len <= n
    && multiset(h[1..len + 1]) == multiset(UsedTo(freq, n))
    && -1 <= maxCode < n
    && (forall i :: maxCode < i < n ==> freq[i] == 0)
    && (maxCode >= 0 ==> freq[maxCode] > 0)
  }

  ghost function SymbolFreqs(t: seq<CtData>, elems: nat): (r: seq<nat>)
    requires elems <= |t|
    ensures |r| == elems
  {
    Freqs(t)[..elems]
  }

  lemma CollectStep(h: seq<nat>, len: nat, freq: seq<nat>, n: nat, maxCode: int)
    requires Collected(h, len, freq, n, maxCode) && n < |freq| && len + 1 < |h|
    ensures freq[n] > 0 ==> Collected(h[len + 1 := n], len + 1, freq, n + 1, n)
    ensures freq[n] == 0 ==> Collected(h, len, freq, n + 1, maxCode)
  {
    if freq[n] > 0 {
      assert UsedTo(freq, n + 1) == UsedTo(freq, n) + {n};
      assert h[len + 1 := n][1..len + 2] == h[1..len + 1] + [n];
    } else {
      assert UsedTo(freq, n + 1) == UsedTo(freq, n);
    }
  }

  method CollectLeaves(tree: array<CtData>, depth: array<nat>, heap: array<nat>, elems: nat)
    returns (heapLen: nat, maxCode: int)
    requires heap != depth && elems <= L_CODES && tree.Length == 2 * elems + 1
    requires heap.Length == depth.Length == HEAP_SIZE
    modifies tree, depth, heap
    ensures Freqs(tree[..]) == old(Freqs(tree[..]))
    ensures Collected(heap[..], heapLen, SymbolFreqs(tree[..], elems), elems, maxCode)
    ensures forall i :: 0 <= i < elems && tree[i].fc == 0 ==> tree[i].dl == 0
  {
    hide Collected;
    ghost var fc := Freqs(tree[..]);
    ghost var freq := fc[..elems];
    heapLen, maxCode := 0, -1;
    var n: nat := 0;
    assert Collected(heap[..], 0, freq, 0, -1) by { CollectNone(heap[..], freq); }
    while n < elems
      invariant 0 <= n <= elems && heapLen <= n
      invariant Freqs(tree[..]) == fc
      invariant Collected(heap[..], heapLen, freq, n, maxCode)
      invariant forall i :: 0 <= i < n && tree[i].fc == 0 ==> tree[i].dl == 0
    {
      ghost var h := heap[..];
      CollectStep(h, heapLen, freq, n, maxCode);
      FreqAt(tree[..], fc, n);
      if tree[n].fc != 0 {
        heapLen := heapLen + 1;
        heap[heapLen] := n;
        maxCode := n;
        depth[n] := 0;
        assert heap[..] == h[heapLen := n];
      } else {
        tree[n] := tree[n].(dl := 0);
      }
      n := n + 1;
    }
  }

  lemma FreqAt(t: seq<CtData>, fc: seq<nat>, n: nat)
    requires Freqs(t) == fc && n < |t|
    ensures t[n].fc == fc[n]
  {
  }

  lemma CollectNone(h: seq<nat>, freq: seq<nat>)
    requires |h| > 1
    ensures Collected(h, 0, freq, 0, -1)
  {
    assert UsedTo(freq, 0) == {};
    assert h[1..1] == [];
  }

  // ---------- at least two codes ----------

  /** `freq` is `freq0` with a 1 for each symbol that was forced into the code. */
  ghost predicate Forced(freq0: seq<nat>, freq: seq<nat>)
  {
    && |freq| == |freq0|
    && (forall i :: 0 <= i < |freq| ==> freq[i] == freq0[i] || (freq0[i] == 0 && freq[i] == 1 && i <= 2))
  }

  ghost function Added(freq0: seq<nat>, freq: seq<nat>, weight: seq<nat>): (r: seq<int>)
    requires |freq| == |freq0| <= |weight|
    ensures |r| == |freq|
  {
    seq(|freq|, i requires 0 <= i < |freq| => if freq[i] == freq0[i] then 0 else weight[i])
  }

  ghost function Ones(n: nat): (r: seq<nat>)
    ensures |r| == n && forall i :: 0 <= i < n ==> r[i] == 1
  {
    seq(n, i => 1)
  }

  lemma OneUsed(h: seq<nat>, len: nat, freq: seq<nat>, maxCode: int)
    requires Collected(h, len, freq, |freq|, maxCode) && len <= 1
    ensures forall i :: 0 <= i < |freq| && i != maxCode ==> freq[i] == 0
    ensures len == 0 ==> maxCode == -1
  {
    forall i | 0 <= i < |freq| && freq[i] > 0 ensures i == maxCode && len == 1 {
      assert i in UsedTo(freq, |freq|) && maxCode in UsedTo(freq, |freq|);
      assert i in multiset(h[1..len + 1]) && maxCode in multiset(h[1..len + 1]);
      assert h[1..len + 1] == if len == 0 then [] else [h[1]];
    }
  }

  function NextForced(maxCode: int): nat
    requires maxCode >= -1
  {
    if maxCode < 2 then maxCode + 1 else 0
  }

  ghost predicate NoneUsed(freq: seq<nat>)
  {
    forall i :: 0 <= i < |freq| ==> freq[i] == 0
  }

  ghost predicate OnlyUsed(freq: seq<nat>, m: nat)
  {
    m < |freq| && freq[m] > 0 && forall i :: 0 <= i < |freq| && i != m ==> freq[i] == 0
  }

  /**
   Exactly which symbols are forced: 0 and 1 when none occurs; when only one occurs, the next
   one if that is 1 or 2 and otherwise 0; and none when two or more occur.
   */
  ghost predicate ForcedIs(freq0: seq<nat>, freq: seq<nat>)
    requires |freq0| >= 3
  {
    && (NoneUsed(freq0) ==> freq == freq0[0 := 1][1 := 1])
    && (forall m: nat :: OnlyUsed(freq0, m) ==> freq == freq0[NextForced(m) := 1])
    && (!NoneUsed(freq0) && (forall m: nat :: !OnlyUsed(freq0, m)) ==> freq == freq0)
  }

  /** Symbol 2 is forced if and only if symbol 1 is the only one that occurs. */
  lemma TwoForced(freq0: seq<nat>, freq: seq<nat>)
    requires |freq0| >= 3 && ForcedIs(freq0, freq)
    ensures |freq| == |freq0| && (freq[2] != freq0[2] <==> OnlyUsed(freq0, 1))
  {
    if m: nat :| OnlyUsed(freq0, m) {
      assert freq == freq0[NextForced(m) := 1];
      assert OnlyUsed(freq0, 1) <==> m == 1;
    }
  }

  /** The comment in build_tree says that a forced symbol is 0 or 1; a single literal 1 forces 2. */
  lemma TwoForcedAt(freq: seq<nat>)
    requires ForcedIs([0, 5, 0, 0], freq)
    ensures freq == [0, 5, 1, 0]
  {
    assert OnlyUsed([0, 5, 0, 0], 1);
  }

  lemma UsedCounts(h: seq<nat>, len: nat, freq: seq<nat>, maxCode: int)
    requires Collected(h, len, freq, |freq|, maxCode)
    ensures len == 0 <==> NoneUsed(freq)
    ensures len == 1 ==> maxCode >= 0 && OnlyUsed(freq, maxCode)
    ensures len >= 2 ==> forall m: nat :: !OnlyUsed(freq, m)
  {
    if len <= 1 {
      OneUsed(h, len, freq, maxCode);
      if len == 1 {
        CollectedSome(h, 1, freq, |freq|, maxCode);
        assert h[1] in multiset(h[1..2]);
      }
    } else {
      var s := UsedTo(freq, |freq|);
      var l := h[1..len + 1];
      assert l[0] in multiset(l) && l[1] in multiset(l);
      assert l[0] in s && l[1] in s;
      ListedOnce(l, s, 0, 1);
    }
  }

  /** What the loop of forced symbols has done after some rounds. */
  ghost predicate ForcedSoFar(freq0: seq<nat>, freq: seq<nat>, len0: nat, len: nat, max0: int, max: int)
    requires max0 >= -1
  {
    && |freq0| >= 3 && len0 <= len
    && (len == len0 ==> freq == freq0 && max == max0)
    && (len0 == 1 && len == 2 ==> freq == freq0[NextForced(max0) := 1])
    && (len0 == 0 ==> max0 == -1 && len <= 2)
    && (len0 == 0 && len == 1 ==> freq == freq0[0 := 1] && max == 0)
    && (len0 == 0 && len == 2 ==> freq == freq0[0 := 1][1 := 1])
    && (len0 == 1 ==> len <= 2) && (len0 >= 2 ==> len == len0)
  }

  lemma ForcedDone(h: seq<nat>, freq0: seq<nat>, freq: seq<nat>, len0: nat, len: nat, max0: int, max: int)
    requires Collected(h, len0, freq0, |freq0|, max0) && max0 >= -1 && len >= 2
    requires ForcedSoFar(freq0, freq, len0, len, max0, max)
    ensures ForcedIs(freq0, freq)
  {
    hide Collected;
    UsedCounts(h, len0, freq0, max0);
    if len0 == 1 {
      forall m: nat | OnlyUsed(freq0, m) ensures m == max0 {
      }
    }
  }

  lemma ForceStep(h: seq<nat>, len: nat, freq0: seq<nat>, freq: seq<nat>, maxCode: int)
    requires Collected(h, len, freq, |freq|, maxCode) && len <= 1 && 3 <= |freq| && len + 1 < |h|
    requires Forced(freq0, freq)
    ensures var x := NextForced(maxCode);
            && x <= 2 && freq[x] == 0 && freq0[x] == 0 && Forced(freq0, freq[x := 1])
            && Collected(h[len + 1 := x], len + 1, freq[x := 1], |freq|, if maxCode < 2 then x else maxCode)
  {
    OneUsed(h, len, freq, maxCode);
    var x := NextForced(maxCode);
    assert UsedTo(freq[x := 1], |freq|) == UsedTo(freq, |freq|) + {x};
    assert h[len + 1 := x][1..len + 2] == h[1..len + 1] + [x];
  }

  lemma AddedStep(freq0: seq<nat>, freq: seq<nat>, weight: seq<nat>, x: nat)
    requires |freq| == |freq0| <= |weight| && x < |freq| && freq[x] == freq0[x] == 0
    ensures Sum(Added(freq0, freq[x := 1], weight)) == Sum(Added(freq0, freq, weight)) + weight[x]
    ensures Sum(freq[x := 1]) == Sum(freq) + 1
  {
    assert Added(freq0, freq[x := 1], weight) == Added(freq0, freq, weight)[x := weight[x]];
    SumUpdate(Added(freq0, freq, weight), x, weight[x]);
    SumUpdate(freq, x, 1);
  }

  method ForceTwo(tree: array<CtData>, depth: array<nat>, heap: array<nat>, elems: nat, fixed: array?<CtData>,
                  heapLen0: nat, maxCode0: int, optLen0: int, staticLen0: int)
    returns (heapLen: nat, maxCode: nat, optLen: int, staticLen: int)
    requires heap != depth && 3 <= elems <= L_CODES && tree.Length == 2 * elems + 1
    requires heap.Length == depth.Length == HEAP_SIZE
    requires fixed != null ==> fixed != tree && fixed.Length >= elems
    requires Collected(heap[..], heapLen0, SymbolFreqs(tree[..], elems), elems, maxCode0)
    requires forall i :: 0 <= i < elems && tree[i].fc == 0 ==> tree[i].dl == 0
    modifies tree, depth, heap
    ensures Forced(old(SymbolFreqs(tree[..], elems)), SymbolFreqs(tree[..], elems))
    ensures ForcedIs(old(SymbolFreqs(tree[..], elems)), SymbolFreqs(tree[..], elems))
    ensures heapLen >= 2 && Collected(heap[..], heapLen, SymbolFreqs(tree[..], elems), elems, maxCode)
    ensures old(SymbolFreqs(tree[..], elems)) != SymbolFreqs(tree[..], elems) ==> heapLen == 2
    ensures forall i :: 0 <= i < elems && tree[i].fc == 0 ==> tree[i].dl == 0
    ensures optLen == optLen0 - Sum(Added(old(SymbolFreqs(tree[..], elems)), SymbolFreqs(tree[..], elems), Ones(elems)))
    ensures staticLen == staticLen0 - (if fixed == null then 0
              else Sum(Added(old(SymbolFreqs(tree[..], elems)), SymbolFreqs(tree[..], elems), Dads(fixed[..]))))
    ensures Sum(SymbolFreqs(tree[..], elems)) <= old(Sum(SymbolFreqs(tree[..], elems))) + 2
  {
    hide Collected, Sum, Added, Forced, ForcedSoFar, ForcedIs;
    ghost var freq0 := SymbolFreqs(tree[..], elems);
    ghost var freq, h0 := freq0, heap[..];
    ghost var weight := if fixed == null then Ones(elems) else Dads(fixed[..]);
    var max := maxCode0;
    heapLen, optLen, staticLen := heapLen0, optLen0, staticLen0;
    NothingForced(freq0, weight);
    NothingForced(freq0, Ones(elems));
    CollectedBounds(heap[..], heapLen, freq, elems, max);
    NothingYet(h0, freq0, heapLen0, maxCode0);
    ghost var todo := 2;
    while heapLen < 2
      invariant heapLen + todo >= 2 && -1 <= max && 0 <= todo <= 2
      invariant freq != freq0 ==> heapLen <= 2
      invariant ForcedSoFar(freq0, freq, heapLen0, heapLen, maxCode0, max)
      invariant SymbolFreqs(tree[..], elems) == freq && Forced(freq0, freq) && |freq| == elems
      invariant Collected(heap[..], heapLen, freq, elems, max)
      invariant forall i :: 0 <= i < elems && tree[i].fc == 0 ==> tree[i].dl == 0
      invariant optLen == optLen0 - Sum(Added(freq0, freq, Ones(elems)))
      invariant staticLen == staticLen0 - (if fixed == null then 0 else Sum(Added(freq0, freq, weight)))
      invariant Sum(freq) + todo <= Sum(freq0) + 2
    {
      ghost var h, t := heap[..], tree[..];
      ForceStep(h, heapLen, freq0, freq, max);
      var x := NextForced(max);
      ForcedMore(freq0, freq, heapLen0, heapLen, maxCode0, max);
      AddedStep(freq0, freq, Ones(elems), x);
      AddedStep(freq0, freq, weight, x);
      heapLen := heapLen + 1;
      heap[heapLen] := x;
      if max < 2 { max := x; }
      tree[x] := tree[x].(fc := 1);
      depth[x] := 0;
      optLen := optLen - 1;
      if fixed != null {
        staticLen := staticLen - fixed[x].dl;
      }
      assert heap[..] == h[heapLen := x];
      assert SymbolFreqs(tree[..], elems) == freq[x := 1];
      freq, todo := freq[x := 1], todo - 1;
    }
    CollectedSome(heap[..], heapLen, freq, elems, max);
    ForcedDone(h0, freq0, freq, heapLen0, heapLen, maxCode0, max);
    maxCode := max;
  }

  lemma NothingYet(h: seq<nat>, freq: seq<nat>, len: nat, maxCode: int)
    requires Collected(h, len, freq, |freq|, maxCode) && |freq| >= 3
    ensures maxCode >= -1 && ForcedSoFar(freq, freq, len, len, maxCode, maxCode)
  {
    if len <= 1 {
      OneUsed(h, len, freq, maxCode);
    }
  }

  lemma ForcedMore(freq0: seq<nat>, freq: seq<nat>, len0: nat, len: nat, max0: int, max: int)
    requires max0 >= -1 && max >= -1 && len < 2 && ForcedSoFar(freq0, freq, len0, len, max0, max) && |freq| == |freq0|
    ensures ForcedSoFar(freq0, freq[NextForced(max) := 1], len0, len + 1, max0, if max < 2 then NextForced(max) else max)
  {
  }

  lemma NothingForced(freq: seq<nat>, weight: seq<nat>)
    requires |freq| <= |weight|
    ensures Forced(freq, freq) && Sum(Added(freq, freq, weight)) == 0
  {
    SumZero(Added(freq, freq, weight));
  }

  lemma CollectedBounds(h: seq<nat>, len: nat, freq: seq<nat>, n: nat, maxCode: int)
    requires Collected(h, len, freq, n, maxCode)
    ensures -1 <= maxCode < n
  {
  }

  lemma CollectedSome(h: seq<nat>, len: nat, freq: seq<nat>, n: nat, maxCode: int)
    requires Collected(h, len, freq, n, maxCode) && len >= 1
    ensures 0 <= maxCode < n
  {
    assert h[1] == h[1..len + 1][0];
    assert h[1] in multiset(h[1..len + 1]);
  }

  /** With only two codes both have one bit. */
  lemma TwoCodes(h: seq<nat>, freq: seq<nat>, maxCode: int, lens: Lengths, m: nat)
    requires Collected(h, 2, freq, |freq|, maxCode) && CompleteCode(lens, freq, m) && m >= 1
    ensures forall i :: 0 <= i < |freq| && freq[i] > 0 ==> lens[i] == 1
  {
    var a, b := h[1], h[2];
    assert h[1..3] == [a, b];
    TwoUsed(h, freq, maxCode);
    var z := seq(|lens|, i => 0);
    var s := z[a := Share(lens[a], m)][b := Share(lens[b], m)];
    SumZero(z);
    SumUpdate(z, a, Share(lens[a], m));
    SumUpdate(z[a := Share(lens[a], m)], b, Share(lens[b], m));
    KraftIsSum(lens, m, s);
    HalfShare(lens[a], m);
    HalfShare(lens[b], m);
  }

  lemma TwoUsed(h: seq<nat>, freq: seq<nat>, maxCode: int)
    requires Collected(h, 2, freq, |freq|, maxCode)
    ensures h[1] < |freq| && h[2] < |freq| && h[1] != h[2] && freq[h[1]] > 0 && freq[h[2]] > 0
    ensures forall i :: 0 <= i < |freq| && freq[i] > 0 ==> i == h[1] || i == h[2]
  {
    var s := UsedTo(freq, |freq|);
    assert h[1..3] == [h[1], h[2]];
    assert multiset(s) == multiset{h[1], h[2]};
    assert h[1] in multiset(s) && h[2] in multiset(s);
    assert multiset(s)[h[1]] == 1;
    forall i | 0 <= i < |freq| && freq[i] > 0 ensures i == h[1] || i == h[2] {
      assert i in s;
      assert i in multiset(s);
    }
  }

  lemma HalfShare(l: nat, m: nat)
    requires 1 <= l <= m
    ensures 2 * Share(l, m) <= Pow2(m) && (2 * Share(l, m) == Pow2(m) ==> l == 1)
  {
    Pow2Double(m);
    Pow2Mono(m - l, m - 1);
    if l > 1 {
      Pow2Strict(m - l, m - 1);
    }
  }

  // ---------- the cost of forced codes ----------

  predicate PlainLowCodes(desc: TreeDesc)
    requires ValidDesc(desc)
  {
    forall i :: 0 <= i <= 2 ==> Extra(desc, i) == 0
  }

  lemma ForcedCosts(freq0: seq<nat>, freq: seq<nat>, lens: Lengths, fixed: Lengths, desc: TreeDesc)
    requires ValidDesc(desc) && PlainLowCodes(desc) && |freq| == |freq0| == |lens| == desc.elems <= |fixed|
    requires Forced(freq0, freq)
    requires forall i :: 0 <= i < |freq| && freq[i] != freq0[i] ==> lens[i] > 0
    ensures Sum(FixedCosts(freq, lens, fixed, desc))
         == Sum(FixedCosts(freq0, lens, fixed, desc)) + Sum(Added(freq0, freq, fixed))
  {
    hide Sum, Extra;
    var a, b, c := FixedCosts(freq0, lens, fixed, desc), Added(freq0, freq, fixed), FixedCosts(freq, lens, fixed, desc);
    forall i | 0 <= i < |a| ensures a[i] + b[i] == c[i] {
      if freq[i] != freq0[i] {
        PriceOnce(fixed[i], Extra(desc, i));
        assert Extra(desc, i) == 0;
      }
    }
    SumAdd(a, b, c);
  }

  lemma PriceOnce(len: nat, x: nat)
    ensures Price(1, len, x) == len + x && Price(0, len, x) == 0
  {
  }

  lemma AddedOnes(freq0: seq<nat>, freq: seq<nat>, lens: Lengths)
    requires |freq| == |freq0| == |lens|
    requires forall i :: 0 <= i < |freq| && freq[i] != freq0[i] ==> lens[i] == 1
    ensures Added(freq0, freq, lens) == Added(freq0, freq, Ones(|freq|))
  {
  }

  // ---------- symbols beyond the last code ----------

  lemma {:induction false} CutZeros(lens: Lengths, k: nat, m: nat, b: nat)
    requires k <= |lens| && Bounded(lens, m) && b >= 1
    requires forall i :: k <= i < |lens| ==> lens[i] == 0
    ensures Count(lens[..k], b) == Count(lens, b) && Kraft(lens[..k], m) == Kraft(lens, m)
  {
    if k < |lens| {
      var e := |lens| - 1;
      CutZeros(lens[..e], k, m, b);
      assert lens[..e][..k] == lens[..k];
      KraftSnoc(lens, m);
    } else {
      assert lens[..k] == lens;
    }
  }

  /** A complete canonical code for the symbols 0 .. maxCode stands in the table. */
  ghost predicate CodeTable(t: seq<CtData>, maxCode: nat, m: nat)
  {
    && maxCode < |t|
    && Bounded(Lens(t, maxCode + 1), m) && Kraft(Lens(t, maxCode + 1), m) == Pow2(m)
    && HoldsCodes(t, Lens(t, maxCode + 1))
  }

  lemma InitialMerging(h: seq<nat>, t: seq<CtData>, d: seq<nat>, len: nat, maxCode: int, freq: seq<nat>)
    requires 3 <= |freq| <= L_CODES && |t| == 2 * |freq| + 1 && |d| == |h| == HEAP_SIZE
    requires freq == SymbolFreqs(t, |freq|) && forall i :: 0 <= i < |freq| && freq[i] == 0 ==> t[i].dl == 0
    requires Collected(h, len, freq, |freq|, maxCode)
    ensures Merging(h, t, d, freq, Padded(freq, |t|), len, HEAP_SIZE, 0)
  {
    hide Greedy, Sum;
    var live := Padded(freq, |t|);
    assert LiveSet(live) == UsedTo(freq, |freq|);
    assert Used(freq, |freq|) - LiveSet(live) == {} by {
      forall i | i in Used(freq, |freq|) ensures i in LiveSet(live) {
        assert IsUsed(freq, |freq|, i);
      }
    }
    assert h[HEAP_SIZE..] == [];
    assert live == freq + seq(|t| - |freq|, i => 0);
    assert LiveWeights(live) == LiveWeights(freq) by { PaddedWeights(freq, |t|); }
    SumConcat(freq, seq(|t| - |freq|, i => 0));
    SumZero(seq(|t| - |freq|, i => 0));
  }

  lemma {:induction false} PaddedWeights(freq: seq<nat>, n: nat)
    requires |freq| <= n
    ensures LiveWeights(Padded(freq, n)) == LiveWeights(freq)
    decreases n
  {
    if |freq| < n {
      PaddedWeights(freq, n - 1);
      assert Padded(freq, n) == Padded(freq, n - 1) + [0];
      LiveSnoc(Padded(freq, n - 1), 0);
    } else {
      assert Padded(freq, n) == freq;
    }
  }

  // ---------- build_tree ----------

  /** Everything build_tree promises about the table `t` it made from the frequencies `freq0`. */
  ghost predicate Built(t: seq<CtData>, maxCode: nat, freq0: seq<nat>, freq: seq<nat>, desc: TreeDesc)
    requires ValidDesc(desc)
  {
    && desc.elems <= |t| && |freq0| == |freq| == desc.elems && maxCode < desc.elems
    && Forced(freq0, freq)
    && CompleteCode(Lens(t, desc.elems), freq, desc.maxLength)
    && (forall i :: maxCode < i < desc.elems ==> freq[i] == 0) && freq[maxCode] > 0
    && CodeTable(t, maxCode, desc.maxLength)
    && Greedy(LiveWeights(freq)) <= WeightedLength(freq, Lens(t, desc.elems))
    && (BelowLimit(Lens(t, desc.elems), desc.maxLength) ==> WeightedLength(freq, Lens(t, desc.elems)) == Greedy(LiveWeights(freq)))
  }

  lemma BuiltTable(t: seq<CtData>, u: seq<CtData>, maxCode: nat, freq: seq<nat>, desc: TreeDesc, bl: seq<nat>)
    requires ValidDesc(desc) && desc.elems <= |t| == |u| && maxCode < desc.elems
    requires CompleteCode(Lens(t, desc.elems), freq, desc.maxLength) && Counted(bl, Lens(t, desc.elems))
    requires forall i :: maxCode < i < desc.elems ==> freq[i] == 0
    requires forall i :: 0 <= i < |t| ==> u[i].dl == t[i].dl
    requires HoldsCodes(u, Lens(t, maxCode + 1))
    ensures Lens(u, desc.elems) == Lens(t, desc.elems)
    ensures CodeTable(u, maxCode, desc.maxLength)
  {
    hide HoldsCodes, Kraft, Counted;
    var lens := Lens(t, desc.elems);
    assert Lens(u, desc.elems) == lens;
    assert Lens(u, maxCode + 1) == Lens(t, maxCode + 1) == lens[..maxCode + 1];
    CutZeros(lens, maxCode + 1, desc.maxLength, 1);
  }

  lemma CutCounts(t: seq<CtData>, maxCode: nat, freq: seq<nat>, desc: TreeDesc, bl: seq<nat>)
    requires ValidDesc(desc) && desc.elems <= |t| && maxCode < desc.elems
    requires CompleteCode(Lens(t, desc.elems), freq, desc.maxLength) && Counted(bl, Lens(t, desc.elems))
    requires forall i :: maxCode < i < desc.elems ==> freq[i] == 0
    ensures |bl| == MAX_BITS + 1 && bl[0] == 0 && Bounded(Lens(t, maxCode + 1), MAX_BITS)
    ensures forall b :: 1 <= b <= MAX_BITS ==> bl[b] == Count(Lens(t, maxCode + 1), b)
  {
    hide Kraft;
    var lens := Lens(t, desc.elems);
    assert Lens(t, maxCode + 1) == lens[..maxCode + 1];
    forall b | 1 <= b <= MAX_BITS ensures bl[b] == Count(Lens(t, maxCode + 1), b) {
      CutZeros(lens, maxCode + 1, desc.maxLength, b);
    }
  }

  /** Costs for the original frequencies: forced codes pay for themselves. */
  lemma CostsPaid(h: seq<nat>, freq0: seq<nat>, freq: seq<nat>, len: nat, maxCode: int, lens: Lengths, fixed: seq<CtData>, desc: TreeDesc)
    requires ValidDesc(desc) && PlainLowCodes(desc) && |freq0| == |freq| == desc.elems
    requires Forced(freq0, freq) && CompleteCode(lens, freq, desc.maxLength)
    requires Collected(h, len, freq, |freq|, maxCode) && (freq0 != freq ==> len == 2)
    ensures Sum(Costs(freq, lens, desc)) - Sum(Added(freq0, freq, Ones(desc.elems))) == Sum(Costs(freq0, lens, desc))
    ensures FixedTotal(freq, lens, fixed, false, desc) == 0
    ensures |fixed| >= desc.elems ==>
              FixedTotal(freq, lens, fixed, true, desc) - Sum(Added(freq0, freq, Dads(fixed))) == FixedTotal(freq0, lens, fixed, true, desc)
  {
    hide Sum, Extra, FixedCosts, Added, Kraft, Collected;
    if freq0 != freq {
      TwoCodes(h, freq, maxCode, lens, desc.maxLength);
      AddedOnes(freq0, freq, lens);
      ForcedCosts(freq0, freq, lens, lens, desc);
      if |fixed| >= desc.elems {
        ForcedCosts(freq0, freq, lens, Dads(fixed), desc);
      }
    } else {
      NothingForced(freq, Ones(desc.elems));
      if |fixed| >= desc.elems {
        NothingForced(freq, Dads(fixed));
      }
    }
  }

  method BuildTree(tree: array<CtData>, desc: TreeDesc, fixed: array?<CtData>, heap: array<nat>, depth: array<nat>,
                   blCount: array<nat>, optLen0: int, staticLen0: int)
    returns (maxCode: nat, optLen: int, staticLen: int, ghost freq: seq<nat>)
    requires heap != depth && heap != blCount && depth != blCount
    requires heap.Length == depth.Length == HEAP_SIZE && blCount.Length == MAX_BITS + 1
    requires ValidDesc(desc) && PlainLowCodes(desc) && tree.Length == 2 * desc.elems + 1
    requires fixed != null ==> fixed != tree && fixed.Length >= desc.elems
    requires Sum(SymbolFreqs(tree[..], desc.elems)) + 2 < 0x1_0000
    modifies tree, heap, depth, blCount
    ensures Built(tree[..], maxCode, old(SymbolFreqs(tree[..], desc.elems)), freq, desc)
    ensures ForcedIs(old(SymbolFreqs(tree[..], desc.elems)), freq)
    ensures optLen == optLen0 + Sum(Costs(old(SymbolFreqs(tree[..], desc.elems)), Lens(tree[..], desc.elems), desc))
    ensures staticLen == staticLen0 + (if fixed == null then 0 else FixedTotal(old(SymbolFreqs(tree[..], desc.elems)),
                                        Lens(tree[..], desc.elems), fixed[..], true, desc))
  {
    hide DepthsFit, BelowLimit, AreDepths, Collected, Forced, ForcedIs, Merging, TreeListed, CompleteCode, Counted, HoldsCodes, CodeTable, Greedy, LiveWeights, WeightedLength, Sum, Costs, FixedTotal, Added, Padded, ValidDesc, PlainLowCodes;
    DescFacts(desc);
    ghost var freq0 := SymbolFreqs(tree[..], desc.elems);
    var elems := desc.elems;
    var heapLen, max := CollectLeaves(tree, depth, heap, elems);
    heapLen, maxCode, optLen, staticLen := ForceTwo(tree, depth, heap, elems, fixed, heapLen, max, optLen0, staticLen0);
    freq := SymbolFreqs(tree[..], elems);
    ghost var h0 := heap[..];
    UnusedLens(tree[..], freq, elems);
    InitialMerging(h0, tree[..], depth[..], heapLen, maxCode, freq);
    CollectedTop(h0, heapLen, freq, maxCode);
    var heapMax := MergeAll(tree, depth, heap, heapLen, elems, freq);
    optLen, staticLen := GenBitlen(tree, heap, heapMax, maxCode, desc, blCount, fixed, optLen, staticLen, freq, heapLen);
    ghost var t := tree[..];
    ghost var lens := Lens(t, elems);
    CutCounts(t, maxCode, freq, desc, blCount[..]);
    GenCodes(tree, maxCode, blCount, Lens(t, maxCode + 1));
    BuiltTable(t, tree[..], maxCode, freq, desc, blCount[..]);
    CostsPaid(h0, freq0, freq, heapLen, maxCode, lens, if fixed == null then [] else fixed[..], desc);
    NotBelowGreedy(freq, lens, desc.maxLength);
  }

  lemma DescFacts(desc: TreeDesc)
    requires ValidDesc(desc)
    ensures 3 <= desc.elems <= L_CODES
  {
  }

  lemma CollectedTop(h: seq<nat>, len: nat, freq: seq<nat>, maxCode: int)
    requires Collected(h, len, freq, |freq|, maxCode) && len >= 2
    ensures 0 <= maxCode < |freq| && freq[maxCode] > 0 && forall i :: maxCode < i < |freq| ==> freq[i] == 0
  {
    CollectedSome(h, len, freq, |freq|, maxCode);
  }

  lemma UnusedLens(t: seq<CtData>, freq: seq<nat>, elems: nat)
    requires elems <= |t| && freq == SymbolFreqs(t, elems)
    ensures forall i :: 0 <= i < elems ==> freq[i] == t[i].fc
  {
  }

  lemma NotBelowGreedy(freq: seq<nat>, lens: Lengths, m: nat)
    requires CompleteCode(lens, freq, m)
    ensures |freq| == |lens| && Greedy(LiveWeights(freq)) <= WeightedLength(freq, lens)
  {
    AtLeastGreedy(freq, lens, m);
  }
}
