/**
 What the clipped depths of a Huffman tree add up to: how far the code space is
 overfull, how many codes have the maximal length, and, when nothing was
 clipped, that the lengths are optimal.
 */
module CodeSpace {
  import opened Arith
  import opened Canonical
  import opened CodeTables
  import opened HuffmanTree
  import opened TreeSums
  import opened BitLengths

  /** The labels of a finished first pass. */
  ghost predicate Labels(l: seq<nat>, fc: seq<nat>, dl: seq<nat>, done: Lengths, freq: seq<nat>, n: nat, m: nat)
  {
    m >= 1 && Listing(l, fc, freq, n) && Labelling(l, dl, done, freq, n, m, 2 * n - 2)
  }

  lemma ListedBound(l: seq<nat>, fc: seq<nat>, dl: seq<nat>, done: Lengths, freq: seq<nat>, n: nat, m: nat)
    requires Labels(l, fc, dl, done, freq, n, m)
    ensures forall v :: |freq| <= v < |freq| + n - 1 ==> v < |dl| && dl[v] <= m
  {
    forall v | |freq| <= v < |freq| + n - 1 ensures v < |dl| && dl[v] <= m {
      NodeBound(l, fc, dl, done, freq, n, m, v);
    }
  }

  lemma NodeBound(l: seq<nat>, fc: seq<nat>, dl: seq<nat>, done: Lengths, freq: seq<nat>, n: nat, m: nat, v: nat)
    requires Labels(l, fc, dl, done, freq, n, m) && IsUsed(freq, |freq| + n - 1, v)
    ensures v < |dl| && dl[v] <= m
    ensures v < |freq| ==> done[v] == dl[v] >= 1
  {
    hide SonsAt;
    ListedIs(l, Used(freq, |freq| + n - 1), v);
    var q :| 0 <= q < |l| && l[q] == v;
    if q > 0 {
      assert LabelIs(l, dl, |freq|, n, m, q - 1);
      assert DoneIs(l, dl, done, q - 1);
    }
  }

  /** Exactly the symbols that occur have a length, between 1 and the limit. */
  lemma LeafLengths(l: seq<nat>, fc: seq<nat>, dl: seq<nat>, done: Lengths, freq: seq<nat>, n: nat, m: nat)
    requires Labels(l, fc, dl, done, freq, n, m)
    ensures |done| == |freq| <= |dl|
    ensures forall i :: 0 <= i < |freq| ==> done[i] == dl[i] <= m && (done[i] > 0 <==> freq[i] > 0)
  {
    hide Listing;
    forall i | 0 <= i < |freq| ensures done[i] == dl[i] <= m && (done[i] > 0 <==> freq[i] > 0) {
      if freq[i] > 0 {
        NodeBound(l, fc, dl, done, freq, n, m, i);
      }
    }
  }

  lemma PairLabels(l: seq<nat>, fc: seq<nat>, dl: seq<nat>, done: Lengths, freq: seq<nat>, n: nat, m: nat, i: nat)
    requires Labels(l, fc, dl, done, freq, n, m) && i < n - 1
    ensures |l| == 2 * n - 1 && |freq| + n - 1 <= |dl|
    ensures l[2 * i + 1] < |freq| + n - 1 && l[2 * i + 2] < |freq| + n - 1
    ensures dl[l[2 * i + 1]] == dl[l[2 * i + 2]] == Clip(dl[|freq| + n - 2 - i] + 1, m)
    ensures dl[|freq| + n - 2 - i] <= m
  {
    hide Used, SonsAt;
    ListingBelow(l, fc, freq, n);
    assert LabelIs(l, dl, |freq|, n, m, 2 * i);
    assert LabelIs(l, dl, |freq|, n, m, 2 * i + 1);
    assert IsUsed(freq, |freq| + n - 1, |freq| + n - 2 - i);
    NodeBound(l, fc, dl, done, freq, n, m, |freq| + n - 2 - i);
  }

  // ---------- the four sums ----------

  /** 1 for each inner node at the maximal level, in list order. */
  ghost function AtLimit(dl: seq<nat>, elems: nat, n: nat, m: nat): (r: seq<int>)
    requires n >= 1 && elems + n - 1 <= |dl|
    ensures |r| == n - 1
  {
    seq(n - 1, i requires 0 <= i < n - 1 => if dl[elems + n - 2 - i] == m then 1 else 0)
  }

  lemma {:induction false} ClippedTwice(dl: seq<nat>, elems: nat, n: nat, m: nat, k: nat)
    requires n >= 2 && k <= n - 1 && elems + n - 1 <= |dl|
    ensures Sum(Clipped(dl, elems, n, m, 2 * k)) == 2 * Sum(AtLimit(dl, elems, n, m)[..k])
  {
    if k > 0 {
      ClippedTwice(dl, elems, n, m, k - 1);
      var a := AtLimit(dl, elems, n, m);
      var c := Clipped(dl, elems, n, m, 2 * k);
      assert a[..k] == a[..k - 1] + [a[k - 1]];
      SumSnoc(a[..k - 1], a[k - 1]);
      assert c == Clipped(dl, elems, n, m, 2 * (k - 1)) + [a[k - 1]] + [a[k - 1]];
      SumSnoc(Clipped(dl, elems, n, m, 2 * (k - 1)) + [a[k - 1]], a[k - 1]);
      SumSnoc(Clipped(dl, elems, n, m, 2 * (k - 1)), a[k - 1]);
    }
  }

  lemma OverflowTwice(dl: seq<nat>, elems: nat, n: nat, m: nat)
    requires n >= 2 && elems + n - 1 <= |dl|
    ensures Sum(Clipped(dl, elems, n, m, 2 * n - 2)) == 2 * Sum(AtLimit(dl, elems, n, m))
    ensures Sum(AtLimit(dl, elems, n, m)) >= 0
  {
    ClippedTwice(dl, elems, n, m, n - 1);
    assert AtLimit(dl, elems, n, m)[..n - 1] == AtLimit(dl, elems, n, m);
    SumNonNeg(AtLimit(dl, elems, n, m));
  }

  /** Share of the code space taken by a node at depth `d`. */
  function Share(d: nat, m: nat): nat
  {
    if d <= m then Pow2(m - d) else 0
  }

  ghost function Shares(dl: seq<nat>, k: nat, m: nat): (r: seq<int>)
    requires k <= |dl|
    ensures |r| == k
  {
    seq(k, v requires 0 <= v < k => Share(dl[v], m))
  }

  lemma ShareSplit(d: nat, m: nat)
    requires d <= m
    ensures 2 * Share(Clip(d + 1, m), m) == Share(d, m) + (if d == m then 1 else 0)
  {
  }

  lemma SharesSum(l: seq<nat>, fc: seq<nat>, dl: seq<nat>, done: Lengths, freq: seq<nat>, n: nat, m: nat)
    requires Labels(l, fc, dl, done, freq, n, m)
    ensures |freq| + n - 1 <= |dl| && n >= 2
    ensures Sum(LeafValues(freq, Shares(dl, |freq| + n - 1, m))) == Pow2(m) + Sum(AtLimit(dl, |freq|, n, m))
  {
    hide SonsAt, Used, Labelling, LeafValues, Share;
    PairLabels(l, fc, dl, done, freq, n, m, 0);
    var g, delta := Shares(dl, |freq| + n - 1, m), AtLimit(dl, |freq|, n, m);
    ListingBelow(l, fc, freq, n);
    forall i | 0 <= i < n - 1 ensures Carries(l, g, delta, |freq|, n, i) {
      PairLabels(l, fc, dl, done, freq, n, m, i);
      ShareSplit(dl[|freq| + n - 2 - i], m);
    }
    LeafSum(l, fc, freq, n, g, delta);
    assert dl[|freq| + n - 2] == 0 by { RootLabel(l, fc, dl, done, freq, n, m); }
    ShareOfRoot(m);
  }

  lemma ShareOfRoot(m: nat)
    ensures Share(0, m) == Pow2(m)
  {
  }

  lemma RootLabel(l: seq<nat>, fc: seq<nat>, dl: seq<nat>, done: Lengths, freq: seq<nat>, n: nat, m: nat)
    requires Labels(l, fc, dl, done, freq, n, m)
    ensures n >= 2 && |freq| + n - 1 <= |dl| && dl[|freq| + n - 2] == 0
  {
  }

  lemma {:induction false} KraftIsSum(lens: Lengths, m: nat, s: seq<int>)
    requires Bounded(lens, m) && |s| == |lens|
    requires forall i :: 0 <= i < |s| ==> s[i] == if lens[i] > 0 then Share(lens[i], m) else 0
    ensures Kraft(lens, m) == Sum(s)
  {
    if lens != [] {
      KraftIsSum(lens[..|lens| - 1], m, s[..|s| - 1]);
    }
  }

  lemma {:induction false} CountIsSum(lens: Lengths, b: nat, s: seq<int>)
    requires |s| == |lens|
    requires forall i :: 0 <= i < |s| ==> s[i] == if lens[i] == b then 1 else 0
    ensures Count(lens, b) == Sum(s)
  {
    if lens != [] {
      CountIsSum(lens[..|lens| - 1], b, s[..|s| - 1]);
    }
  }

  /** The code space is overfull by half the number of clipped nodes. */
  lemma OverfullBy(l: seq<nat>, fc: seq<nat>, dl: seq<nat>, done: Lengths, freq: seq<nat>, n: nat, m: nat, overflow: int)
    requires Labels(l, fc, dl, done, freq, n, m)
    requires n >= 2 && |freq| + n - 1 <= |dl| && overflow == Sum(Clipped(dl, |freq|, n, m, 2 * n - 2))
    ensures Bounded(done, m) && overflow >= 0 && overflow % 2 == 0
    ensures Kraft(done, m) == Pow2(m) + overflow / 2
  {
    hide Labels, Clipped, AtLimit, Share, Sum;
    LeafLengths(l, fc, dl, done, freq, n, m);
    OverflowTwice(dl, |freq|, n, m);
    SharesSum(l, fc, dl, done, freq, n, m);
    KraftIsSum(done, m, LeafValues(freq, Shares(dl, |freq| + n - 1, m)));
  }

  // ---------- codes of maximal length ----------

  ghost function AreAt(dl: seq<nat>, k: nat, d: nat): (r: seq<int>)
    requires k <= |dl|
    ensures |r| == k
  {
    seq(k, v requires 0 <= v < k => if dl[v] == d then 1 else 0)
  }

  /** What the sons of each inner node add to the nodes at the limit. */
  ghost function LimitDelta(dl: seq<nat>, elems: nat, n: nat, m: nat): (r: seq<int>)
    requires m >= 1 && n >= 1 && elems + n - 1 <= |dl|
    ensures |r| == n - 1
  {
    seq(n - 1, i requires 0 <= i < n - 1 =>
      var d := dl[elems + n - 2 - i];
      if d == m then 1 else if d == m - 1 then 2 else 0)
  }

  lemma LimitSum(l: seq<nat>, fc: seq<nat>, dl: seq<nat>, done: Lengths, freq: seq<nat>, n: nat, m: nat)
    requires Labels(l, fc, dl, done, freq, n, m)
    ensures |freq| + n - 1 <= |dl| && n >= 2
    ensures Sum(LeafValues(freq, AreAt(dl, |freq| + n - 1, m))) == Sum(LimitDelta(dl, |freq|, n, m))
  {
    hide SonsAt, Used, Labelling, LeafValues;
    PairLabels(l, fc, dl, done, freq, n, m, 0);
    var g, delta := AreAt(dl, |freq| + n - 1, m), LimitDelta(dl, |freq|, n, m);
    ListingBelow(l, fc, freq, n);
    forall i | 0 <= i < n - 1 ensures Carries(l, g, delta, |freq|, n, i) {
      PairLabels(l, fc, dl, done, freq, n, m, i);
    }
    LeafSum(l, fc, freq, n, g, delta);
    RootLabel(l, fc, dl, done, freq, n, m);
  }

  /** Above every inner node at the limit there is one exactly one level higher. */
  lemma {:induction false} JustAbove(l: seq<nat>, fc: seq<nat>, dl: seq<nat>, done: Lengths, freq: seq<nat>, n: nat, m: nat, v: nat)
    returns (i: nat)
    requires Labels(l, fc, dl, done, freq, n, m) && |freq| <= v < |freq| + n - 1 <= |dl| && dl[v] == m
    ensures i < n - 1 && dl[|freq| + n - 2 - i] == m - 1
    decreases |freq| + n - v
  {
    hide Used;
    RootLabel(l, fc, dl, done, freq, n, m);
    assert IsUsed(freq, |freq| + n - 1, v);
    ListedIs(l, Used(freq, |freq| + n - 1), v) by { UsedIs(freq, n, v); }
    UsedIs(freq, n, v);
    var q :| 0 <= q < |l| && l[q] == v;
    assert LabelIs(l, dl, |freq|, n, m, q - 1);
    var f := Father(|freq|, n, q - 1);
    ListedBound(l, fc, dl, done, freq, n, m);
    if dl[f] == m {
      assert SonsAt(l, fc, |freq|, n, (q - 1) / 2);
      i := JustAbove(l, fc, dl, done, freq, n, m, f);
    } else {
      i := (q - 1) / 2;
    }
  }

  lemma UsedIs(freq: seq<nat>, n: nat, v: nat)
    requires n >= 1 && IsUsed(freq, |freq| + n - 1, v)
    ensures v in Used(freq, |freq| + n - 1)
  {
  }

  lemma {:induction false} SomePositive(s: seq<int>)
    requires Sum(s) > 0
    ensures exists i :: 0 <= i < |s| && s[i] > 0
  {
    if s[|s| - 1] <= 0 {
      SomePositive(s[..|s| - 1]);
      var i :| 0 <= i < |s| - 1 && s[..|s| - 1][i] > 0;
      assert s[i] > 0;
    }
  }

  /** When nodes were clipped, more codes have the maximal length than half their number. */
  lemma CodesAtLimit(l: seq<nat>, fc: seq<nat>, dl: seq<nat>, done: Lengths, freq: seq<nat>, n: nat, m: nat, overflow: int)
    requires Labels(l, fc, dl, done, freq, n, m)
    requires n >= 2 && |freq| + n - 1 <= |dl| && overflow == Sum(Clipped(dl, |freq|, n, m, 2 * n - 2))
    ensures overflow > 0 ==> Count(done, m) > overflow / 2
  {
    hide Labels, Clipped, Sum;
    LeafLengths(l, fc, dl, done, freq, n, m);
    OverflowTwice(dl, |freq|, n, m);
    LimitSum(l, fc, dl, done, freq, n, m);
    CountIsSum(done, m, LeafValues(freq, AreAt(dl, |freq| + n - 1, m))) by { LabelsLimit(l, fc, dl, done, freq, n, m); }
    LabelsLimit(l, fc, dl, done, freq, n, m);
    if overflow > 0 {
      var a, d := AtLimit(dl, |freq|, n, m), LimitDelta(dl, |freq|, n, m);
      SomePositive(a);
      var i :| 0 <= i < |a| && a[i] > 0;
      var j := JustAbove(l, fc, dl, done, freq, n, m, |freq| + n - 2 - i);
      SumLe(a[j := 1], d);
      SumUpdate(a, j, 1);
    }
  }

  lemma LabelsLimit(l: seq<nat>, fc: seq<nat>, dl: seq<nat>, done: Lengths, freq: seq<nat>, n: nat, m: nat)
    requires Labels(l, fc, dl, done, freq, n, m)
    ensures m >= 1
  {
  }

  // ---------- the number of codes ----------

  lemma LeafCount(l: seq<nat>, fc: seq<nat>, freq: seq<nat>, n: nat)
    requires Listing(l, fc, freq, n)
    ensures Sum(LeafValues(freq, seq(|freq| + n - 1, i => 1))) == n
  {
    hide SonsAt, Used, LeafValues;
    var g, delta: seq<int> := seq(|freq| + n - 1, i => 1), seq(n - 1, i => 1);
    ListingBelow(l, fc, freq, n);
    forall i | 0 <= i < n - 1 ensures Carries(l, g, delta, |freq|, n, i) {
    }
    LeafSum(l, fc, freq, n, g, delta);
    SumOnes(n - 1);
  }

  lemma {:induction false} SumOnes(k: nat)
    ensures Sum(seq(k, i => 1)) == k
  {
    if k > 0 {
      SumOnes(k - 1);
      assert seq(k, i => 1)[..k - 1] == seq(k - 1, i => 1);
    }
  }

  // ---------- optimality ----------

  ghost function WeightedLength(freq: seq<nat>, lens: Lengths): int
    requires |freq| == |lens|
  {
    Sum(seq(|freq|, i requires 0 <= i < |freq| => freq[i] * lens[i]))
  }

  ghost function PathCosts(fc: seq<nat>, dl: seq<nat>, k: nat): (r: seq<int>)
    requires k <= |fc| && k <= |dl|
    ensures |r| == k
  {
    seq(k, v requires 0 <= v < k => fc[v] * dl[v])
  }

  ghost function InnerFreqs(fc: seq<nat>, elems: nat, n: nat): (r: seq<int>)
    requires n >= 1 && elems + n - 1 <= |fc|
    ensures |r| == n - 1
  {
    seq(n - 1, i requires 0 <= i < n - 1 => fc[elems + n - 2 - i])
  }

  lemma {:induction false} InnerFreqsSum(t: seq<CtData>, elems: nat, n: nat, j: nat)
    requires n >= 1 && elems + n - 1 <= |t| && j <= n - 1
    ensures Sum(InnerFreqs(Freqs(t), elems, n)[n - 1 - j..]) == InnerWeight(t, elems, j)
  {
    var f := InnerFreqs(Freqs(t), elems, n);
    if j > 0 {
      InnerFreqsSum(t, elems, n, j - 1);
      assert f[n - 1 - j..] == [f[n - 1 - j]] + f[n - 1 - (j - 1)..];
      SumCons(f[n - 1 - j], f[n - 1 - (j - 1)..]);
    }
  }

  lemma PathSplit(a: nat, b: nat, c: nat, d: nat)
    requires a == b + c
    ensures b * (d + 1) + c * (d + 1) == a * d + a
  {
  }

  /** If no node was clipped, the lengths cost exactly what greedy merging costs. */
  lemma PathSum(l: seq<nat>, t: seq<CtData>, dl: seq<nat>, done: Lengths, freq: seq<nat>, n: nat, m: nat)
    requires Labels(l, Freqs(t), dl, done, freq, n, m) && |freq| + n - 1 <= |dl|
    requires forall v :: |freq| <= v < |freq| + n - 1 ==> dl[v] < m
    ensures |freq| + n - 1 <= |t|
    ensures Sum(LeafValues(freq, PathCosts(Freqs(t), dl, |freq| + n - 1))) == InnerWeight(t, |freq|, n - 1)
  {
    hide Listing, Labels, LeafValues, PathCosts, InnerFreqs, InnerWeight;
    var fc := Freqs(t);
    RootLabel(l, fc, dl, done, freq, n, m);
    LabelsListing(l, fc, dl, done, freq, n, m);
    var g, delta := PathCosts(fc, dl, |freq| + n - 1), InnerFreqs(fc, |freq|, n);
    forall i | 0 <= i < n - 1 ensures Carries(l, g, delta, |freq|, n, i) {
      PathPair(l, fc, dl, done, freq, n, m, i);
    }
    LeafSum(l, fc, freq, n, g, delta);
    assert g[|freq| + n - 2] == 0 by { RootPath(fc, dl, |freq| + n - 1); }
    InnerFreqsSum(t, |freq|, n, n - 1);
    assert delta[0..] == delta;
  }

  lemma RootPath(fc: seq<nat>, dl: seq<nat>, k: nat)
    requires 1 <= k <= |fc| && k <= |dl| && dl[k - 1] == 0
    ensures PathCosts(fc, dl, k)[k - 1] == 0
  {
  }

  lemma LabelsListing(l: seq<nat>, fc: seq<nat>, dl: seq<nat>, done: Lengths, freq: seq<nat>, n: nat, m: nat)
    requires Labels(l, fc, dl, done, freq, n, m)
    ensures Listing(l, fc, freq, n) && n >= 2 && |l| == 2 * n - 1 && |freq| + n - 1 <= |fc|
    ensures forall k :: 0 <= k < |l| ==> l[k] < |freq| + n - 1
  {
    hide SonsAt, Used;
    ListingBelow(l, fc, freq, n);
  }

  lemma PathPair(l: seq<nat>, fc: seq<nat>, dl: seq<nat>, done: Lengths, freq: seq<nat>, n: nat, m: nat, i: nat)
    requires Labels(l, fc, dl, done, freq, n, m) && i < n - 1
    requires |l| == 2 * n - 1 && |freq| + n - 1 <= |dl| && |freq| + n - 1 <= |fc|
    requires dl[|freq| + n - 2 - i] < m
    requires forall k :: 0 <= k < |l| ==> l[k] < |freq| + n - 1
    ensures Carries(l, PathCosts(fc, dl, |freq| + n - 1), InnerFreqs(fc, |freq|, n), |freq|, n, i)
  {
    PairLabels(l, fc, dl, done, freq, n, m, i);
    assert SonsAt(l, fc, |freq|, n, i);
    hide Labels, SonsAt;
    PathSplit(fc[|freq| + n - 2 - i], fc[l[2 * i + 1]], fc[l[2 * i + 2]], dl[|freq| + n - 2 - i]);
  }
}
