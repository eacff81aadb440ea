/** The depths in the tree that build_tree has listed: before any limit they are optimal, and the first pass clips them. */
module TreeDepths {
  import opened Arith
  import opened Canonical
  import opened CodeTables
  import opened HuffmanCost
  import opened HuffmanTree
  import opened TreeSums
  import opened BitLengths
  import opened CodeSpace

  /** Steps from node `v` up to the root; `dads` holds the father of every node. */
  ghost function Depth(dads: seq<nat>, root: nat, v: nat): nat
    decreases root - v
  {
    if v < root && v < |dads| && v < dads[v] <= root then 1 + Depth(dads, root, dads[v]) else 0
  }

  ghost function Depths(dads: seq<nat>, root: nat, k: nat): (r: seq<nat>)
    ensures |r| == k
  {
    seq(k, v requires 0 <= v < k => Depth(dads, root, v))
  }

  /** The sons of an inner node are one level deeper. */
  lemma SonDepths(l: seq<nat>, fc: seq<nat>, dads: seq<nat>, freq: seq<nat>, n: nat, i: nat)
    requires Listing(l, fc, freq, n) && FathersAre(l, dads, |freq|, n) && i < n - 1
    ensures var d := Depth(dads, |freq| + n - 2, |freq| + n - 2 - i);
            && Depth(dads, |freq| + n - 2, l[2 * i + 1]) == d + 1
            && Depth(dads, |freq| + n - 2, l[2 * i + 2]) == d + 1
  {
    hide Used;
    assert SonsAt(l, fc, |freq|, n, i);
    assert FatherIs(l, dads, |freq|, n, 2 * i) && FatherIs(l, dads, |freq|, n, 2 * i + 1);
  }

  lemma DepthCarries(l: seq<nat>, fc: seq<nat>, dads: seq<nat>, freq: seq<nat>, n: nat, i: nat)
    requires Listing(l, fc, freq, n) && FathersAre(l, dads, |freq|, n) && i < n - 1
    requires forall k :: 0 <= k < |l| ==> l[k] < |freq| + n - 1
    ensures Carries(l, PathCosts(fc, Depths(dads, |freq| + n - 2, |freq| + n - 1), |freq| + n - 1), InnerFreqs(fc, |freq|, n), |freq|, n, i)
  {
    hide Used, Depth;
    SonDepths(l, fc, dads, freq, n, i);
    assert SonsAt(l, fc, |freq|, n, i);
    var root := |freq| + n - 2;
    PathSplit(fc[root - i], fc[l[2 * i + 1]], fc[l[2 * i + 2]], Depth(dads, root, root - i));
  }

  /** The leaves of the merged tree, each frequency times its depth, cost what the merges cost. */
  lemma DepthSum(h: seq<nat>, t: seq<CtData>, freq: seq<nat>, max: nat, n: nat)
    requires TreeListed(h, t, freq, max, n)
    ensures |freq| + n - 1 <= |t| && n >= 2
    ensures Sum(LeafValues(freq, PathCosts(Freqs(t), Depths(Dads(t), |freq| + n - 2, |freq| + n - 1), |freq| + n - 1))) == Greedy(LiveWeights(freq))
  {
    hide Listing, LeafValues, PathCosts, InnerFreqs, InnerWeight, FathersAre, Depths, Used, AllSons, Greedy, LiveWeights, Carries;
    ListingOf(h, t, freq, max, n);
    var l, fc, dads := h[max..], Freqs(t), Dads(t);
    ListingBelow(l, fc, freq, n);
    var g, delta := PathCosts(fc, Depths(dads, |freq| + n - 2, |freq| + n - 1), |freq| + n - 1), InnerFreqs(fc, |freq|, n);
    forall i | 0 <= i < n - 1 ensures Carries(l, g, delta, |freq|, n, i) {
      DepthCarries(l, fc, dads, freq, n, i);
    }
    LeafSum(l, fc, freq, n, g, delta);
    RootCost(fc, dads, |freq| + n - 2);
    InnerFreqsSum(t, |freq|, n, n - 1);
    assert delta[0..] == delta;
  }

  lemma RootCost(fc: seq<nat>, dads: seq<nat>, root: nat)
    requires root < |fc|
    ensures PathCosts(fc, Depths(dads, root, root + 1), root + 1)[root] == 0
  {
  }

  /** Frequency times depth, over all symbols. */
  ghost function TreeCost(t: seq<CtData>, freq: seq<nat>, n: nat): int
    requires n >= 2
  {
    WeightedLength(freq, Depths(Dads(t), |freq| + n - 2, |freq|))
  }

  /**
   The tree that the merges leave in the table is optimal before the length limit applies:
   no full binary tree with the same weights at its leaves has a smaller sum.
   */
  lemma MergedTreeIsOptimal(h: seq<nat>, t: seq<CtData>, freq: seq<nat>, max: nat, n: nat, other: CodeTree)
    requires TreeListed(h, t, freq, max, n) && Weights(other.Leaves(0)) == LiveWeights(freq)
    ensures n >= 2 && TreeCost(t, freq, n) == Greedy(LiveWeights(freq)) <= Cost(other.Leaves(0))
  {
    hide InnerWeight, Used, AllSons, Greedy, LiveWeights, Sum, Depth;
    DepthSum(h, t, freq, max, n);
    TreeCostAtLeastGreedy(other);
    var root := |freq| + n - 2;
    var a := LeafValues(freq, PathCosts(Freqs(t), Depths(Dads(t), root, root + 1), root + 1));
    var b: seq<int> := seq(|freq|, i requires 0 <= i < |freq| => freq[i] * Depths(Dads(t), root, |freq|)[i]);
    forall i | 0 <= i < |freq| ensures a[i] == b[i] {
      LeafCost(freq, Freqs(t), Dads(t), root, i);
    }
    assert a == b;
  }

  lemma LeafCost(freq: seq<nat>, fc: seq<nat>, dads: seq<nat>, root: nat, i: nat)
    requires i < |freq| <= root < |fc| && fc[i] == freq[i]
    ensures LeafValues(freq, PathCosts(fc, Depths(dads, root, root + 1), root + 1))[i] == freq[i] * Depths(dads, root, |freq|)[i]
  {
  }

  // ---------- clipping ----------

  /** After the first pass every node is labelled with its depth in the merged tree, clipped to the limit. */
  lemma {:induction false} LabelIsDepth(l: seq<nat>, fc: seq<nat>, dads: seq<nat>, dl: seq<nat>, done: Lengths, freq: seq<nat>, n: nat, m: nat, v: nat)
    requires Labels(l, fc, dl, done, freq, n, m) && FathersAre(l, dads, |freq|, n) && IsUsed(freq, |freq| + n - 1, v)
    ensures v < |dl| && dl[v] == Clip(Depth(dads, |freq| + n - 2, v), m)
    decreases |freq| + n - 2 - v
  {
    hide Used;
    UsedIs(freq, n, v);
    ListedIs(l, Used(freq, |freq| + n - 1), v);
    var q :| 0 <= q < |l| && l[q] == v;
    RootLabel(l, fc, dl, done, freq, n, m);
    if q > 0 {
      assert LabelIs(l, dl, |freq|, n, m, q - 1);
      assert FatherIs(l, dads, |freq|, n, q - 1);
      assert SonsAt(l, fc, |freq|, n, (q - 1) / 2);
      LabelIsDepth(l, fc, dads, dl, done, freq, n, m, Father(|freq|, n, q - 1));
    }
  }

  /** No node of the merged tree is deeper than the limit. */
  ghost predicate DepthsFit(dads: seq<nat>, freq: seq<nat>, n: nat, m: nat)
    requires n >= 2
  {
    forall v: nat :: NodeFits(dads, freq, n, m, v)
  }

  ghost predicate NodeFits(dads: seq<nat>, freq: seq<nat>, n: nat, m: nat, v: nat)
    requires n >= 2
  {
    IsUsed(freq, |freq| + n - 1, v) ==> Depth(dads, |freq| + n - 2, v) <= m
  }

  /** When the tree is not too deep the first pass clips nothing: the lengths are the depths. */
  lemma FittingDepths(l: seq<nat>, fc: seq<nat>, dads: seq<nat>, dl: seq<nat>, done: Lengths, freq: seq<nat>, n: nat, m: nat)
    requires Labels(l, fc, dl, done, freq, n, m) && FathersAre(l, dads, |freq|, n)
    requires n >= 2 && |freq| + n - 1 <= |dl| && DepthsFit(dads, freq, n, m)
    ensures Sum(Clipped(dl, |freq|, n, m, 2 * n - 2)) == 0
    ensures forall i :: 0 <= i < |freq| && freq[i] > 0 ==> dl[i] == Depth(dads, |freq| + n - 2, i)
  {
    hide Depth, Labelling, Listing, FathersAre;
    forall i | 0 <= i < |freq| && freq[i] > 0 ensures dl[i] == Depth(dads, |freq| + n - 2, i) {
      LabelIsDepth(l, fc, dads, dl, done, freq, n, m, i);
      assert NodeFits(dads, freq, n, m, i);
    }
    var a := AtLimit(dl, |freq|, n, m);
    forall i | 0 <= i < |a| ensures a[i] == 0 {
      InnerFits(l, fc, dads, dl, done, freq, n, m, i);
    }
    SumZero(a);
    OverflowTwice(dl, |freq|, n, m);
  }

  lemma InnerFits(l: seq<nat>, fc: seq<nat>, dads: seq<nat>, dl: seq<nat>, done: Lengths, freq: seq<nat>, n: nat, m: nat, i: nat)
    requires Labels(l, fc, dl, done, freq, n, m) && FathersAre(l, dads, |freq|, n)
    requires n >= 2 && |freq| + n - 1 <= |dl| && DepthsFit(dads, freq, n, m) && i < n - 1
    ensures dl[|freq| + n - 2 - i] < m
  {
    hide Depth, Labelling, FathersAre, Used;
    var root := |freq| + n - 2;
    assert IsUsed(freq, |freq| + n - 1, root - i);
    LabelIsDepth(l, fc, dads, dl, done, freq, n, m, root - i);
    SonDepths(l, fc, dads, freq, n, i);
    ListingBelow(l, fc, freq, n);
    assert NodeFits(dads, freq, n, m, l[2 * i + 1]);
  }

  /** No code has the maximal length. */
  ghost predicate BelowLimit(lens: Lengths, m: nat)
  {
    forall i :: 0 <= i < |lens| ==> lens[i] < m
  }

  lemma {:induction false} SomeAtLimit(lens: Lengths, m: nat)
    requires Count(lens, m) > 0
    ensures !BelowLimit(lens, m)
  {
    var e := |lens| - 1;
    if lens[e] != m {
      SomeAtLimit(lens[..e], m);
      var i :| 0 <= i < e && lens[..e][i] >= m;
      assert lens[i] >= m;
    }
  }
}
