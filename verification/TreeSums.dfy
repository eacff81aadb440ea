/**
 The tree that build_tree lists in the heap array, as a list of nodes: the root
 first, then the two sons of each inner node, fathers before their sons.  One
 lemma about sums over its leaves serves for the cost, the code space and the
 number of codes of maximal length.
 */
module TreeSums {
  import opened Arith
  import opened CodeTables
  import opened TreeHeap
  import opened HuffmanTree

  /** Father of entry `k + 1` of the list. */
  ghost function Father(elems: nat, n: nat, k: nat): nat
    requires n >= 2 && k < 2 * n - 2
  {
    elems + n - 2 - k / 2
  }

  ghost predicate SonsAt(l: seq<nat>, fc: seq<nat>, elems: nat, n: nat, m: nat)
    requires n >= 2 && m < n - 1 && |l| == 2 * n - 1
  {
    var dad := elems + n - 2 - m;
    && l[2 * m + 1] < dad < |fc| && l[2 * m + 2] < dad
    && fc[dad] == fc[l[2 * m + 1]] + fc[l[2 * m + 2]]
  }

  /** `l` lists the nodes of a tree with `n` leaves, the symbols of non-zero frequency. */
  ghost predicate Listing(l: seq<nat>, fc: seq<nat>, freq: seq<nat>, n: nat)
  {
    && n >= 2 && |l| == 2 * n - 1 && |freq| + n - 1 <= |fc|
    && l[0] == |freq| + n - 2
    && multiset(l) == multiset(Used(freq, |freq| + n - 1))
    && (forall m :: 0 <= m < n - 1 ==> SonsAt(l, fc, |freq|, n, m))
    && (forall i :: 0 <= i < |freq| ==> fc[i] == freq[i])
  }

  ghost function Freqs(t: seq<CtData>): (r: seq<nat>)
    ensures |r| == |t| && forall i :: 0 <= i < |t| ==> r[i] == t[i].fc
  {
    seq(|t|, i requires 0 <= i < |t| => t[i].fc)
  }

  /** Every listed node but the root points to its father. */
  ghost predicate FathersAre(l: seq<nat>, dl: seq<nat>, elems: nat, n: nat)
    requires n >= 2 && |l| == 2 * n - 1
  {
    forall k :: 0 <= k < 2 * n - 2 ==> FatherIs(l, dl, elems, n, k)
  }

  ghost predicate FatherIs(l: seq<nat>, dl: seq<nat>, elems: nat, n: nat, k: nat)
    requires n >= 2 && |l| == 2 * n - 1 && k < 2 * n - 2
  {
    l[k + 1] < |dl| && dl[l[k + 1]] == Father(elems, n, k)
  }

  ghost function Dads(t: seq<CtData>): (r: seq<nat>)
    ensures |r| == |t| && forall i :: 0 <= i < |t| ==> r[i] == t[i].dl
  {
    seq(|t|, i requires 0 <= i < |t| => t[i].dl)
  }

  lemma ListingPair(h: seq<nat>, t: seq<CtData>, freq: seq<nat>, max: nat, n: nat, m: nat)
    requires TreeListed(h, t, freq, max, n) && m < n - 1
    ensures |h[max..]| == 2 * n - 1
    ensures SonsAt(h[max..], Freqs(t), |freq|, n, m)
    ensures t[h[max..][2 * m + 1]].dl == t[h[max..][2 * m + 2]].dl == |freq| + n - 2 - m
  {
    hide InnerWeight, Used;
    var l := h[max..];
    assert Sons(h, t, |freq|, n - 2 - m);
    assert l[2 * m + 1] == h[HEAP_SIZE - 2 - 2 * (n - 2 - m)];
    assert l[2 * m + 2] == h[HEAP_SIZE - 1 - 2 * (n - 2 - m)];
  }

  lemma ListingOf(h: seq<nat>, t: seq<CtData>, freq: seq<nat>, max: nat, n: nat)
    requires TreeListed(h, t, freq, max, n)
    ensures Listing(h[max..], Freqs(t), freq, n)
    ensures FathersAre(h[max..], Dads(t), |freq|, n)
  {
    hide InnerWeight, Used, SonsAt, AllSons;
    var l := h[max..];
    forall m | 0 <= m < n - 1 ensures SonsAt(l, Freqs(t), |freq|, n, m) {
      ListingPair(h, t, freq, max, n, m);
    }
    forall k | 0 <= k < 2 * n - 2 ensures FatherIs(l, Dads(t), |freq|, n, k) {
      FatherOf(h, t, freq, max, n, k);
    }
  }

  lemma FatherOf(h: seq<nat>, t: seq<CtData>, freq: seq<nat>, max: nat, n: nat, k: nat)
    requires TreeListed(h, t, freq, max, n) && k < 2 * n - 2
    ensures |h[max..]| == 2 * n - 1
    ensures h[max..][k + 1] < |t| && t[h[max..][k + 1]].dl == Father(|freq|, n, k)
  {
    ListingPair(h, t, freq, max, n, k / 2);
    assert k == 2 * (k / 2) || k == 2 * (k / 2) + 1;
  }

  lemma ListedOnce(l: seq<nat>, s: set<nat>, p: nat, q: nat)
    requires multiset(l) == multiset(s) && p < q < |l|
    ensures l[p] != l[q]
  {
    assert l == l[..q] + ([l[q]] + l[q + 1..]);
    assert multiset(l)[l[q]] <= 1;
    assert multiset(l[..q])[l[q]] == 0;
    assert l[..q][p] in multiset(l[..q]);
  }

  lemma ListedIs(l: seq<nat>, s: set<nat>, x: nat)
    requires multiset(l) == multiset(s)
    ensures x in s <==> x in l
  {
    assert x in multiset(l) <==> x in l;
  }

  /** A father is listed before its sons. */
  lemma FatherEarlier(l: seq<nat>, fc: seq<nat>, freq: seq<nat>, n: nat, k: nat) returns (q: nat)
    requires Listing(l, fc, freq, n) && k < 2 * n - 2
    ensures q <= k && l[q] == Father(|freq|, n, k)
  {
    var dad := Father(|freq|, n, k);
    assert IsUsed(freq, |freq| + n - 1, dad);
    ListedIs(l, Used(freq, |freq| + n - 1), dad);
    q :| 0 <= q < |l| && l[q] == dad;
    if q > 0 {
      var m := (q - 1) / 2;
      assert SonsAt(l, fc, |freq|, n, m);
      assert q == 2 * m + 1 || q == 2 * m + 2;
    }
  }

  lemma FatherIsNot(l: seq<nat>, fc: seq<nat>, freq: seq<nat>, n: nat, k: nat, p: nat)
    requires Listing(l, fc, freq, n) && k <= p < 2 * n - 2
    ensures Father(|freq|, n, k) != l[p + 1]
  {
    var q := FatherEarlier(l, fc, freq, n, k);
    ListedOnce(l, Used(freq, |freq| + n - 1), q, p + 1);
  }

  // ---------- sums over a listing ----------

  ghost function Picked(l: seq<nat>, g: seq<int>): (r: seq<int>)
    requires forall k :: 0 <= k < |l| ==> l[k] < |g|
    ensures |r| == |l|
  {
    seq(|l|, k requires 0 <= k < |l| => g[l[k]])
  }

  ghost function Masked(s: set<nat>, g: seq<int>): (r: seq<int>)
    ensures |r| == |g|
  {
    seq(|g|, i requires 0 <= i < |g| => if i in s then g[i] else 0)
  }

  lemma {:induction false} PickedSum(l: seq<nat>, s: set<nat>, g: seq<int>)
    requires multiset(l) == multiset(s)
    requires forall k :: 0 <= k < |l| ==> l[k] < |g|
    ensures Sum(Picked(l, g)) == Sum(Masked(s, g))
    decreases |l|
  {
    if l == [] {
      EmptyListing(s);
      SumZero(Masked(s, g));
    } else {
      hide Picked, Masked;
      var x := l[|l| - 1];
      ListingDrop(l, s);
      PickedSum(l[..|l| - 1], s - {x}, g);
      PickedDrop(l, g);
      MaskedDrop(s, x, g);
    }
  }

  lemma EmptyListing(s: set<nat>)
    requires multiset(s) == multiset{}
    ensures s == {}
  {
    forall x ensures x !in s {
      assert x in s <==> x in multiset(s);
    }
  }

  lemma ListingDrop(l: seq<nat>, s: set<nat>)
    requires l != [] && multiset(l) == multiset(s)
    ensures l[|l| - 1] in s && multiset(l[..|l| - 1]) == multiset(s - {l[|l| - 1]})
  {
    var x := l[|l| - 1];
    assert l == l[..|l| - 1] + [x];
    ListedIs(l, s, x);
    assert multiset(l[..|l| - 1]) == multiset(l) - multiset{x};
    assert multiset(s - {x}) == multiset(s) - multiset{x};
  }

  lemma PickedDrop(l: seq<nat>, g: seq<int>)
    requires l != [] && forall k :: 0 <= k < |l| ==> l[k] < |g|
    ensures Sum(Picked(l, g)) == Sum(Picked(l[..|l| - 1], g)) + g[l[|l| - 1]]
  {
    assert Picked(l, g)[..|l| - 1] == Picked(l[..|l| - 1], g);
  }

  lemma MaskedDrop(s: set<nat>, x: nat, g: seq<int>)
    requires x in s && x < |g|
    ensures Sum(Masked(s, g)) == Sum(Masked(s - {x}, g)) + g[x]
  {
    assert Masked(s, g) == Masked(s - {x}, g)[x := g[x]];
    SumUpdate(Masked(s - {x}, g), x, g[x]);
  }

  /** The sons of inner node `i` of the list carry `delta[i]` more than the node. */
  ghost predicate Carries(l: seq<nat>, g: seq<int>, delta: seq<int>, elems: nat, n: nat, i: nat)
    requires n >= 2 && |l| == 2 * n - 1 && elems + n - 1 <= |g| && i < n - 1 == |delta|
    requires forall k :: 0 <= k < |l| ==> l[k] < |g|
  {
    g[l[2 * i + 1]] + g[l[2 * i + 2]] == g[elems + n - 2 - i] + delta[i]
  }

  lemma {:induction false} PairSum(l: seq<nat>, fc: seq<nat>, elems: nat, n: nat, g: seq<int>, delta: seq<int>, m: nat)
    requires n >= 2 && |l| == 2 * n - 1 && m <= n - 1 == |delta| && elems + n - 1 <= |g|
    requires forall k :: 0 <= k < |l| ==> l[k] < |g|
    requires forall i :: 0 <= i < n - 1 ==> Carries(l, g, delta, elems, n, i)
    ensures Sum(Picked(l, g)[1..2 * m + 1]) == Sum(g[elems + n - 1 - m..elems + n - 1]) + Sum(delta[..m])
  {
    if m == 0 {
    } else {
      PairSum(l, fc, elems, n, g, delta, m - 1);
      assert delta[..m] == delta[..m - 1] + [delta[m - 1]];
      SumSnoc(delta[..m - 1], delta[m - 1]);
      var dad := elems + n - 1 - m;
      assert g[dad..elems + n - 1] == [g[dad]] + g[dad + 1..elems + n - 1];
      SumCons(g[dad], g[dad + 1..elems + n - 1]);
      PickedPair(l, g, m);
      assert Carries(l, g, delta, elems, n, m - 1);
    }
  }

  lemma PickedPair(l: seq<nat>, g: seq<int>, m: nat)
    requires 1 <= m && 2 * m + 1 <= |l| && forall k :: 0 <= k < |l| ==> l[k] < |g|
    ensures Sum(Picked(l, g)[1..2 * m + 1])
         == Sum(Picked(l, g)[1..2 * (m - 1) + 1]) + g[l[2 * (m - 1) + 1]] + g[l[2 * (m - 1) + 2]]
  {
    var p := Picked(l, g);
    assert p[1..2 * m + 1] == p[1..2 * m] + [p[2 * m]];
    assert p[1..2 * m] == p[1..2 * (m - 1) + 1] + [p[2 * m - 1]];
    SumSnoc(p[1..2 * m], p[2 * m]);
    SumSnoc(p[1..2 * (m - 1) + 1], p[2 * m - 1]);
  }

  lemma SumSnoc(s: seq<int>, x: int)
    ensures Sum(s + [x]) == Sum(s) + x
  {
    assert (s + [x])[..|s|] == s;
  }

  lemma SumCons(x: int, s: seq<int>)
    ensures Sum([x] + s) == x + Sum(s)
  {
    SumConcat([x], s);
    SumOne(x);
  }

  lemma SumOne(x: int)
    ensures Sum([x]) == x
  {
    assert [x][..0] == [];
  }

  /** `g` of each leaf, 0 for symbols that are not leaves. */
  ghost function LeafValues(freq: seq<nat>, g: seq<int>): (r: seq<int>)
    requires |freq| <= |g|
    ensures |r| == |freq|
  {
    seq(|freq|, i requires 0 <= i < |freq| => if freq[i] > 0 then g[i] else 0)
  }

  lemma MaskedSplit(freq: seq<nat>, n: nat, g: seq<int>)
    requires n >= 1 && |g| == |freq| + n - 1
    ensures Masked(Used(freq, |freq| + n - 1), g) == LeafValues(freq, g) + g[|freq|..]
  {
    var s := Used(freq, |freq| + n - 1);
    forall i | 0 <= i < |g| ensures i in s <==> IsUsed(freq, |freq| + n - 1, i) {
    }
  }

  /**
   If the two sons of every inner node together carry `delta` more than the
   node itself, the leaves carry what the root carries plus all the deltas.
   */
  lemma LeafSum(l: seq<nat>, fc: seq<nat>, freq: seq<nat>, n: nat, g: seq<int>, delta: seq<int>)
    requires Listing(l, fc, freq, n) && |g| == |freq| + n - 1 && |delta| == n - 1
    requires forall k :: 0 <= k < |l| ==> l[k] < |g|
    requires forall i :: 0 <= i < n - 1 ==> Carries(l, g, delta, |freq|, n, i)
    ensures Sum(LeafValues(freq, g)) == g[|freq| + n - 2] + Sum(delta)
  {
    hide Used, Masked, LeafValues, SonsAt, Picked;
    ListSum(l, fc, |freq|, n, g, delta);
    PickedSum(l, Used(freq, |freq| + n - 1), g);
    MaskedSplit(freq, n, g);
    SumConcat(LeafValues(freq, g), g[|freq|..]);
  }

  lemma ListSum(l: seq<nat>, fc: seq<nat>, elems: nat, n: nat, g: seq<int>, delta: seq<int>)
    requires n >= 2 && |l| == 2 * n - 1 && |g| == elems + n - 1 && |delta| == n - 1
    requires forall k :: 0 <= k < |l| ==> l[k] < |g|
    requires forall i :: 0 <= i < n - 1 ==> Carries(l, g, delta, elems, n, i)
    ensures Sum(Picked(l, g)) == g[l[0]] + Sum(g[elems..]) + Sum(delta)
  {
    PairSum(l, fc, elems, n, g, delta, n - 1);
    assert delta[..n - 1] == delta;
    assert g[elems..elems + n - 1] == g[elems..];
    var p := Picked(l, g);
    assert p == [g[l[0]]] + p[1..2 * (n - 1) + 1];
    SumCons(g[l[0]], p[1..2 * (n - 1) + 1]);
  }

  lemma ListingBelow(l: seq<nat>, fc: seq<nat>, freq: seq<nat>, n: nat)
    requires Listing(l, fc, freq, n)
    ensures forall k :: 0 <= k < |l| ==> l[k] < |freq| + n - 1 && IsUsed(freq, |freq| + n - 1, l[k])
  {
    forall k | 0 <= k < |l| ensures l[k] < |freq| + n - 1 && IsUsed(freq, |freq| + n - 1, l[k]) {
      ListedIs(l, Used(freq, |freq| + n - 1), l[k]);
    }
  }
}
