/** The binary heap that orders tree nodes by frequency, then by subtree depth. */
module TreeHeap {
  import opened CodeTables

  const L_CODES: nat := 286
  const HEAP_SIZE: nat := 2 * L_CODES + 1

  /** The order of macro SMALLER. */
  predicate Smaller(t: seq<CtData>, d: seq<nat>, n: nat, m: nat)
    requires n < |t| && m < |t| && n < |d| && m < |d|
  {
    t[n].fc < t[m].fc || (t[n].fc == t[m].fc && d[n] <= d[m])
  }

  /** Slots 1 .. len of the heap hold node numbers of the tree. */
  ghost predicate Nodes(h: seq<nat>, len: nat, t: seq<CtData>, d: seq<nat>)
  {
    len < |h| && forall i :: 1 <= i <= len ==> h[i] < |t| && h[i] < |d|
  }

  /** No node below slot `k` or one of its successors comes before its father. */
  ghost predicate OrderedFrom(h: seq<nat>, len: nat, t: seq<CtData>, d: seq<nat>, k: nat)
    requires Nodes(h, len, t, d)
  {
    forall j :: 2 <= j <= len && k <= j / 2 ==> Smaller(t, d, h[j / 2], h[j])
  }

  /** The order while slot `k` is a hole for a node that may still sink. */
  ghost predicate Sinking(h: seq<nat>, len: nat, t: seq<CtData>, d: seq<nat>, k0: nat, k: nat)
    requires Nodes(h, len, t, d)
  {
    && (forall j :: 2 <= j <= len && k0 <= j / 2 && j / 2 != k ==> Smaller(t, d, h[j / 2], h[j]))
    && (forall j :: 2 <= j <= len && j / 2 == k && k0 <= k / 2 && 1 <= k / 2 ==> Smaller(t, d, h[k / 2], h[j]))
  }

  /** `g` rearranges slots k0 .. len of `h` and changes nothing else. */
  ghost predicate Rearranged(g: seq<nat>, h: seq<nat>, len: nat, k0: nat)
  {
    && |g| == |h| && k0 <= len < |h|
    && multiset(g) == multiset(h)
    && g[..k0] == h[..k0] && g[len + 1..] == h[len + 1..]
  }

  method PqDownHeap(tree: array<CtData>, depth: array<nat>, heap: array<nat>, heapLen: nat, k0: nat)
    requires heap != depth
    requires 1 <= k0 <= heapLen && Nodes(heap[..], heapLen, tree[..], depth[..])
    requires OrderedFrom(heap[..], heapLen, tree[..], depth[..], k0 + 1)
    modifies heap
    ensures Nodes(heap[..], heapLen, tree[..], depth[..])
    ensures OrderedFrom(heap[..], heapLen, tree[..], depth[..], k0)
    ensures Rearranged(heap[..], old(heap[..]), heapLen, k0)
  {
    hide Sinking, OrderedFrom, Swapped, Rearranged, Smaller;
    var k := k0;
    var v := heap[k];
    var j := 2 * k;
    ghost var t, d, h0 := tree[..], depth[..], heap[..];
    ghost var g := h0;
    SinkingStart(g, heapLen, t, d, k0);
    while j <= heapLen
      invariant k0 <= k <= heapLen && j == 2 * k
      invariant |g| == heap.Length && heap[..][k := v] == g
      invariant Nodes(g, heapLen, t, d) && Sinking(g, heapLen, t, d, k0, k)
      invariant Rearranged(g, h0, heapLen, k0)
      invariant tree[..] == t && depth[..] == d
      decreases heapLen - k
    {
      HoleElsewhere(heap[..], g, k, v);
      if j < heapLen && SmallerIn(tree, depth, heap[j + 1], heap[j]) {
        j := j + 1;
      }
      if j != 2 * k { SmallerTotal(t, d, g[j], g[j - 1]); }
      SonIsSmaller(g, heapLen, t, d, k, j);
      if SmallerIn(tree, depth, v, heap[j]) {
        SinkingDone(g, heapLen, t, d, k0, k, j);
        break;
      }
      SinkingStep(g, heapLen, t, d, k0, k, j);
      SwapRearranged(g, h0, heapLen, k0, k, j);
      HoleStep(heap[..], g, k, v, j);
      g := Swapped(g, k, j);
      heap[k] := heap[j];
      k := j;
      j := 2 * j;
    }
    if j > heapLen {
      SinkingLeaf(g, heapLen, t, d, k0, k);
    }
    heap[k] := v;
    assert heap[..] == g;
  }

  lemma SinkingStart(h: seq<nat>, len: nat, t: seq<CtData>, d: seq<nat>, k0: nat)
    requires Nodes(h, len, t, d) && 1 <= k0 <= len && OrderedFrom(h, len, t, d, k0 + 1)
    ensures Sinking(h, len, t, d, k0, k0)
    ensures Rearranged(h, h, len, k0)
  {
  }

  lemma SinkingLeaf(h: seq<nat>, len: nat, t: seq<CtData>, d: seq<nat>, k0: nat, k: nat)
    requires Nodes(h, len, t, d) && 1 <= k && Sinking(h, len, t, d, k0, k) && 2 * k > len
    ensures OrderedFrom(h, len, t, d, k0)
  {
  }

  lemma HoleElsewhere(a: seq<nat>, g: seq<nat>, k: nat, v: nat)
    requires k < |a| && a[k := v] == g
    ensures g[k] == v && forall i :: 0 <= i < |g| && i != k ==> a[i] == g[i]
  {
  }

  lemma HoleStep(a: seq<nat>, g: seq<nat>, k: nat, v: nat, j: nat)
    requires k < |a| && j < |a| && j != k && a[k := v] == g
    ensures a[k := a[j]][j := v] == Swapped(g, k, j)
  {
  }

  lemma SwapRearranged(g: seq<nat>, h: seq<nat>, len: nat, k0: nat, k: nat, j: nat)
    requires Rearranged(g, h, len, k0) && k0 <= k < j <= len
    ensures Rearranged(Swapped(g, k, j), h, len, k0)
  {
    SwapMultiset(g, k, j);
    assert Swapped(g, k, j)[..k0] == g[..k0];
    assert Swapped(g, k, j)[len + 1..] == g[len + 1..];
  }

  lemma SmallerTotal(t: seq<CtData>, d: seq<nat>, n: nat, m: nat)
    requires n < |t| && m < |t| && n < |d| && m < |d|
    ensures Smaller(t, d, n, m) || Smaller(t, d, m, n)
    ensures Smaller(t, d, n, n)
  {
  }

  predicate SmallerIn(tree: array<CtData>, depth: array<nat>, n: nat, m: nat)
    requires n < tree.Length && m < tree.Length && n < depth.Length && m < depth.Length
    reads tree, depth
    ensures SmallerIn(tree, depth, n, m) <==> Smaller(tree[..], depth[..], n, m)
  {
    tree[n].fc < tree[m].fc || (tree[n].fc == tree[m].fc && depth[n] <= depth[m])
  }

  ghost function Swapped(h: seq<nat>, i: nat, j: nat): (r: seq<nat>)
    requires i < |h| && j < |h|
    ensures |r| == |h|
  {
    h[i := h[j]][j := h[i]]
  }

  lemma SwapMultiset(h: seq<nat>, i: nat, j: nat)
    requires i < |h| && j < |h| && i != j
    ensures multiset(Swapped(h, i, j)) == multiset(h)
  {
  }

  /** The smaller son `j` of `k`. */
  ghost predicate IsSmallerSon(h: seq<nat>, len: nat, t: seq<CtData>, d: seq<nat>, k: nat, j: nat)
    requires Nodes(h, len, t, d)
  {
    && 2 <= j <= len && j / 2 == k
    && forall i :: 2 <= i <= len && i / 2 == k ==> Smaller(t, d, h[j], h[i])
  }

  lemma SonIsSmaller(h: seq<nat>, len: nat, t: seq<CtData>, d: seq<nat>, k: nat, j: nat)
    requires Nodes(h, len, t, d) && 1 <= k
    requires 2 * k <= j <= len && j <= 2 * k + 1
    requires if j == 2 * k then j == len || !Smaller(t, d, h[j + 1], h[j]) else Smaller(t, d, h[j], h[j - 1])
    ensures IsSmallerSon(h, len, t, d, k, j)
  {
    forall i | 2 <= i <= len && i / 2 == k ensures Smaller(t, d, h[j], h[i]) {
      assert i == 2 * k || i == 2 * k + 1;
    }
  }

  lemma SinkingDone(h: seq<nat>, len: nat, t: seq<CtData>, d: seq<nat>, k0: nat, k: nat, j: nat)
    requires Nodes(h, len, t, d) && 1 <= k0 <= k && Sinking(h, len, t, d, k0, k)
    requires IsSmallerSon(h, len, t, d, k, j) && Smaller(t, d, h[k], h[j])
    ensures OrderedFrom(h, len, t, d, k0)
  {
  }

  lemma SinkingStep(h: seq<nat>, len: nat, t: seq<CtData>, d: seq<nat>, k0: nat, k: nat, j: nat)
    requires Nodes(h, len, t, d) && 1 <= k0 <= k && Sinking(h, len, t, d, k0, k)
    requires IsSmallerSon(h, len, t, d, k, j) && !Smaller(t, d, h[k], h[j])
    ensures Nodes(Swapped(h, k, j), len, t, d) && Sinking(Swapped(h, k, j), len, t, d, k0, j)
  {
    var g := Swapped(h, k, j);
    assert Nodes(g, len, t, d);
    forall i | 2 <= i <= len && k0 <= i / 2 && i / 2 != j ensures Smaller(t, d, g[i / 2], g[i]) {
      if i / 2 == k {
      } else if i == k {
        assert g[i / 2] == h[k / 2] && g[i] == h[j];
      } else {
        assert i != j && g[i] == h[i] && g[i / 2] == h[i / 2];
      }
    }
    forall i | 2 <= i <= len && i / 2 == j ensures Smaller(t, d, g[j / 2], g[i]) {
      assert i != k && i != j && g[i] == h[i] && g[j / 2] == h[j];
    }
  }

  /** The root of an ordered heap is least. */
  lemma {:induction false} RootIsLeast(h: seq<nat>, len: nat, t: seq<CtData>, d: seq<nat>, i: nat)
    requires Nodes(h, len, t, d) && OrderedFrom(h, len, t, d, 1)
    requires 1 <= i <= len
    ensures t[h[1]].fc <= t[h[i]].fc
  {
    if i > 1 {
      RootIsLeast(h, len, t, d, i / 2);
      assert Smaller(t, d, h[i / 2], h[i]);
    }
  }
}
