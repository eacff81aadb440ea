/**
 The heap loop of build_tree: repeatedly remove the two least frequent nodes,
 list them in the upper part of the heap array and put their father back.
 */
module HuffmanTree {
  import opened Arith
  import opened CodeTables
  import opened TreeHeap
  import opened HuffmanCost

  // ---------- what the two parts of the heap array hold ----------

  /** `live` gives the frequency of every node still in the heap, and 0 elsewhere. */
  ghost function LiveSet(live: seq<nat>): set<nat>
  {
    set i | 0 <= i < |live| && live[i] > 0
  }

  /** The weights in `live`. */
  ghost function LiveWeights(live: seq<nat>): multiset<nat>
  {
    multiset(live)[0 := 0]
  }

  /** A leaf with a frequency, or an inner node made so far. */
  ghost predicate IsUsed(freq: seq<nat>, node: nat, i: nat)
  {
    if i < |freq| then freq[i] > 0 else i < node
  }

  ghost function Used(freq: seq<nat>, node: nat): set<nat>
  {
    set i: nat | i < node + |freq| && IsUsed(freq, node, i)
  }

  ghost predicate Stock(h: seq<nat>, len: nat, live: seq<nat>)
  {
    len < |h| && multiset(h[1..len + 1]) == multiset(LiveSet(live))
  }

  ghost predicate Listed(h: seq<nat>, max: nat, freq: seq<nat>, node: nat, live: seq<nat>)
  {
    max <= |h| && multiset(h[max..]) == multiset(Used(freq, node) - LiveSet(live))
  }

  /** The sons of inner node number `i`. */
  ghost predicate Sons(h: seq<nat>, t: seq<CtData>, elems: nat, i: nat)
    requires |h| == HEAP_SIZE && 2 * i + 2 <= HEAP_SIZE
  {
    var a, b := h[HEAP_SIZE - 1 - 2 * i], h[HEAP_SIZE - 2 - 2 * i];
    && a < elems + i < |t| && b < elems + i
    && t[a].dl == elems + i && t[b].dl == elems + i
    && t[elems + i].fc == t[a].fc + t[b].fc
  }

  ghost predicate AllSons(h: seq<nat>, t: seq<CtData>, elems: nat, j: nat)
  {
    && |h| == HEAP_SIZE && 2 * j <= HEAP_SIZE
    && forall i :: 0 <= i < j ==> Sons(h, t, elems, i)
  }

  ghost predicate Frequencies(t: seq<CtData>, freq: seq<nat>, live: seq<nat>, node: nat)
  {
    && |live| == |t| && |freq| <= node <= |t|
    && (forall i :: 0 <= i < |freq| ==> t[i].fc == freq[i])
    && (forall i :: 0 <= i < |freq| && freq[i] == 0 ==> t[i].dl == 0)
    && (forall i :: 0 <= i < |t| && live[i] > 0 ==> i < node && t[i].fc == live[i])
  }

  ghost function InnerWeight(t: seq<CtData>, elems: nat, j: nat): nat
    requires elems + j <= |t|
  {
    if j == 0 then 0 else InnerWeight(t, elems, j - 1) + t[elems + j - 1].fc
  }

  /** Weight of the inner nodes so far plus what greedy merging will still add. */
  ghost predicate OnCourse(t: seq<CtData>, freq: seq<nat>, live: seq<nat>, j: nat)
  {
    && |freq| + j <= |t|
    && InnerWeight(t, |freq|, j) + Greedy(LiveWeights(live)) == Greedy(LiveWeights(freq))
  }

  /** The state of build_tree after `j` merges. */
  ghost predicate Merging(h: seq<nat>, t: seq<CtData>, d: seq<nat>, freq: seq<nat>, live: seq<nat>,
                          len: nat, max: nat, j: nat)
  {
    && |freq| <= L_CODES && |t| == 2 * |freq| + 1 && |d| == HEAP_SIZE && |h| == HEAP_SIZE
    && len + j <= |freq| && max == HEAP_SIZE - 2 * j
    && Stock(h, len, live)
    && Listed(h, max, freq, |freq| + j, live)
    && AllSons(h, t, |freq|, j)
    && Frequencies(t, freq, live, |freq| + j)
    && OnCourse(t, freq, live, j)
    && Sum(live) == Sum(freq)
  }

  // ---------- lemmas about sets and slices ----------

  lemma SliceMultiset(g: seq<nat>, h: seq<nat>, a: nat, b: nat)
    requires |g| == |h| && a <= b <= |h| && multiset(g) == multiset(h)
    requires g[..a] == h[..a] && g[b..] == h[b..]
    ensures multiset(g[a..b]) == multiset(h[a..b])
  {
    assert g == g[..a] + g[a..b] + g[b..];
    assert h == h[..a] + h[a..b] + h[b..];
    assert multiset(g[a..b]) == multiset(g) - multiset(g[..a]) - multiset(g[b..]);
    assert multiset(h[a..b]) == multiset(h) - multiset(h[..a]) - multiset(h[b..]);
  }

  lemma StockSlot(h: seq<nat>, len: nat, live: seq<nat>, i: nat)
    requires Stock(h, len, live) && 1 <= i <= len
    ensures h[i] < |live| && live[h[i]] > 0
  {
    assert h[i] == h[1..len + 1][i - 1];
    assert h[i] in multiset(h[1..len + 1]);
  }

  lemma StockHas(h: seq<nat>, len: nat, live: seq<nat>, x: nat) returns (i: nat)
    requires Stock(h, len, live) && x < |live| && live[x] > 0
    ensures 1 <= i <= len && h[i] == x
  {
    assert x in LiveSet(live);
    assert x in multiset(h[1..len + 1]);
    var k :| 0 <= k < len && h[1..len + 1][k] == x;
    i := k + 1;
  }

  lemma StockNodes(h: seq<nat>, len: nat, live: seq<nat>, t: seq<CtData>, d: seq<nat>)
    requires Stock(h, len, live) && |live| <= |t| && |live| <= |d|
    ensures Nodes(h, len, t, d)
  {
    forall i | 1 <= i <= len ensures h[i] < |t| && h[i] < |d| {
      StockSlot(h, len, live, i);
    }
  }

  lemma StockRearranged(g: seq<nat>, h: seq<nat>, len: nat, live: seq<nat>)
    requires Stock(h, len, live) && Rearranged(g, h, len, 1)
    ensures Stock(g, len, live)
  {
    SliceMultiset(g, h, 1, len + 1);
  }

  lemma LiveSetUpdate(live: seq<nat>, i: nat, v: nat)
    requires i < |live|
    ensures LiveSet(live[i := v]) == if v > 0 then LiveSet(live) + {i} else LiveSet(live) - {i}
  {
  }

  /** Overwrite the root with the last slot and shorten the heap. */
  lemma StockRemove(h: seq<nat>, len: nat, live: seq<nat>)
    requires Stock(h, len, live) && 1 <= len && h[1] < |live| && live[h[1]] > 0
    ensures Stock(h[1 := h[len]], len - 1, live[h[1] := 0])
  {
    var g := h[1 := h[len]];
    LiveSetUpdate(live, h[1], 0);
    var s := h[1..len + 1];
    assert s == [h[1]] + s[1..];
    if len == 1 {
      assert g[1..1] == [] && s[1..] == [];
    } else {
      assert s[1..] == h[2..len] + [h[len]];
      assert g[1..len] == [h[len]] + h[2..len];
    }
    assert multiset(g[1..len]) == multiset(s) - multiset{h[1]};
  }

  lemma StockReplace(h: seq<nat>, len: nat, live: seq<nat>, x: nat, v: nat)
    requires Stock(h, len, live) && 1 <= len && h[1] < |live| && live[h[1]] > 0
    requires x < |live| && live[x] == 0 && v > 0
    ensures Stock(h[1 := x], len, live[h[1] := 0][x := v])
  {
    LiveSetUpdate(live, h[1], 0);
    LiveSetUpdate(live[h[1] := 0], x, v);
    var s := h[1..len + 1];
    assert s == [h[1]] + s[1..];
    assert h[1 := x][1..len + 1] == [x] + s[1..];
  }

  // ---------- PQREMOVE ----------

  lemma OrderedShrink(h: seq<nat>, len: nat, t: seq<CtData>, d: seq<nat>)
    requires 2 <= len && Nodes(h, len, t, d) && OrderedFrom(h, len, t, d, 1)
    ensures Nodes(h[1 := h[len]], len - 1, t, d)
    ensures OrderedFrom(h[1 := h[len]], len - 1, t, d, 2)
  {
  }

  lemma RootIsLeastLive(h: seq<nat>, len: nat, live: seq<nat>, t: seq<CtData>, d: seq<nat>, x: nat)
    requires Stock(h, len, live) && Nodes(h, len, t, d) && OrderedFrom(h, len, t, d, 1) && 1 <= len
    requires |live| <= |t| && forall i :: 0 <= i < |live| && live[i] > 0 ==> t[i].fc == live[i]
    requires x < |live| && live[x] > 0
    ensures h[1] < |live| && 0 < live[h[1]] <= live[x]
  {
    StockSlot(h, len, live, 1);
    var i := StockHas(h, len, live, x);
    RootIsLeast(h, len, t, d, i);
  }

  method PqRemove(tree: array<CtData>, depth: array<nat>, heap: array<nat>, heapLen: nat, ghost live: seq<nat>)
    returns (top: nat)
    requires heap != depth && 2 <= heapLen
    requires Stock(heap[..], heapLen, live) && Nodes(heap[..], heapLen, tree[..], depth[..])
    requires OrderedFrom(heap[..], heapLen, tree[..], depth[..], 1)
    modifies heap
    ensures top == old(heap[1]) && top < |live| && live[top] > 0
    ensures Stock(heap[..], heapLen - 1, live[top := 0])
    ensures Nodes(heap[..], heapLen - 1, tree[..], depth[..])
    ensures OrderedFrom(heap[..], heapLen - 1, tree[..], depth[..], 1)
    ensures heap[heapLen..] == old(heap[heapLen..])
  {
    hide Stock, OrderedFrom, Nodes, Rearranged;
    assert 1 < heapLen < heap.Length by { StockBound(heap[..], heapLen, live); }
    ghost var h, t, d := heap[..], tree[..], depth[..];
    top := heap[1];
    StockSlot(h, heapLen, live, 1);
    StockRemove(h, heapLen, live);
    OrderedShrink(h, heapLen, t, d);
    heap[1] := heap[heapLen];
    assert heap[..] == h[1 := h[heapLen]];
    PqDownHeap(tree, depth, heap, heapLen - 1, 1);
    StockRearranged(heap[..], h[1 := h[heapLen]], heapLen - 1, live[top := 0]);
    RearrangedTail(heap[..], h[1 := h[heapLen]], heapLen - 1, 1);
    assert heap[heapLen..] == h[1 := h[heapLen]][heapLen..];
  }

  lemma StockBound(h: seq<nat>, len: nat, live: seq<nat>)
    requires Stock(h, len, live)
    ensures len < |h|
  {
  }

  lemma RearrangedTail(g: seq<nat>, h: seq<nat>, len: nat, k0: nat)
    requires Rearranged(g, h, len, k0)
    ensures |g| == |h| && len < |h| && g[len + 1..] == h[len + 1..]
  {
  }

  // ---------- one merge ----------

  lemma WeightsUpdate(live: seq<nat>, i: nat, v: nat)
    requires i < |live|
    ensures LiveWeights(live[i := v])
         == LiveWeights(live) - (if live[i] > 0 then multiset{live[i]} else multiset{})
            + (if v > 0 then multiset{v} else multiset{})
  {
    var s := live[i := v];
    assert multiset(s) == multiset(live) - multiset{live[i]} + multiset{v};
  }

  lemma LeastWeight(live: seq<nat>, n: nat)
    requires n < |live| && live[n] > 0
    requires forall x :: 0 <= x < |live| && live[x] > 0 ==> live[n] <= live[x]
    ensures live[n] in LiveWeights(live)
    ensures forall w :: w in LiveWeights(live) ==> live[n] <= w
  {
    assert live[n] in multiset(live);
    forall w | w in LiveWeights(live) ensures live[n] <= w {
      assert w in multiset(live);
      var x :| 0 <= x < |live| && live[x] == w;
    }
  }

  /** The greedy total after merging the two least live nodes `n` and `m` into `x`. */
  lemma GreedyMerge(live: seq<nat>, n: nat, m: nat, x: nat)
    requires n < |live| && m < |live| && x < |live| && n != m && live[n] > 0 && live[m] > 0 && live[x] == 0
    requires forall y :: 0 <= y < |live| && live[y] > 0 ==> live[n] <= live[y]
    requires forall y :: 0 <= y < |live| && y != n && live[y] > 0 ==> live[m] <= live[y]
    ensures Greedy(LiveWeights(live))
         == live[n] + live[m] + Greedy(LiveWeights(live[n := 0][m := 0][x := live[n] + live[m]]))
  {
    hide Greedy, LiveWeights;
    var live1 := live[n := 0];
    var live2 := live1[m := 0];
    RemoveLeast(live, n);
    RemoveLeast(live1, m);
    AddWeight(live2, x, live[n] + live[m]);
    GreedySteps(LiveWeights(live), LiveWeights(live1), LiveWeights(live2), live[n], live[m]);
  }

  lemma AddWeight(live: seq<nat>, x: nat, v: nat)
    requires x < |live| && live[x] == 0 && v > 0
    ensures LiveWeights(live[x := v]) == LiveWeights(live) + multiset{v}
  {
    WeightsUpdate(live, x, v);
  }

  lemma GreedySteps(w: multiset<nat>, w1: multiset<nat>, w2: multiset<nat>, a: nat, b: nat)
    requires a in w && (forall x :: x in w ==> a <= x) && w1 == w - multiset{a}
    requires b in w1 && (forall x :: x in w1 ==> b <= x) && w2 == w1 - multiset{b}
    ensures Greedy(w) == a + b + Greedy(w2 + multiset{a + b})
  {
    hide Greedy;
    TwoMembers(w, a, b);
    GreedyStep(w, a, b);
    MergedIs(w, a, b);
  }

  lemma RemoveLeast(live: seq<nat>, n: nat)
    requires n < |live| && live[n] > 0
    requires forall x :: 0 <= x < |live| && live[x] > 0 ==> live[n] <= live[x]
    ensures live[n] in LiveWeights(live)
    ensures forall w :: w in LiveWeights(live) ==> live[n] <= w
    ensures LiveWeights(live[n := 0]) == LiveWeights(live) - multiset{live[n]}
  {
    LeastWeight(live, n);
    WeightsUpdate(live, n, 0);
  }

  lemma TwoMembers(w: multiset<nat>, a: nat, b: nat)
    requires a in w && b in w - multiset{a}
    ensures |w| >= 2
  {
    assert w == w - multiset{a} - multiset{b} + multiset{a, b};
  }

  lemma MergedIs(w: multiset<nat>, a: nat, b: nat)
    ensures Merged(w, a, b) == w - multiset{a} - multiset{b} + multiset{a + b}
  {
  }

  lemma TotalMerge(live: seq<nat>, n: nat, m: nat, x: nat)
    requires n < |live| && m < |live| && x < |live| && n != m && live[x] == 0 && x != n && x != m
    ensures Sum(live[n := 0][m := 0][x := live[n] + live[m]]) == Sum(live)
    ensures live[n] + live[m] <= Sum(live)
  {
    SumUpdate(live, n, 0);
    SumUpdate(live[n := 0], m, 0);
    SumUpdate(live[n := 0][m := 0], x, live[n] + live[m]);
    SumNonNeg(live[n := 0][m := 0]);
  }

  lemma LiveIsUsed(freq: seq<nat>, node: nat, live: seq<nat>, t: seq<CtData>, x: nat)
    requires Frequencies(t, freq, live, node) && x < |live| && live[x] > 0
    ensures x < node && x in Used(freq, node) && x in LiveSet(live)
  {
  }

  lemma ListedMerge(h: seq<nat>, g: seq<nat>, max: nat, freq: seq<nat>, live: seq<nat>, t: seq<CtData>, node: nat,
                    n: nat, m: nat, v: nat)
    requires Listed(h, max, freq, node, live) && Frequencies(t, freq, live, node) && node < |t|
    requires 2 <= max && |g| == |h| && g[max - 1] == n && g[max - 2] == m && g[max..] == h[max..]
    requires n < |live| && m < |live| && n != m && live[n] > 0 && live[m] > 0 && v > 0
    ensures Listed(g, max - 2, freq, node + 1, live[n := 0][m := 0][node := v])
  {
    LiveIsUsed(freq, node, live, t, n);
    LiveIsUsed(freq, node, live, t, m);
    var live2 := live[n := 0][m := 0][node := v];
    LiveSetUpdate(live, n, 0);
    LiveSetUpdate(live[n := 0], m, 0);
    LiveSetUpdate(live[n := 0][m := 0], node, v);
    UsedNext(freq, node);
    MergedSets(Used(freq, node), LiveSet(live), n, m, node);
    MergedTail(h, g, max, n, m);
  }

  lemma MergedSets(used: set<nat>, live: set<nat>, n: nat, m: nat, node: nat)
    requires n in used && n in live && m in used && m in live && n != m && node !in used
    ensures multiset((used + {node}) - (live - {n} - {m} + {node})) == multiset{m, n} + multiset(used - live)
  {
    assert (used + {node}) - (live - {n} - {m} + {node}) == (used - live) + {n, m};
  }

  lemma MergedTail(h: seq<nat>, g: seq<nat>, max: nat, n: nat, m: nat)
    requires 2 <= max <= |h| == |g| && g[max - 1] == n && g[max - 2] == m && g[max..] == h[max..]
    ensures multiset(g[max - 2..]) == multiset{m, n} + multiset(h[max..])
  {
    assert g[max - 2..] == [m, n] + g[max..];
  }

  lemma UsedNext(freq: seq<nat>, node: nat)
    requires |freq| <= node
    ensures Used(freq, node + 1) == Used(freq, node) + {node} && node !in Used(freq, node)
  {
  }

  lemma ListedSlot(h: seq<nat>, max: nat, freq: seq<nat>, node: nat, live: seq<nat>, i: nat)
    requires Listed(h, max, freq, node, live) && max <= i < |h|
    ensures h[i] in Used(freq, node) && h[i] !in LiveSet(live)
  {
    assert h[i] == h[max..][i - max];
    assert h[i] in multiset(h[max..]);
  }

  /** The tree table after `n` and `m` got the father `node`. */
  ghost function Fathered(t: seq<CtData>, n: nat, m: nat, node: nat): (r: seq<CtData>)
    requires n < |t| && m < |t| && node < |t| && n != node && m != node
    ensures |r| == |t|
    ensures forall i :: 0 <= i < |t| && i != n && i != m && i != node ==> r[i] == t[i]
    ensures forall i :: 0 <= i < |t| && i != node ==> r[i].fc == t[i].fc
    ensures r[n].dl == node && r[m].dl == node && r[node].fc == t[n].fc + t[m].fc
  {
    t[node := t[node].(fc := t[n].fc + t[m].fc)][m := t[m].(dl := node)][n := t[n].(dl := node)]
  }

  lemma SonsMerge(h: seq<nat>, g: seq<nat>, t: seq<CtData>, freq: seq<nat>, live: seq<nat>, j: nat, n: nat, m: nat)
    requires |h| == |g| == HEAP_SIZE && 2 * j + 2 <= HEAP_SIZE
    requires AllSons(h, t, |freq|, j) && Listed(h, HEAP_SIZE - 2 * j, freq, |freq| + j, live)
    requires Frequencies(t, freq, live, |freq| + j) && |freq| + j < |t|
    requires n < |live| && m < |live| && n != m && live[n] > 0 && live[m] > 0
    requires g[HEAP_SIZE - 2 * j..] == h[HEAP_SIZE - 2 * j..]
    requires g[HEAP_SIZE - 2 * j - 1] == n && g[HEAP_SIZE - 2 * j - 2] == m
    ensures n < |freq| + j && m < |freq| + j
    ensures AllSons(g, Fathered(t, n, m, |freq| + j), |freq|, j + 1)
  {
    var node := |freq| + j;
    LiveIsUsed(freq, node, live, t, n);
    LiveIsUsed(freq, node, live, t, m);
    forall i | 0 <= i < j ensures Sons(g, Fathered(t, n, m, node), |freq|, i) {
      KeepSons(h, g, t, freq, live, i, j, n, m);
    }
    NewSons(g, t, |freq|, j, n, m);
  }

  lemma KeepSons(h: seq<nat>, g: seq<nat>, t: seq<CtData>, freq: seq<nat>, live: seq<nat>, i: nat, j: nat, n: nat, m: nat)
    requires |h| == |g| == HEAP_SIZE && 2 * j + 2 <= HEAP_SIZE && i < j
    requires Sons(h, t, |freq|, i) && Listed(h, HEAP_SIZE - 2 * j, freq, |freq| + j, live)
    requires |freq| + j < |t|
    requires n < |live| && m < |live| && live[n] > 0 && live[m] > 0 && n < |freq| + j && m < |freq| + j
    requires g[HEAP_SIZE - 2 * j..] == h[HEAP_SIZE - 2 * j..]
    ensures Sons(g, Fathered(t, n, m, |freq| + j), |freq|, i)
  {
    hide Fathered, Used, LiveSet, Listed, Sons;
    ListedSlot(h, HEAP_SIZE - 2 * j, freq, |freq| + j, live, HEAP_SIZE - 1 - 2 * i);
    ListedSlot(h, HEAP_SIZE - 2 * j, freq, |freq| + j, live, HEAP_SIZE - 2 - 2 * i);
    OldSons(h, g, t, |freq|, live, i, j, n, m);
  }

  lemma NewSons(g: seq<nat>, t: seq<CtData>, elems: nat, j: nat, n: nat, m: nat)
    requires |g| == HEAP_SIZE && 2 * j + 2 <= HEAP_SIZE && elems + j < |t|
    requires n < elems + j && m < elems + j
    requires g[HEAP_SIZE - 2 * j - 1] == n && g[HEAP_SIZE - 2 * j - 2] == m
    ensures Sons(g, Fathered(t, n, m, elems + j), elems, j)
  {
  }

  lemma OldSons(h: seq<nat>, g: seq<nat>, t: seq<CtData>, elems: nat, live: seq<nat>, i: nat, j: nat, n: nat, m: nat)
    requires |h| == |g| == HEAP_SIZE && 2 * j + 2 <= HEAP_SIZE && i < j && elems + j < |t|
    requires n < |live| && m < |live| && live[n] > 0 && live[m] > 0 && n < elems + j && m < elems + j
    requires Sons(h, t, elems, i) && g[HEAP_SIZE - 2 * j..] == h[HEAP_SIZE - 2 * j..]
    requires h[HEAP_SIZE - 1 - 2 * i] !in LiveSet(live) && h[HEAP_SIZE - 2 - 2 * i] !in LiveSet(live)
    ensures Sons(g, Fathered(t, n, m, elems + j), elems, i)
  {
    hide Fathered;
    TailSlot(g, h, HEAP_SIZE - 2 * j, HEAP_SIZE - 1 - 2 * i);
    TailSlot(g, h, HEAP_SIZE - 2 * j, HEAP_SIZE - 2 - 2 * i);
  }

  lemma TailSlot(g: seq<nat>, h: seq<nat>, max: nat, p: nat)
    requires |g| == |h| && max <= p < |h| && g[max..] == h[max..]
    ensures g[p] == h[p]
  {
    assert g[max..][p - max] == h[max..][p - max];
  }

  lemma {:induction false} InnerWeightSame(t: seq<CtData>, u: seq<CtData>, elems: nat, j: nat)
    requires elems + j <= |t| && elems + j <= |u|
    requires forall i :: elems <= i < elems + j ==> t[i].fc == u[i].fc
    ensures InnerWeight(t, elems, j) == InnerWeight(u, elems, j)
  {
    if j > 0 {
      InnerWeightSame(t, u, elems, j - 1);
    }
  }

  /** `n` is a least live node and `m` a least one of the others. */
  ghost predicate TwoLeast(live: seq<nat>, n: nat, m: nat)
  {
    && n < |live| && m < |live| && n != m && live[n] > 0 && live[m] > 0
    && (forall y :: 0 <= y < |live| && live[y] > 0 ==> live[n] <= live[y])
    && (forall y :: 0 <= y < |live| && y != n && live[y] > 0 ==> live[m] <= live[y])
  }

  ghost function MergedLive(live: seq<nat>, n: nat, m: nat, node: nat): seq<nat>
    requires n < |live| && m < |live| && node < |live|
  {
    live[n := 0][m := 0][node := live[n] + live[m]]
  }

  lemma CourseMerge(t: seq<CtData>, freq: seq<nat>, live: seq<nat>, j: nat, n: nat, m: nat)
    requires OnCourse(t, freq, live, j) && Frequencies(t, freq, live, |freq| + j) && |freq| + j < |t|
    requires TwoLeast(live, n, m)
    ensures n < |freq| + j && m < |freq| + j
    ensures OnCourse(Fathered(t, n, m, |freq| + j), freq, MergedLive(live, n, m, |freq| + j), j + 1)
  {
    hide Greedy, LiveWeights;
    var u := Fathered(t, n, m, |freq| + j);
    InnerWeightSame(t, u, |freq|, j);
    GreedyMerge(live, n, m, |freq| + j);
  }

  lemma FrequenciesMerge(t: seq<CtData>, freq: seq<nat>, live: seq<nat>, node: nat, n: nat, m: nat)
    requires Frequencies(t, freq, live, node) && node < |t| && TwoLeast(live, n, m)
    ensures n < node && m < node
    ensures Frequencies(Fathered(t, n, m, node), freq, MergedLive(live, n, m, node), node + 1)
  {
  }

  /** What build_tree's loop body leaves behind, given what it wrote. */
  lemma MergingStep(h: seq<nat>, g: seq<nat>, t: seq<CtData>, d: seq<nat>, e: seq<nat>,
                    freq: seq<nat>, live: seq<nat>, len: nat, max: nat, j: nat, n: nat, m: nat)
    requires Merging(h, t, d, freq, live, len, max, j) && 2 <= len && TwoLeast(live, n, m)
    requires |g| == HEAP_SIZE && |e| == |d| && |freq| + j < |live|
    requires Stock(g, len - 1, MergedLive(live, n, m, |freq| + j))
    requires g[max..] == h[max..] && g[max - 1] == n && g[max - 2] == m
    ensures n < |freq| + j && m < |freq| + j
    ensures Merging(g, Fathered(t, n, m, |freq| + j), e, freq, MergedLive(live, n, m, |freq| + j), len - 1, max - 2, j + 1)
  {
    hide Stock, Listed, AllSons, Frequencies, OnCourse, Greedy, LiveWeights, TwoLeast, Fathered, Sum;
    var node := |freq| + j;
    FrequenciesMerge(t, freq, live, node, n, m);
    CourseMerge(t, freq, live, j, n, m);
    TwoLeastFacts(live, n, m);
    FrequenciesFacts(t, freq, live, node);
    SonsMerge(h, g, t, freq, live, j, n, m);
    ListedMerge(h, g, max, freq, live, t, node, n, m, live[n] + live[m]);
    TotalMerge(live, n, m, node);
  }

  lemma TwoLeastFacts(live: seq<nat>, n: nat, m: nat)
    requires TwoLeast(live, n, m)
    ensures n < |live| && m < |live| && n != m && live[n] > 0 && live[m] > 0
  {
  }

  lemma FrequenciesFacts(t: seq<CtData>, freq: seq<nat>, live: seq<nat>, node: nat)
    requires Frequencies(t, freq, live, node)
    ensures |live| == |t|
    ensures forall i :: 0 <= i < |t| && live[i] > 0 ==> i < node && t[i].fc == live[i]
    ensures forall i :: node <= i < |t| ==> live[i] == 0
  {
  }

  lemma OrderedFrame(h: seq<nat>, g: seq<nat>, len: nat, t: seq<CtData>, u: seq<CtData>, d: seq<nat>, e: seq<nat>, live: seq<nat>)
    requires Nodes(h, len, t, d) && OrderedFrom(h, len, t, d, 2)
    requires |u| == |t| && |e| == |d| && |g| == |h| && Nodes(g, len, u, e)
    requires forall i :: 2 <= i <= len ==> g[i] == h[i] && u[h[i]].fc == t[h[i]].fc && e[h[i]] == d[h[i]]
    ensures OrderedFrom(g, len, u, e, 2)
  {
  }

  lemma StockFrame(h: seq<nat>, g: seq<nat>, len: nat, live: seq<nat>)
    requires Stock(h, len, live) && len < |g| && g[1..len + 1] == h[1..len + 1]
    ensures Stock(g, len, live)
  {
  }

  lemma FindTwoLeast(h: seq<nat>, h1: seq<nat>, len: nat, live: seq<nat>, t: seq<CtData>, d: seq<nat>, n: nat)
    requires 2 <= len && Stock(h, len, live) && Nodes(h, len, t, d) && OrderedFrom(h, len, t, d, 1) && n == h[1]
    requires n < |live| <= |t|
    requires Stock(h1, len - 1, live[n := 0]) && Nodes(h1, len - 1, t, d) && OrderedFrom(h1, len - 1, t, d, 1)
    requires forall i :: 0 <= i < |live| && live[i] > 0 ==> t[i].fc == live[i]
    ensures TwoLeast(live, n, h1[1])
  {
    hide Stock, Nodes, OrderedFrom;
    StockBound(h1, len - 1, live[n := 0]);
    StockSlot(h, len, live, 1);
    StockSlot(h1, len - 1, live[n := 0], 1);
    var m := h1[1];
    assert m != n && live[m] > 0;
    forall y | 0 <= y < |live| && live[y] > 0 ensures live[n] <= live[y] {
      RootIsLeastLive(h, len, live, t, d, y);
    }
    forall y | 0 <= y < |live| && y != n && live[y] > 0 ensures live[m] <= live[y] {
      RootIsLeastLive(h1, len - 1, live[n := 0], t, d, y);
    }
  }

  /** One round of the heap loop. */
  method Merge(tree: array<CtData>, depth: array<nat>, heap: array<nat>, heapLen: nat, heapMax: nat, node: nat,
               ghost freq: seq<nat>, ghost live: seq<nat>, ghost j: nat)
    returns (ghost live': seq<nat>)
    requires heap != depth && 2 <= heapLen && node == |freq| + j && Sum(freq) < 0x1_0000
    requires Merging(heap[..], tree[..], depth[..], freq, live, heapLen, heapMax, j)
    requires Nodes(heap[..], heapLen, tree[..], depth[..]) && OrderedFrom(heap[..], heapLen, tree[..], depth[..], 1)
    modifies tree, depth, heap
    ensures Merging(heap[..], tree[..], depth[..], freq, live', heapLen - 1, heapMax - 2, j + 1)
    ensures |live'| == tree.Length && node < |live'| && live'[node] > 0
    ensures Nodes(heap[..], heapLen - 1, tree[..], depth[..])
    ensures OrderedFrom(heap[..], heapLen - 1, tree[..], depth[..], 1)
  {
    hide Merging, Stock, OrderedFrom, Nodes, TwoLeast, Sum, Fathered, MergedLive, Rearranged;
    ghost var h, t, d := heap[..], tree[..], depth[..];
    MergingFacts(h, t, d, freq, live, heapLen, heapMax, j);
    var n := PqRemove(tree, depth, heap, heapLen, live);
    ghost var h1 := heap[..];
    var m := heap[1];
    MergeChoice(h, h1, t, d, freq, live, heapLen, heapMax, j, n);

    heap[heapMax - 1] := n;
    heap[heapMax - 2] := m;
    tree[node] := tree[node].(fc := (tree[n].fc + tree[m].fc) % 0x1_0000);
    depth[node] := (if depth[n] >= depth[m] then depth[n] else depth[m]) + 1;
    tree[m] := tree[m].(dl := node);
    tree[n] := tree[n].(dl := node);
    heap[1] := node;

    ghost var g, e := heap[..], depth[..];
    live' := MergedLive(live, n, m, node);
    MergedLiveRoot(live, n, m, node);
    assert tree[..] == Fathered(t, n, m, node) by { FatheredIs(t, tree[..], n, m, node); }
    MergeWrites(h1, g, t, d, e, live, heapLen - 1, heapMax, n, m, node);
    PqDownHeap(tree, depth, heap, heapLen - 1, 1);
    MergeSink(h, h1, g, heap[..], t, d, e, freq, live, heapLen, heapMax, j, n, m);
  }

  lemma MergedLiveRoot(live: seq<nat>, n: nat, m: nat, node: nat)
    requires TwoLeast(live, n, m) && node < |live|
    ensures |MergedLive(live, n, m, node)| == |live| && MergedLive(live, n, m, node)[node] > 0
  {
  }

  lemma FatheredIs(t: seq<CtData>, u: seq<CtData>, n: nat, m: nat, node: nat)
    requires n < |t| && m < |t| && node < |t| && n != node && m != node && |u| == |t|
    requires u == t[node := t[node].(fc := t[n].fc + t[m].fc)][m := t[m].(dl := node)][n := t[n].(dl := node)]
    ensures u == Fathered(t, n, m, node)
  {
  }

  lemma MergingFacts(h: seq<nat>, t: seq<CtData>, d: seq<nat>, freq: seq<nat>, live: seq<nat>, len: nat, max: nat, j: nat)
    requires Merging(h, t, d, freq, live, len, max, j) && len >= 2
    ensures Stock(h, len, live) && len + 2 < max && |live| == |t| && |d| == HEAP_SIZE && |freq| + j < |t| <= HEAP_SIZE
    ensures forall i :: 0 <= i < |t| && live[i] > 0 ==> i < |freq| + j && t[i].fc == live[i]
    ensures live[|freq| + j] == 0 && max <= |h| == HEAP_SIZE
  {
  }

  lemma MergeChoice(h: seq<nat>, h1: seq<nat>, t: seq<CtData>, d: seq<nat>, freq: seq<nat>, live: seq<nat>,
                    len: nat, max: nat, j: nat, n: nat)
    requires Merging(h, t, d, freq, live, len, max, j) && len >= 2 && Sum(freq) < 0x1_0000
    requires Nodes(h, len, t, d) && OrderedFrom(h, len, t, d, 1) && n == h[1] && n < |live| && |h1| == |h|
    requires Stock(h1, len - 1, live[n := 0]) && Nodes(h1, len - 1, t, d) && OrderedFrom(h1, len - 1, t, d, 1)
    ensures TwoLeast(live, n, h1[1])
    ensures var m := h1[1]; m != n && n < |freq| + j && m < |freq| + j && t[n].fc + t[m].fc < 0x1_0000
    ensures |h1| > len
  {
    hide Merging, Nodes, OrderedFrom, TwoLeast, Sum;
    MergingFacts(h, t, d, freq, live, len, max, j);
    FindTwoLeast(h, h1, len, live, t, d, n);
    TwoLeastFacts(live, n, h1[1]);
    TotalMerge(live, n, h1[1], |freq| + j);
    assert Sum(live) == Sum(freq) by { MergingTotal(h, t, d, freq, live, len, max, j); }
  }

  lemma MergingTotal(h: seq<nat>, t: seq<CtData>, d: seq<nat>, freq: seq<nat>, live: seq<nat>, len: nat, max: nat, j: nat)
    requires Merging(h, t, d, freq, live, len, max, j)
    ensures Sum(live) == Sum(freq)
  {
  }

  lemma MergeWrites(h1: seq<nat>, g: seq<nat>, t: seq<CtData>, d: seq<nat>, e: seq<nat>, live: seq<nat>,
                    len: nat, max: nat, n: nat, m: nat, node: nat)
    requires 1 <= len && len + 3 < max <= |h1| && |live| == |t| <= |d| && node < |t| && live[node] == 0
    requires n < node && m < node && TwoLeast(live, n, m) && m == h1[1]
    requires Stock(h1, len, live[n := 0]) && Nodes(h1, len, t, d) && OrderedFrom(h1, len, t, d, 1)
    requires g == h1[max - 1 := n][max - 2 := m][1 := node]
    requires |e| == |d| && forall i :: 0 <= i < |d| && i != node ==> e[i] == d[i]
    ensures Stock(g, len, MergedLive(live, n, m, node))
    ensures Nodes(g, len, Fathered(t, n, m, node), e)
    ensures OrderedFrom(g, len, Fathered(t, n, m, node), e, 2)
  {
    hide Stock, OrderedFrom, Nodes, Fathered;
    var h2 := h1[max - 1 := n][max - 2 := m];
    assert h2[1..len + 1] == h1[1..len + 1];
    StockFrame(h1, h2, len, live[n := 0]);
    StockReplace(h2, len, live[n := 0], node, live[n] + live[m]);
    StockNodes(g, len, MergedLive(live, n, m, node), Fathered(t, n, m, node), e);
    OrderedAfterWrites(h1, g, len, t, d, e, live[n := 0], n, m, node);
  }

  lemma MergeSink(h: seq<nat>, h1: seq<nat>, g: seq<nat>, k: seq<nat>, t: seq<CtData>, d: seq<nat>, e: seq<nat>,
                  freq: seq<nat>, live: seq<nat>, len: nat, max: nat, j: nat, n: nat, m: nat)
    requires Merging(h, t, d, freq, live, len, max, j) && len >= 2 && TwoLeast(live, n, m)
    requires |h1| == |h| && len + 2 < max <= |h| && |freq| + j < |live| && h1[len..] == h[len..]
    requires g == h1[max - 1 := n][max - 2 := m][1 := |freq| + j]
    requires Rearranged(k, g, len - 1, 1) && |e| == |d|
    requires Stock(g, len - 1, MergedLive(live, n, m, |freq| + j))
    ensures n < |freq| + j && m < |freq| + j
    ensures Merging(k, Fathered(t, n, m, |freq| + j), e, freq, MergedLive(live, n, m, |freq| + j), len - 1, max - 2, j + 1)
  {
    hide Merging, Stock, Rearranged, TwoLeast;
    TwoLeastFacts(live, n, m);
    StockRearranged(k, g, len - 1, MergedLive(live, n, m, |freq| + j));
    RearrangedTail(k, g, len - 1, 1);
    TailSlot(k, g, len, max - 1);
    TailSlot(k, g, len, max - 2);
    TailTail(k, g, len, max);
    TailTail(h1, h, len, max);
    assert g[max..] == h1[max..];
    MergingSize(h, t, d, freq, live, len, max, j);
    MergingStep(h, k, t, d, e, freq, live, len, max, j, n, m);
  }

  lemma MergingSize(h: seq<nat>, t: seq<CtData>, d: seq<nat>, freq: seq<nat>, live: seq<nat>, len: nat, max: nat, j: nat)
    requires Merging(h, t, d, freq, live, len, max, j)
    ensures |h| == HEAP_SIZE && max == HEAP_SIZE - 2 * j && len + j <= L_CODES
  {
  }

  lemma TailTail(g: seq<nat>, h: seq<nat>, a: nat, b: nat)
    requires |g| == |h| && a <= b <= |h| && g[a..] == h[a..]
    ensures g[b..] == h[b..]
  {
    assert g[b..] == g[a..][b - a..];
    assert h[b..] == h[a..][b - a..];
  }

  lemma OrderedAfterWrites(h: seq<nat>, g: seq<nat>, len: nat, t: seq<CtData>, d: seq<nat>, e: seq<nat>,
                           live: seq<nat>, n: nat, m: nat, node: nat)
    requires 1 <= len && |g| == |h| && Stock(h, len, live) && Nodes(h, len, t, d) && OrderedFrom(h, len, t, d, 1)
    requires n < |t| && m < |t| && node < |t| && n != node && m != node && node < |live| && live[node] == 0
    requires |e| == |d| && forall i :: 0 <= i < |d| && i != node ==> e[i] == d[i]
    requires forall i :: 2 <= i <= len ==> g[i] == h[i]
    requires Nodes(g, len, Fathered(t, n, m, node), e)
    ensures OrderedFrom(g, len, Fathered(t, n, m, node), e, 2)
  {
    hide Fathered, Stock;
    forall i | 1 <= i <= len ensures h[i] != node {
      StockSlot(h, len, live, i);
    }
    OrderedFrame(h, g, len, t, Fathered(t, n, m, node), d, e, live);
  }

  // ---------- the whole loop ----------

  /** The listed tree of `n` leaves: `h[max]` is the root and the sons follow pair by pair. */
  ghost predicate TreeListed(h: seq<nat>, t: seq<CtData>, freq: seq<nat>, max: nat, n: nat)
  {
    && 2 <= n <= |freq| <= L_CODES && |t| == 2 * |freq| + 1 && |h| == HEAP_SIZE
    && max == HEAP_SIZE - (2 * n - 1)
    && h[max] == |freq| + n - 2
    && multiset(h[max..]) == multiset(Used(freq, |freq| + n - 1))
    && AllSons(h, t, |freq|, n - 1)
    && (forall i :: 0 <= i < |freq| ==> t[i].fc == freq[i])
    && (forall i :: 0 <= i < |freq| && freq[i] == 0 ==> t[i].dl == 0)
    && InnerWeight(t, |freq|, n - 1) == Greedy(LiveWeights(freq))
  }

  lemma LastRoot(h: seq<nat>, t: seq<CtData>, d: seq<nat>, freq: seq<nat>, live: seq<nat>, max: nat, n: nat)
    requires n >= 2 && Merging(h, t, d, freq, live, 1, max, n - 1)
    requires live[|freq| + n - 2] > 0
    ensures h[1] == |freq| + n - 2 && max >= 2
    ensures TreeListed(h[max - 1 := h[1]], t, freq, max - 1, n)
  {
    hide Greedy, Listed, AllSons, InnerWeight, Used;
    var root := |freq| + n - 2;
    OneLive(h, live, root);
    assert LiveWeights(live) == multiset{live[root]} by { OneWeight(live, root); }
    GreedySingle(LiveWeights(live));
    var g := h[max - 1 := root];
    ListedRoot(h, g, max, freq, |freq| + n - 1, live, root);
    AllSonsTail(h, g, t, |freq|, n - 1);
  }

  lemma OneLive(h: seq<nat>, live: seq<nat>, x: nat)
    requires Stock(h, 1, live) && x < |live| && live[x] > 0
    ensures h[1] == x && LiveSet(live) == {x}
  {
    var i := StockHas(h, 1, live, x);
    forall y | y in LiveSet(live) ensures y == x {
      var k := StockHas(h, 1, live, y);
    }
  }

  lemma {:induction false} OneWeight(live: seq<nat>, x: nat)
    requires x < |live| && LiveSet(live) == {x}
    ensures LiveWeights(live) == multiset{live[x]}
  {
    assert x in LiveSet(live);
    forall i | 0 <= i < |live| && i != x ensures live[i] == 0 {
      assert i !in LiveSet(live);
    }
    ZeroWeights(live[x := 0]);
    WeightsUpdate(live[x := 0], x, live[x]);
    assert live[x := 0][x := live[x]] == live;
  }

  lemma {:induction false} ZeroWeights(live: seq<nat>)
    requires forall i :: 0 <= i < |live| ==> live[i] == 0
    ensures LiveWeights(live) == multiset{}
  {
    forall w | w in multiset(live) ensures w == 0 {
    }
  }

  lemma ListedRoot(h: seq<nat>, g: seq<nat>, max: nat, freq: seq<nat>, node: nat, live: seq<nat>, root: nat)
    requires Listed(h, max, freq, node, live) && 1 <= max && g == h[max - 1 := root]
    requires LiveSet(live) == {root} && |freq| <= root < node
    ensures multiset(g[max - 1..]) == multiset(Used(freq, node))
  {
    assert g[max - 1..] == [root] + h[max..];
    assert root in Used(freq, node);
    assert Used(freq, node) == (Used(freq, node) - {root}) + {root};
  }

  lemma AllSonsTail(h: seq<nat>, g: seq<nat>, t: seq<CtData>, elems: nat, j: nat)
    requires AllSons(h, t, elems, j) && |g| == |h|
    requires forall p :: HEAP_SIZE - 2 * j <= p < HEAP_SIZE ==> g[p] == h[p]
    ensures AllSons(g, t, elems, j)
  {
    forall i | 0 <= i < j ensures Sons(g, t, elems, i) {
      assert Sons(h, t, elems, i);
    }
  }

  ghost function Padded(freq: seq<nat>, n: nat): (r: seq<nat>)
    requires |freq| <= n
    ensures |r| == n
  {
    freq + seq(n - |freq|, i => 0)
  }

  /** Heap order, then merge until one node is left; `n` is the number of leaves. */
  method MergeAll(tree: array<CtData>, depth: array<nat>, heap: array<nat>, heapLen0: nat, elems: nat,
                  ghost freq: seq<nat>)
    returns (heapMax: nat)
    requires heap != depth && 2 <= heapLen0 && elems == |freq| && Sum(freq) < 0x1_0000
    requires elems <= L_CODES && tree.Length == 2 * elems + 1
    requires Merging(heap[..], tree[..], depth[..], freq, Padded(freq, tree.Length), heapLen0, HEAP_SIZE, 0)
    modifies tree, depth, heap
    ensures TreeListed(heap[..], tree[..], freq, heapMax, heapLen0)
  {
    hide Merging, OrderedFrom, Nodes, Rearranged, Sum, TreeListed, Padded;
    var heapLen := heapLen0;
    heapMax := HEAP_SIZE;
    var node := elems;
    ghost var live := Padded(freq, tree.Length);
    Heapify(tree, depth, heap, heapLen, freq);
    ghost var j := 0;
    while heapLen >= 2
      invariant 1 <= heapLen && j + heapLen == heapLen0 && node == elems + j && tree.Length == 2 * elems + 1
      invariant Merging(heap[..], tree[..], depth[..], freq, live, heapLen, heapMax, j)
      invariant Nodes(heap[..], heapLen, tree[..], depth[..]) && OrderedFrom(heap[..], heapLen, tree[..], depth[..], 1)
      invariant j > 0 ==> node - 1 < |live| && live[node - 1] > 0
    {
      MergingSize(heap[..], tree[..], depth[..], freq, live, heapLen, heapMax, j);
      live := Merge(tree, depth, heap, heapLen, heapMax, node, freq, live, j);
      heapLen, heapMax, node, j := heapLen - 1, heapMax - 2, node + 1, j + 1;
    }
    LastRoot(heap[..], tree[..], depth[..], freq, live, heapMax, heapLen0);
    ghost var h := heap[..];
    MergingSize(h, tree[..], depth[..], freq, live, 1, heapMax, j);
    heapMax := heapMax - 1;
    heap[heapMax] := heap[1];
    assert heap[..] == h[heapMax := h[1]];
  }

  method Heapify(tree: array<CtData>, depth: array<nat>, heap: array<nat>, heapLen: nat, ghost freq: seq<nat>)
    requires heap != depth && 2 <= heapLen && |freq| <= tree.Length
    requires Merging(heap[..], tree[..], depth[..], freq, Padded(freq, tree.Length), heapLen, HEAP_SIZE, 0)
    modifies heap
    ensures Merging(heap[..], tree[..], depth[..], freq, Padded(freq, tree.Length), heapLen, HEAP_SIZE, 0)
    ensures Nodes(heap[..], heapLen, tree[..], depth[..]) && OrderedFrom(heap[..], heapLen, tree[..], depth[..], 1)
  {
    hide Merging, OrderedFrom, Nodes, Rearranged, Padded;
    ghost var live := Padded(freq, tree.Length);
    var n := heapLen / 2;
    HeapStart(heap[..], tree[..], depth[..], freq, live, heapLen);
    while n >= 1
      invariant 0 <= n <= heapLen / 2
      invariant Merging(heap[..], tree[..], depth[..], freq, live, heapLen, HEAP_SIZE, 0)
      invariant Nodes(heap[..], heapLen, tree[..], depth[..])
      invariant OrderedFrom(heap[..], heapLen, tree[..], depth[..], n + 1)
    {
      ghost var h := heap[..];
      PqDownHeap(tree, depth, heap, heapLen, n);
      MergingRearranged(h, heap[..], tree[..], depth[..], freq, live, heapLen, n);
      n := n - 1;
    }
  }

  lemma HeapStart(h: seq<nat>, t: seq<CtData>, d: seq<nat>, freq: seq<nat>, live: seq<nat>, len: nat)
    requires Merging(h, t, d, freq, live, len, HEAP_SIZE, 0)
    ensures Nodes(h, len, t, d) && OrderedFrom(h, len, t, d, len / 2 + 1)
  {
    StockNodes(h, len, live, t, d);
  }

  lemma MergingRearranged(h: seq<nat>, g: seq<nat>, t: seq<CtData>, d: seq<nat>, freq: seq<nat>, live: seq<nat>, len: nat, k: nat)
    requires Merging(h, t, d, freq, live, len, HEAP_SIZE, 0) && Rearranged(g, h, len, k) && 1 <= k
    ensures Merging(g, t, d, freq, live, len, HEAP_SIZE, 0)
  {
    hide OnCourse, Frequencies, Sum, LiveSet, Used;
    assert g[..1] == g[..k][..1] == h[..1];
    SliceMultiset(g, h, 1, len + 1);
    assert g[HEAP_SIZE..] == h[HEAP_SIZE..] == [];
  }
}
