/**
 What "optimal" means for a Huffman tree.  `Greedy` is the cost of always
 merging two smallest weights; no assignment of code lengths that fills the
 code space, and so no binary tree, costs less.
 */
module HuffmanCost {
  import opened Arith

  lemma {:induction false} HasMin(ws: multiset<nat>, y: nat)
    requires y in ws
    ensures exists m :: m in ws && forall x :: x in ws ==> m <= x
    decreases y
  {
    if x :| x in ws && x < y {
      HasMin(ws, x);
    }
  }

  ghost function Min(ws: multiset<nat>): (m: nat)
    requires |ws| > 0
    ensures m in ws && forall x :: x in ws ==> m <= x
  {
    var y :| y in ws;
    HasMin(ws, y);
    var m :| m in ws && forall x :: x in ws ==> m <= x;
    m
  }

  /** The weights left after one greedy step. */
  ghost function Merged(ws: multiset<nat>, a: nat, b: nat): multiset<nat>
  {
    ws - multiset{a} - multiset{b} + multiset{a + b}
  }

  /** Total weight of the nodes made by merging two smallest weights until one is left. */
  ghost function Greedy(ws: multiset<nat>): nat
    decreases |ws|
  {
    if |ws| <= 1 then 0
    else
      var a := Min(ws);
      var b := Min(ws - multiset{a});
      a + b + Greedy(Merged(ws, a, b))
  }

  /** Any choice of two smallest weights gives the same total. */
  lemma GreedyStep(ws: multiset<nat>, a: nat, b: nat)
    requires |ws| >= 2
    requires a in ws && forall x :: x in ws ==> a <= x
    requires b in ws - multiset{a} && forall x :: x in ws - multiset{a} ==> b <= x
    ensures Greedy(ws) == a + b + Greedy(Merged(ws, a, b))
  {
    hide Merged;
    assert Min(ws) == a;
    assert Min(ws - multiset{a}) == b;
  }

  // ---------- lower bound ----------

  /** A weight together with the length of its code. */
  datatype Item = Item(w: nat, l: nat)

  ghost function Weights(s: seq<Item>): (r: multiset<nat>)
    ensures |r| == |s|
  {
    if s == [] then multiset{} else Weights(s[..|s| - 1]) + multiset{s[|s| - 1].w}
  }

  ghost function Cost(s: seq<Item>): nat
  {
    if s == [] then 0 else Cost(s[..|s| - 1]) + s[|s| - 1].w * s[|s| - 1].l
  }

  ghost predicate Below(s: seq<Item>, m: nat)
  {
    forall i :: 0 <= i < |s| ==> s[i].l <= m
  }

  ghost function Space(s: seq<Item>, m: nat): nat
    requires Below(s, m)
  {
    if s == [] then 0 else Space(s[..|s| - 1], m) + Pow2(m - s[|s| - 1].l)
  }

  ghost function Without(s: seq<Item>, i: nat): seq<Item>
    requires i < |s|
  {
    s[..i] + s[i + 1..]
  }

  lemma {:induction false} RemoveItem(s: seq<Item>, i: nat, m: nat)
    requires i < |s| && Below(s, m)
    ensures Below(Without(s, i), m)
    ensures Weights(s) == Weights(Without(s, i)) + multiset{s[i].w}
    ensures Cost(s) == Cost(Without(s, i)) + s[i].w * s[i].l
    ensures Space(s, m) == Space(Without(s, i), m) + Pow2(m - s[i].l)
  {
    hide Pow2, Weights, Cost, Space;
    var n := |s| - 1;
    if i == n {
      assert Without(s, i) == s[..n];
      AddItem(s[..n], s[n], m);
      assert s == s[..n] + [s[n]];
    } else {
      var r := Without(s, i);
      RemoveItem(s[..n], i, m);
      assert r == Without(s[..n], i) + [s[n]];
      AddItem(Without(s[..n], i), s[n], m);
      AddItem(s[..n], s[n], m);
      assert s == s[..n] + [s[n]];
      assert s[..n][i] == s[i];
    }
  }

  lemma AddItem(s: seq<Item>, x: Item, m: nat)
    requires Below(s, m) && x.l <= m
    ensures Below(s + [x], m)
    ensures Weights(s + [x]) == Weights(s) + multiset{x.w}
    ensures Cost(s + [x]) == Cost(s) + x.w * x.l
    ensures Space(s + [x], m) == Space(s, m) + Pow2(m - x.l)
  {
    assert (s + [x])[..|s|] == s;
  }

  lemma {:induction false} HasWeight(s: seq<Item>, w: nat)
    ensures w in Weights(s) <==> exists i :: 0 <= i < |s| && s[i].w == w
  {
    if s != [] {
      HasWeight(s[..|s| - 1], w);
      if w in Weights(s[..|s| - 1]) {
        var i :| 0 <= i < |s| - 1 && s[..|s| - 1][i].w == w;
        assert s[i].w == w;
      }
      if i :| 0 <= i < |s| && s[i].w == w {
        if i < |s| - 1 {
          assert s[..|s| - 1][i].w == w;
        }
      }
    }
  }

  lemma {:induction false} SpaceEven(s: seq<Item>, m: nat)
    requires m > 0 && Below(s, m - 1)
    ensures Below(s, m) && Space(s, m) == 2 * Space(s, m - 1)
  {
    if s != [] {
      SpaceEven(s[..|s| - 1], m);
    }
  }

  lemma {:induction false} SpaceAllZero(s: seq<Item>)
    requires Below(s, 0)
    ensures Space(s, 0) == |s|
  {
    if s != [] {
      SpaceAllZero(s[..|s| - 1]);
    }
  }

  /** Put a smallest weight on a longest code; nothing gets worse. */
  lemma LightestDeepest(s: seq<Item>, m: nat) returns (r: seq<Item>, w: nat)
    requires s != [] && Below(s, m) && exists i :: 0 <= i < |s| && s[i].l == m
    ensures |r| == |s| - 1 && Below(r, m)
    ensures w in Weights(s) && forall x :: x in Weights(s) ==> w <= x
    ensures Weights(r) == Weights(s) - multiset{w}
    ensures Space(r, m) + 1 == Space(s, m)
    ensures Cost(r) + w * m <= Cost(s)
  {
    hide Weights, Cost, Space, Pow2, Without;
    w := Min(Weights(s));
    HasWeight(s, w);
    var p :| 0 <= p < |s| && s[p].w == w;
    RemoveItem(s, p, m);
    r := Without(s, p);
    WithoutLength(s, p);
    Pow2Zero();
    if s[p].l < m {
      var i :| 0 <= i < |s| && s[i].l == m;
      var j := WithoutIndex(s, p, i);
      HasWeight(s, s[i].w);
      RemoveItem(r, j, m);
      var rest := Without(r, j);
      var x := Item(s[i].w, s[p].l);
      WithoutLength(r, j);
      AddItem(rest, x, m);
      Rearrange(w, x.w, s[p].l, m);
      r := rest + [x];
    }
  }

  lemma WithoutLength(s: seq<Item>, p: nat)
    requires p < |s|
    ensures |Without(s, p)| == |s| - 1
  {
  }

  lemma WithoutIndex(s: seq<Item>, p: nat, i: nat) returns (j: nat)
    requires p < |s| && i < |s| && i != p
    ensures j < |Without(s, p)| && Without(s, p)[j] == s[i]
  {
    j := if i < p then i else i - 1;
  }

  lemma Rearrange(w: nat, v: nat, l: nat, m: nat)
    requires w <= v && l <= m
    ensures w * m + v * l <= w * l + v * m
  {
    assert (v - w) * (m - l) >= 0;
    assert (v - w) * (m - l) == v * m - v * l - w * m + w * l;
  }

  lemma SomeDeepest(s: seq<Item>, m: nat)
    requires m > 0 && Below(s, m) && Space(s, m) % 2 == 1
    ensures exists i :: 0 <= i < |s| && s[i].l == m
  {
    if forall i :: 0 <= i < |s| ==> s[i].l != m {
      SpaceEven(s, m);
    }
  }

  /** No code lengths that exactly fill the code space cost less than the greedy merges. */
  lemma {:induction false} GreedyIsLeast(s: seq<Item>, m: nat)
    requires s != [] && Below(s, m) && Space(s, m) == Pow2(m)
    ensures Greedy(Weights(s)) <= Cost(s)
    decreases |s|, m
  {
    hide Weights, Cost, Space, Greedy;
    if |s| == 1 {
      assert Greedy(Weights(s)) == 0 by { GreedySingle(Weights(s)); }
    } else if m == 0 {
      SpaceAllZero(s);
    } else if forall i :: 0 <= i < |s| ==> s[i].l != m {
      SpaceEven(s, m);
      GreedyIsLeast(s, m - 1);
    } else {
      var t, a, b := MergeDeepest(s, m);
      GreedyIsLeast(t, m);
    }
  }

  lemma GreedySingle(ws: multiset<nat>)
    requires |ws| <= 1
    ensures Greedy(ws) == 0
  {
  }

  /** Join the two lightest items into one that is a level higher. */
  lemma MergeDeepest(s: seq<Item>, m: nat) returns (t: seq<Item>, a: nat, b: nat)
    requires |s| >= 2 && m > 0 && Below(s, m) && Space(s, m) == Pow2(m)
    requires exists i :: 0 <= i < |s| && s[i].l == m
    ensures |t| == |s| - 1 && Below(t, m) && Space(t, m) == Pow2(m)
    ensures Greedy(Weights(s)) == a + b + Greedy(Weights(t))
    ensures Cost(t) + a + b <= Cost(s)
  {
    hide Weights, Cost, Space, Greedy, Below, Pow2, Merged;
    var r;
    r, a := LightestDeepest(s, m);
    SpaceParity(m);
    SomeDeepest(r, m);
    var u;
    u, b := LightestDeepest(r, m);
    AddJoined(u, a, b, m);
    t := u + [Item(a + b, m - 1)];
    assert Weights(t) == Merged(Weights(s), a, b);
    GreedyStep(Weights(s), a, b);
  }

  lemma AddJoined(u: seq<Item>, a: nat, b: nat, m: nat)
    requires m > 0 && Below(u, m)
    ensures var t := u + [Item(a + b, m - 1)];
            && Below(t, m)
            && Space(t, m) == Space(u, m) + 2
            && Cost(t) + a + b == Cost(u) + a * m + b * m
            && forall ws :: Weights(u) == ws - multiset{a} - multiset{b} ==> Weights(t) == Merged(ws, a, b)
  {
    hide Weights, Cost, Space, Below;
    AddItem(u, Item(a + b, m - 1), m);
    SpaceParity(m);
    JoinedCost(a, b, m);
  }

  lemma SpaceParity(m: nat)
    requires m > 0
    ensures Pow2(m) % 2 == 0 && Pow2(0) == 1 && Pow2(m - (m - 1)) == 2
  {
  }

  lemma JoinedCost(a: nat, b: nat, m: nat)
    requires m > 0
    ensures (a + b) * (m - 1) + a + b == a * m + b * m
  {
  }

  // ---------- binary trees ----------

  datatype CodeTree = Leaf(w: nat) | Fork(left: CodeTree, right: CodeTree)
  {
    /** The leaves with their depths, in left-to-right order. */
    ghost function Leaves(d: nat): seq<Item>
    {
      match this
      case Leaf(w) => [Item(w, d)]
      case Fork(l, r) => l.Leaves(d + 1) + r.Leaves(d + 1)
    }

    ghost function Height(): nat
    {
      match this
      case Leaf(_) => 0
      case Fork(l, r) => 1 + if l.Height() < r.Height() then r.Height() else l.Height()
    }
  }

  lemma {:induction false} SpaceConcat(a: seq<Item>, b: seq<Item>, m: nat)
    requires Below(a, m) && Below(b, m)
    ensures Below(a + b, m) && Space(a + b, m) == Space(a, m) + Space(b, m)
  {
    if b == [] {
      assert a + b == a;
    } else {
      assert (a + b)[..|a + b| - 1] == a + b[..|b| - 1];
      SpaceConcat(a, b[..|b| - 1], m);
    }
  }

  lemma {:induction false} TreeFillsSpace(t: CodeTree, d: nat, m: nat)
    requires d + t.Height() <= m
    ensures t.Leaves(d) != [] && Below(t.Leaves(d), m) && Space(t.Leaves(d), m) == Pow2(m - d)
  {
    match t
    case Leaf(w) =>
      AddItem([], Item(w, d), m);
      assert [] + [Item(w, d)] == [Item(w, d)];
    case Fork(l, r) =>
      TreeFillsSpace(l, d + 1, m);
      TreeFillsSpace(r, d + 1, m);
      SpaceConcat(l.Leaves(d + 1), r.Leaves(d + 1), m);
  }

  /** Every binary tree on the same weights costs at least the greedy total. */
  lemma TreeCostAtLeastGreedy(t: CodeTree)
    ensures Greedy(Weights(t.Leaves(0))) <= Cost(t.Leaves(0))
  {
    TreeFillsSpace(t, 0, t.Height());
    GreedyIsLeast(t.Leaves(0), t.Height());
  }
}
