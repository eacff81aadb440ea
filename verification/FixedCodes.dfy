/** The static trees of ct_init are the fixed codes of section 3.2.6 of RFC 1951. */
module FixedCodes {
  import opened Arith
  import opened Bits
  import opened Canonical
  import opened Inflate
  import opened MatchCodes
  import opened Tokens
  import opened CodeTables
  import opened TreeHeap
  import opened LengthLimit

  lemma {:induction false} CountConcat(a: Lengths, b: Lengths, l: nat)
    ensures Count(a + b, l) == Count(a, l) + Count(b, l)
  {
    if b == [] {
      assert a + b == a;
    } else {
      assert (a + b)[..|a + b| - 1] == a + b[..|b| - 1];
      CountConcat(a, b[..|b| - 1], l);
    }
  }

  lemma {:induction false} CountRepeat(x: nat, n: nat, l: nat)
    ensures Count(Repeat(x, n), l) == if x == l then n else 0
  {
    if n > 0 {
      assert Repeat(x, n)[..n - 1] == Repeat(x, n - 1);
      CountRepeat(x, n - 1, l);
    }
  }

  lemma {:induction false} KraftConcat(a: Lengths, b: Lengths, m: nat)
    requires Bounded(a, m) && Bounded(b, m)
    ensures Bounded(a + b, m) && Kraft(a + b, m) == Kraft(a, m) + Kraft(b, m)
  {
    if b == [] {
      assert a + b == a;
    } else {
      assert (a + b)[..|a + b| - 1] == a + b[..|b| - 1];
      KraftConcat(a, b[..|b| - 1], m);
      KraftSnoc(a + b, m);
      KraftSnoc(b, m);
    }
  }

  lemma {:induction false} KraftRepeat(x: nat, n: nat, m: nat)
    requires 0 < x <= m
    ensures Bounded(Repeat(x, n), m) && Kraft(Repeat(x, n), m) == n * Pow2(m - x)
  {
    if n > 0 {
      assert Repeat(x, n)[..n - 1] == Repeat(x, n - 1);
      KraftRepeat(x, n - 1, m);
      KraftSnoc(Repeat(x, n), m);
    }
  }

  lemma FixedLitParts()
    ensures FixedLit() == Repeat(8, 144) + (Repeat(9, 112) + (Repeat(7, 24) + Repeat(8, 8)))
  {
  }

  lemma FixedLitCounts(l: nat)
    ensures Count(FixedLit(), l) == if l == 7 then 24 else if l == 8 then 152 else if l == 9 then 112 else 0
  {
    hide FixedLit;
    FixedLitParts();
    CountConcat(Repeat(8, 144), Repeat(9, 112) + (Repeat(7, 24) + Repeat(8, 8)), l);
    CountConcat(Repeat(9, 112), Repeat(7, 24) + Repeat(8, 8), l);
    CountConcat(Repeat(7, 24), Repeat(8, 8), l);
    CountRepeat(8, 144, l);
    CountRepeat(9, 112, l);
    CountRepeat(7, 24, l);
    CountRepeat(8, 8, l);
  }

  lemma FixedLitGood()
    ensures GoodCode(FixedLit())
  {
    hide FixedLit, Kraft, Pow2, Bounded;
    FixedLitParts();
    KraftRepeat(8, 144, 15);
    KraftRepeat(9, 112, 15);
    KraftRepeat(7, 24, 15);
    KraftRepeat(8, 8, 15);
    KraftConcat(Repeat(7, 24), Repeat(8, 8), 15);
    KraftConcat(Repeat(9, 112), Repeat(7, 24) + Repeat(8, 8), 15);
    KraftConcat(Repeat(8, 144), Repeat(9, 112) + (Repeat(7, 24) + Repeat(8, 8)), 15);
    Pow2Values();
  }

  lemma FixedDistGood(n: nat)
    requires n <= 32
    ensures GoodCode(Repeat(5, n))
  {
    KraftRepeat(5, n, 15);
    Pow2Values();
  }

  /** The 5-bit distance codes are the symbols themselves. */
  lemma FixedDistCode(n: nat, c: nat)
    requires c < n
    ensures Code(Repeat(5, n), c) == c
  {
    CountRepeat(5, n, 1);
    CountRepeat(5, n, 2);
    CountRepeat(5, n, 3);
    CountRepeat(5, n, 4);
    FirstFive(Repeat(5, n));
    assert Repeat(5, n)[..c] == Repeat(5, c);
    CountRepeat(5, c, 5);
  }

  lemma FirstFive(lens: Lengths)
    requires Count(lens, 1) == Count(lens, 2) == Count(lens, 3) == Count(lens, 4) == 0
    ensures FirstCode(lens, 5) == 0
  {
    assert FirstCode(lens, 1) == 0;
    assert FirstCode(lens, 2) == 0;
    assert FirstCode(lens, 3) == 0;
    assert FirstCode(lens, 4) == 0;
  }

  /** Sending with 30 or with 32 distance symbols makes no difference. */
  lemma FixedDistBits(c: nat)
    requires c < 30
    ensures CodeBits(Repeat(5, 30), c) == CodeBits(FixedDist(), c)
  {
    FixedDistCode(30, c);
    FixedDistCode(32, c);
  }

  /** Which bits the tokens have depends only on the code words. */
  lemma {:induction false} SameData(tb: Tables, ll: Lengths, toks: seq<Token>)
    requires ValidTables(tb) && AllCodable(tb, ll, Repeat(5, 30), toks)
    ensures AllCodable(tb, ll, FixedDist(), toks)
    ensures DataBits(tb, ll, FixedDist(), toks) == DataBits(tb, ll, Repeat(5, 30), toks)
    decreases |toks|
  {
    hide ValidTables, CodeBits, LsbBits, LitSym, DistSym;
    forall i | 0 <= i < |toks| ensures Codable(tb, ll, FixedDist(), toks[i]) {
      assert Codable(tb, ll, Repeat(5, 30), toks[i]);
    }
    if toks != [] {
      SameToken(tb, ll, toks[0]);
      SameData(tb, ll, toks[1..]);
    }
  }

  lemma SameToken(tb: Tables, ll: Lengths, t: Token)
    requires ValidTables(tb) && Codable(tb, ll, Repeat(5, 30), t)
    ensures Codable(tb, ll, FixedDist(), t)
    ensures TokenBits(tb, ll, FixedDist(), t) == TokenBits(tb, ll, Repeat(5, 30), t)
  {
    hide ValidTables, CodeBits, LsbBits, LitSym, DistSym, Pow2;
    if t.Pair? {
      FixedDistBits(DistSym(tb, t));
    }
  }

  // ---------- ct_init ----------

  method InitStaticTrees(ltree: array<CtData>, dtree: array<CtData>, blCount: array<nat>)
    requires ltree != dtree && ltree.Length == L_CODES + 2 && dtree.Length == D_CODES
    requires blCount.Length == MAX_BITS + 1 && forall b :: 0 <= b <= MAX_BITS ==> blCount[b] == 0
    modifies ltree, dtree, blCount
    ensures Lens(ltree[..], 288) == FixedLit() && HoldsCodes(ltree[..], FixedLit())
    ensures Lens(dtree[..], 30) == Repeat(5, 30) && HoldsCodes(dtree[..], Repeat(5, 30))
  {
    hide HoldsCodes, CodeBits, Count, Pow2;
    SetLens(ltree, 0, 144, 8);
    SetLens(ltree, 144, 256, 9);
    SetLens(ltree, 256, 280, 7);
    SetLens(ltree, 280, 288, 8);
    assert Lens(ltree[..], 288) == FixedLit();
    blCount[7] := 279 - 255;
    blCount[8] := (143 + 1) + (287 - 279);
    blCount[9] := 255 - 143;
    forall b | 1 <= b <= MAX_BITS ensures blCount[b] == Count(FixedLit(), b) {
      FixedLitCounts(b);
    }
    GenCodes(ltree, L_CODES + 1, blCount, FixedLit());
    assert Lens(ltree[..], 288) == FixedLit();
    InitStaticDist(dtree);
  }

  /** One of the loops that give the same length to a range of symbols. */
  method SetLens(tree: array<CtData>, from: nat, to: nat, len: nat)
    requires from <= to <= tree.Length
    modifies tree
    ensures forall i :: 0 <= i < tree.Length ==> tree[i] == if from <= i < to then old(tree[i]).(dl := len) else old(tree[i])
  {
    var n := from;
    while n < to
      invariant from <= n <= to
      invariant forall i :: 0 <= i < tree.Length ==> tree[i] == if from <= i < n then old(tree[i]).(dl := len) else old(tree[i])
    {
      tree[n] := tree[n].(dl := len);
      n := n + 1;
    }
  }

  method InitStaticDist(dtree: array<CtData>)
    requires dtree.Length == D_CODES
    modifies dtree
    ensures Lens(dtree[..], 30) == Repeat(5, 30) && HoldsCodes(dtree[..], Repeat(5, 30))
  {
    hide CodeBits, LsbBits, MsbBits, Pow2, Code;
    var n := 0;
    while n < D_CODES
      invariant 0 <= n <= D_CODES
      invariant forall i :: 0 <= i < n ==> HoldsCode(dtree[..], Repeat(5, 30), i)
    {
      var code := BiReverse(n, 5);
      FixedDistCode(30, n);
      DistCodeBits(n);
      ghost var before := dtree[..];
      dtree[n] := CtData(code, 5);
      forall i | 0 <= i < n ensures HoldsCode(dtree[..], Repeat(5, 30), i) {
        assert HoldsCode(before, Repeat(5, 30), i);
      }
      n := n + 1;
    }
    forall i | 0 <= i < 30 ensures dtree[i].dl == 5 {
      assert HoldsCode(dtree[..], Repeat(5, 30), i);
    }
  }

  lemma DistCodeBits(c: nat)
    requires c < 30
    ensures CodeBits(Repeat(5, 30), c) == MsbBits(Code(Repeat(5, 30), c), 5)
  {
  }
}
