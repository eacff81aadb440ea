/**
 Canonical Huffman codes as section 3.2.2 of RFC 1951 defines them from a list
 of code lengths, and the decoder that reads them.  A symbol of length 0 has no
 code.
 */
module Canonical {
  import opened Arith
  import opened Bits

  const MAX_BITS: nat := 15

  datatype Decoded<T> = Fail | Got(value: T, pos: nat)

  type Lengths = seq<nat>

  predicate Bounded(lens: Lengths, m: nat)
  {
    forall i :: 0 <= i < |lens| ==> lens[i] <= m
  }

  function Count(lens: Lengths, l: nat): nat
  {
    if lens == [] then 0
    else Count(lens[..|lens| - 1], l) + (if lens[|lens| - 1] == l then 1 else 0)
  }

  /** Sum of 2^(m - length) over the symbols whose length lies in 1 .. l-1. */
  function KraftBelow(lens: Lengths, m: nat, l: nat): nat
    requires Bounded(lens, m)
  {
    if lens == [] then 0
    else
      var x := lens[|lens| - 1];
      KraftBelow(lens[..|lens| - 1], m, l) + (if 0 < x < l then Pow2(m - x) else 0)
  }

  function Kraft(lens: Lengths, m: nat): nat
    requires Bounded(lens, m)
  {
    KraftBelow(lens, m, m + 1)
  }

  /** Smallest code of each length: step 2 of section 3.2.2 of RFC 1951. */
  function FirstCode(lens: Lengths, l: nat): nat
  {
    if l == 0 then 0
    else 2 * (FirstCode(lens, l - 1) + (if l == 1 then 0 else Count(lens, l - 1)))
  }

  /** Consecutive codes for the symbols of one length, in symbol order: step 3. */
  function Code(lens: Lengths, n: nat): nat
    requires n < |lens|
  {
    FirstCode(lens, lens[n]) + Count(lens[..n], lens[n])
  }

  function CodeBits(lens: Lengths, n: nat): (r: BitString)
    requires n < |lens|
    ensures |r| == lens[n]
  {
    MsbBits(Code(lens, n), lens[n])
  }

  // ---------- the reference decoder ----------

  /** The symbol among the first `n` that has the given length and code, or `n` itself. */
  function FindSymbol(lens: Lengths, l: nat, code: nat, n: nat): (r: nat)
    requires n <= |lens|
    ensures r <= n
    ensures r < n ==> lens[r] == l && Code(lens, r) == code
  {
    if n == 0 then 0
    else
      var r := FindSymbol(lens, l, code, n - 1);
      if r < n - 1 then r
      else if lens[n - 1] == l && Code(lens, n - 1) == code then n - 1
      else n
  }

  /** Read bits from `pos` until they form a code of at least `l` bits. */
  function DecodeFrom(lens: Lengths, b: BitString, pos: nat, l: nat): (r: Decoded<nat>)
    ensures r.Got? && l > 0 ==> r.value < |lens| && pos < r.pos <= |b|
    decreases MAX_BITS + 1 - l
  {
    if l > MAX_BITS || pos + l > |b| then Fail
    else
      var r := FindSymbol(lens, l, MsbValue(b[pos..pos + l]), |lens|);
      if r < |lens| then Got(r, pos + l) else DecodeFrom(lens, b, pos, l + 1)
  }

  function DecodeSymbol(lens: Lengths, b: BitString, pos: nat): (r: Decoded<nat>)
    ensures r.Got? ==> r.value < |lens| && pos < r.pos <= |b|
  {
    DecodeFrom(lens, b, pos, 1)
  }

  // ---------- the code is prefix-free ----------

  lemma {:induction false} KraftStep(lens: Lengths, m: nat, l: nat)
    requires Bounded(lens, m) && l <= m
    ensures KraftBelow(lens, m, l + 1)
         == KraftBelow(lens, m, l) + (if l == 0 then 0 else Count(lens, l) * Pow2(m - l))
  {
    if lens == [] {
    } else {
      var s := lens[..|lens| - 1];
      KraftStep(s, m, l);
      if l > 0 && lens[|lens| - 1] == l {
        Distribute(Count(s, l), 1, Pow2(m - l));
      }
    }
  }

  lemma {:induction false} KraftMono(lens: Lengths, m: nat, a: nat, b: nat)
    requires Bounded(lens, m) && a <= b <= m + 1
    ensures KraftBelow(lens, m, a) <= KraftBelow(lens, m, b)
    decreases b - a
  {
    hide KraftBelow, Pow2, Count;
    if a < b {
      KraftStep(lens, m, b - 1);
      KraftMono(lens, m, a, b - 1);
    }
  }

  lemma Regroup(f: nat, c: nat, p: nat)
    ensures 2 * (f + c) * p == f * (2 * p) + c * (2 * p)
  {
  }

  lemma Distribute(f: nat, c: nat, p: nat)
    ensures (f + c) * p == f * p + c * p
  {
  }

  lemma {:induction false} FirstCodeScaled(lens: Lengths, m: nat, l: nat)
    requires Bounded(lens, m) && l <= m
    ensures FirstCode(lens, l) * Pow2(m - l) == KraftBelow(lens, m, l)
  {
    if l == 0 {
      KraftBelowZero(lens, m);
    } else {
      FirstCodeScaled(lens, m, l - 1);
      KraftStep(lens, m, l - 1);
      var c := if l == 1 then 0 else Count(lens, l - 1);
      Regroup(FirstCode(lens, l - 1), c, Pow2(m - l));
    }
  }

  lemma {:induction false} KraftBelowZero(lens: Lengths, m: nat)
    requires Bounded(lens, m)
    ensures KraftBelow(lens, m, 0) == 0
  {
    if lens != [] {
      KraftBelowZero(lens[..|lens| - 1], m);
    }
  }

  lemma {:induction false} CountPrefix(lens: Lengths, a: nat, b: nat, l: nat)
    requires a <= b <= |lens|
    ensures Count(lens[..a], l) <= Count(lens[..b], l)
    ensures a < b && lens[a] == l ==> Count(lens[..a], l) < Count(lens[..b], l)
    decreases b
  {
    if a < b {
      assert lens[..b][..b - 1] == lens[..b - 1];
      CountPrefix(lens, a, b - 1, l);
    }
  }

  /** Where the codes that start with the code of `n` begin on a scale of 2^m. */
  function Start(lens: Lengths, m: nat, n: nat): nat
    requires Bounded(lens, m) && n < |lens|
  {
    Code(lens, n) * Pow2(m - lens[n])
  }

  /** `a` comes before `b` when symbols are sorted by length, then by number. */
  predicate Before(lens: Lengths, a: nat, b: nat)
    requires a < |lens| && b < |lens|
  {
    lens[a] < lens[b] || (lens[a] == lens[b] && a < b)
  }

  lemma StartValue(lens: Lengths, m: nat, n: nat)
    requires Bounded(lens, m) && n < |lens|
    ensures Start(lens, m, n)
         == KraftBelow(lens, m, lens[n]) + Count(lens[..n], lens[n]) * Pow2(m - lens[n])
  {
    hide FirstCode, Count, KraftBelow, Pow2;
    var l := lens[n];
    FirstCodeScaled(lens, m, l);
    Distribute(FirstCode(lens, l), Count(lens[..n], l), Pow2(m - l));
  }

  lemma StartEnd(lens: Lengths, m: nat, n: nat)
    requires Bounded(lens, m) && n < |lens| && lens[n] > 0
    ensures Start(lens, m, n) + Pow2(m - lens[n]) <= KraftBelow(lens, m, lens[n] + 1)
  {
    hide Start, KraftBelow, Count, Pow2;
    var l := lens[n];
    StartValue(lens, m, n);
    KraftStep(lens, m, l);
    assert lens[..|lens|] == lens;
    CountPrefix(lens, n, |lens|, l);
    ScaleStep(Count(lens[..n], l), Count(lens, l), Pow2(m - l));
  }

  lemma ScaleStep(a: nat, b: nat, p: nat)
    requires a < b
    ensures a * p + p <= b * p
  {
    MulMono(p, a + 1, b);
  }

  /** Codes of different symbols cover disjoint intervals. */
  lemma StartsDisjoint(lens: Lengths, m: nat, a: nat, b: nat)
    requires Bounded(lens, m) && a < |lens| && b < |lens| && lens[a] > 0
    requires Before(lens, a, b)
    ensures Start(lens, m, a) + Pow2(m - lens[a]) <= Start(lens, m, b)
  {
    StartValue(lens, m, b);
    if lens[a] < lens[b] {
      StartEnd(lens, m, a);
      KraftMono(lens, m, lens[a] + 1, lens[b]);
    } else {
      StartValue(lens, m, a);
      CountPrefix(lens, a, b, lens[a]);
      ScaleStep(Count(lens[..a], lens[a]), Count(lens[..b], lens[a]), Pow2(m - lens[a]));
    }
  }

  /** Every code fits its length. */
  lemma CodeFits(lens: Lengths, m: nat, n: nat)
    requires Bounded(lens, m) && Kraft(lens, m) <= Pow2(m)
    requires n < |lens| && lens[n] > 0
    ensures Code(lens, n) < Pow2(lens[n])
  {
    var l := lens[n];
    StartEnd(lens, m, n);
    KraftMono(lens, m, l + 1, m + 1);
    Pow2Add(l, m - l);
    CancelScale(Code(lens, n), Pow2(l), Pow2(m - l));
  }

  lemma CancelScale(c: nat, q: nat, p: nat)
    requires c * p + p <= q * p && p > 0
    ensures c < q
  {
    if c >= q {
      MulMono(p, q, c);
    }
  }

  /** The leading bits of one code are never the code of another symbol. */
  lemma PrefixFree(lens: Lengths, m: nat, a: nat, b: nat)
    requires Bounded(lens, m) && a < |lens| && b < |lens|
    requires 0 < lens[a] <= lens[b] && a != b
    ensures Code(lens, a) != Shr(Code(lens, b), lens[b] - lens[a])
  {
    var d := lens[b] - lens[a];
    var cb := Code(lens, b);
    ShrIsDiv(cb, d);
    var q, r := cb / Pow2(d), cb % Pow2(d);
    assert cb == q * Pow2(d) + r;
    Pow2Add(d, m - lens[b]);
    var p := Pow2(m - lens[b]);
    if Code(lens, a) == q {
      Interval(q, Pow2(d), r, p);
      assert Start(lens, m, a) == q * (Pow2(d) * p);
      assert Start(lens, m, b) == cb * p;
      if Before(lens, a, b) {
        StartsDisjoint(lens, m, a, b);
      } else {
        StartsDisjoint(lens, m, b, a);
      }
    }
  }

  lemma Interval(q: nat, e: nat, r: nat, p: nat)
    requires r < e && p > 0
    ensures q * (e * p) <= (q * e + r) * p < q * (e * p) + e * p
  {
    assert (q * e + r) * p == q * (e * p) + r * p;
    MulMono(p, r + 1, e);
  }

  // ---------- decoding inverts encoding ----------

  lemma {:induction false} FindSymbolUnique(lens: Lengths, m: nat, s: nat, n: nat)
    requires Bounded(lens, m) && s < n <= |lens| && lens[s] > 0
    ensures FindSymbol(lens, lens[s], Code(lens, s), n) == s
  {
    var r := FindSymbol(lens, lens[s], Code(lens, s), n - 1);
    if s < n - 1 {
      FindSymbolUnique(lens, m, s, n - 1);
    } else if r < n - 1 {
      PrefixFree(lens, m, r, s);
    }
  }

  lemma FindSymbolNone(lens: Lengths, m: nat, s: nat, l: nat)
    requires Bounded(lens, m) && s < |lens| && 0 < l < lens[s]
    ensures FindSymbol(lens, l, Shr(Code(lens, s), lens[s] - l), |lens|) == |lens|
  {
    var r := FindSymbol(lens, l, Shr(Code(lens, s), lens[s] - l), |lens|);
    if r < |lens| {
      PrefixFree(lens, m, r, s);
    }
  }

  lemma ReadPrefix(lens: Lengths, m: nat, b: BitString, pos: nat, s: nat, l: nat)
    requires Bounded(lens, m) && Kraft(lens, m) <= Pow2(m) && s < |lens| && 0 < l <= lens[s]
    requires HasAt(b, pos, CodeBits(lens, s))
    ensures pos + l <= |b| && MsbValue(b[pos..pos + l]) == Shr(Code(lens, s), lens[s] - l)
  {
    hide Bounded, Kraft, Code, MsbBits, MsbValue, Shr, Pow2;
    var e := CodeBits(lens, s);
    assert b[pos..pos + l] == b[pos..pos + |e|][..l] == e[..l];
    MsbPrefix(Code(lens, s), lens[s], l);
    CodeFits(lens, m, s);
    ShrLess(Code(lens, s), lens[s] - l, l);
    MsbValueBits(Shr(Code(lens, s), lens[s] - l), l);
  }

  lemma {:induction false} DecodeFromCode(lens: Lengths, m: nat, b: BitString, pos: nat, s: nat, l: nat)
    requires m <= MAX_BITS && Bounded(lens, m) && Kraft(lens, m) <= Pow2(m)
    requires s < |lens| && 0 < l <= lens[s]
    requires HasAt(b, pos, CodeBits(lens, s))
    ensures DecodeFrom(lens, b, pos, l) == Got(s, pos + lens[s])
    decreases lens[s] - l
  {
    hide Kraft, Code, CodeBits, HasAt, MsbValue, Shr, Pow2, FindSymbol;
    ReadPrefix(lens, m, b, pos, s, l);
    if l == lens[s] {
      ShrNone(Code(lens, s));
      FindSymbolUnique(lens, m, s, |lens|);
    } else {
      FindSymbolNone(lens, m, s, l);
      DecodeFromCode(lens, m, b, pos, s, l + 1);
    }
  }

  /** Reading at the code of `s` yields `s` and stops right after it. */
  lemma DecodeCode(lens: Lengths, m: nat, b: BitString, pos: nat, s: nat)
    requires m <= MAX_BITS && Bounded(lens, m) && Kraft(lens, m) <= Pow2(m)
    requires s < |lens| && lens[s] > 0
    requires HasAt(b, pos, CodeBits(lens, s))
    ensures DecodeSymbol(lens, b, pos) == Got(s, pos + lens[s])
  {
    DecodeFromCode(lens, m, b, pos, s, 1);
  }
}
