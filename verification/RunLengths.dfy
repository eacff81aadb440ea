/**
 Run-length coding of code lengths: the loops of scan_tree and send_tree, the
 symbols they stand for, and the proof that these symbols unpack to the lengths.
 */
module RunLengths {
  import opened Arith
  import opened Bits
  import opened Canonical
  import opened Inflate

  /** A code length symbol with its repeat argument. */
  datatype ClSym = ClSym(code: nat, arg: nat)

  const GUARD: nat := 0xffff
  const REP_3_6: nat := 16
  const REPZ_3_10: nat := 17
  const REPZ_11_138: nat := 18

  function MaxCount(prev: int, cur: int): nat
  {
    if cur == 0 then 138 else if cur == prev then 6 else 7
  }

  function MinCount(prev: int, cur: int): nat
  {
    if cur == 0 || cur == prev then 3 else 4
  }

  function Times(n: nat, x: ClSym): (r: seq<ClSym>)
    ensures |r| == n
  {
    if n == 0 then [] else Times(n - 1, x) + [x]
  }

  /** The symbols for a run of `count` lengths `cur` that follows the length `prev`. */
  function Emit(prev: int, cur: nat, count: nat): seq<ClSym>
    requires count >= 1
  {
    if count < MinCount(prev, cur) then Times(count, ClSym(cur, 0))
    else if cur != 0 then
      if cur != prev then [ClSym(cur, 0), ClSym(REP_3_6, count - 4)] else [ClSym(REP_3_6, count - 3)]
    else if count <= 10 then [ClSym(REPZ_3_10, count - 3)]
    else [ClSym(REPZ_11_138, if count >= 11 then count - 11 else 0)]
  }

  function Next(lens: Lengths, n: nat): nat
  {
    if n < |lens| then lens[n] else GUARD
  }

  /** The symbols for `lens[n - count..]` when the last run sent had length `prev`. */
  function Runs(lens: Lengths, n: nat, prev: int, count: nat): seq<ClSym>
    requires n <= |lens|
    decreases |lens| - n
  {
    if n == |lens| then []
    else if count + 1 < MaxCount(prev, lens[n]) && lens[n] == Next(lens, n + 1) then Runs(lens, n + 1, prev, count + 1)
    else Emit(prev, lens[n], count + 1) + Runs(lens, n + 1, lens[n], 0)
  }

  function Packed(lens: Lengths): seq<ClSym>
  {
    Runs(lens, 0, -1, 0)
  }

  // ---------- unpacking ----------

  function UnpackAll(out: Lengths, syms: seq<ClSym>): (r: Option<Lengths>)
    ensures r.Some? ==> |r.value| >= |out|
    decreases |syms|
  {
    if syms == [] then Some(out)
    else
      match Unpack(out, syms[0].code, syms[0].arg)
      case None => None
      case Some(next) => UnpackAll(next, syms[1..])
  }

  lemma {:induction false} UnpackConcat(out: Lengths, a: seq<ClSym>, b: seq<ClSym>)
    ensures UnpackAll(out, a + b)
         == match UnpackAll(out, a) case None => None case Some(next) => UnpackAll(next, b)
    decreases |a|
  {
    if a == [] {
      assert a + b == b;
    } else {
      assert (a + b)[1..] == a[1..] + b;
      match Unpack(out, a[0].code, a[0].arg)
      case None =>
      case Some(next) => UnpackConcat(next, a[1..], b);
    }
  }

  lemma {:induction false} UnpackTimes(out: Lengths, n: nat, x: nat)
    requires x < 16
    ensures UnpackAll(out, Times(n, ClSym(x, 0))) == Some(out + Repeat(x, n))
  {
    if n == 0 {
      assert out + Repeat(x, 0) == out;
    } else {
      UnpackTimes(out, n - 1, x);
      UnpackConcat(out, Times(n - 1, ClSym(x, 0)), [ClSym(x, 0)]);
      UnpackOne(out + Repeat(x, n - 1), ClSym(x, 0));
      assert out + Repeat(x, n - 1) + [x] == out + Repeat(x, n);
    }
  }

  lemma UnpackOne(out: Lengths, s: ClSym)
    ensures UnpackAll(out, [s]) == Unpack(out, s.code, s.arg)
  {
    assert [s][1..] == [];
    match Unpack(out, s.code, s.arg)
    case None =>
    case Some(next) => assert UnpackAll(next, []) == Some(next);
  }

  /** `out` may be followed by a run that refers back to `prev`. */
  ghost predicate EndsWith(out: Lengths, prev: int)
  {
    prev == -1 || (out != [] && out[|out| - 1] == prev)
  }

  lemma EmitUnpacks(out: Lengths, prev: int, cur: nat, count: nat)
    requires EndsWith(out, prev) && cur < 16 && 1 <= count <= MaxCount(prev, cur)
    ensures UnpackAll(out, Emit(prev, cur, count)) == Some(out + Repeat(cur, count))
  {
    var e := Emit(prev, cur, count);
    if count < MinCount(prev, cur) {
      UnpackTimes(out, count, cur);
    } else if cur != 0 && cur != prev {
      assert e == [ClSym(cur, 0)] + [ClSym(REP_3_6, count - 4)];
      UnpackConcat(out, [ClSym(cur, 0)], [ClSym(REP_3_6, count - 4)]);
      UnpackOne(out, ClSym(cur, 0));
      UnpackOne(out + [cur], ClSym(REP_3_6, count - 4));
      assert out + [cur] + Repeat(cur, count - 1) == out + Repeat(cur, count);
    } else {
      UnpackOne(out, e[0]);
    }
  }

  lemma NothingUnpacks(out: Lengths)
    ensures UnpackAll(out, []) == Some(out)
  {
  }

  lemma {:induction false} RunsUnpack(out: Lengths, lens: Lengths, n: nat, prev: int, count: nat)
    requires count <= n <= |lens| && EndsWith(out, prev) && Bounded(lens, 15)
    requires n < |lens| ==> count < MaxCount(prev, lens[n])
    requires n == |lens| ==> count == 0
    requires forall i :: n - count <= i < n ==> n < |lens| && lens[i] == lens[n]
    ensures UnpackAll(out, Runs(lens, n, prev, count)) == Some(out + lens[n - count..])
    decreases |lens| - n
  {
    hide Emit, UnpackAll, MinCount;
    if n == |lens| {
      NothingUnpacks(out);
      assert out + lens[n..] == out;
    } else if count + 1 < MaxCount(prev, lens[n]) && lens[n] == Next(lens, n + 1) {
      RunsUnpack(out, lens, n + 1, prev, count + 1);
    } else {
      var cur := lens[n];
      EmitUnpacks(out, prev, cur, count + 1);
      UnpackConcat(out, Emit(prev, cur, count + 1), Runs(lens, n + 1, cur, 0));
      RunsUnpack(out + Repeat(cur, count + 1), lens, n + 1, cur, 0);
      assert lens[n - count..] == Repeat(cur, count + 1) + lens[n + 1..];
      assert out + Repeat(cur, count + 1) + lens[n + 1..] == out + (Repeat(cur, count + 1) + lens[n + 1..]);
    }
  }

  /** The packed symbols unpack to exactly the lengths, after any lengths already read. */
  lemma PackedUnpacks(out: Lengths, lens: Lengths)
    requires Bounded(lens, 15)
    ensures UnpackAll(out, Packed(lens)) == Some(out + lens)
  {
    RunsUnpack(out, lens, 0, -1, 0);
    assert lens[0..] == lens;
  }

  // ---------- every argument fits its field ----------

  predicate Fits(s: ClSym)
  {
    s.code <= 18 && s.arg < Pow2(ClExtra(s.code))
  }

  predicate AllFit(syms: seq<ClSym>)
  {
    forall i :: 0 <= i < |syms| ==> Fits(syms[i])
  }

  lemma {:induction false} TimesAll(n: nat, x: ClSym)
    ensures forall i :: 0 <= i < n ==> Times(n, x)[i] == x
  {
    if n > 0 {
      TimesAll(n - 1, x);
    }
  }

  lemma EmitFits(prev: int, cur: nat, count: nat)
    requires cur < 16 && 1 <= count <= MaxCount(prev, cur)
    ensures AllFit(Emit(prev, cur, count))
  {
    Pow2Values();
    Pow2Zero();
    TimesAll(count, ClSym(cur, 0));
  }

  lemma {:induction false} RunsFit(lens: Lengths, n: nat, prev: int, count: nat)
    requires n <= |lens| && Bounded(lens, 15) && (n < |lens| ==> count < MaxCount(prev, lens[n]))
    ensures AllFit(Runs(lens, n, prev, count))
    decreases |lens| - n
  {
    if n == |lens| {
    } else if count + 1 < MaxCount(prev, lens[n]) && lens[n] == Next(lens, n + 1) {
      RunsFit(lens, n + 1, prev, count + 1);
    } else {
      EmitFits(prev, lens[n], count + 1);
      RunsFit(lens, n + 1, lens[n], 0);
    }
  }

  // ---------- the bits ----------

  function SymBits(cl: Lengths, s: ClSym): BitString
    requires s.code < |cl|
  {
    CodeBits(cl, s.code) + LsbBits(s.arg, ClExtra(s.code))
  }

  /** All symbols have codes of at least one bit. */
  predicate Sendable(cl: Lengths, syms: seq<ClSym>)
  {
    forall i :: 0 <= i < |syms| ==> Fits(syms[i]) && syms[i].code < |cl| && cl[syms[i].code] > 0
  }

  function SymsBits(cl: Lengths, syms: seq<ClSym>): BitString
    requires Sendable(cl, syms)
  {
    if syms == [] then [] else SymBits(cl, syms[0]) + SymsBits(cl, syms[1..])
  }

  lemma {:induction false} SymsBitsConcat(cl: Lengths, a: seq<ClSym>, b: seq<ClSym>)
    requires Sendable(cl, a + b)
    ensures Sendable(cl, a) && Sendable(cl, b)
    ensures SymsBits(cl, a + b) == SymsBits(cl, a) + SymsBits(cl, b)
  {
    forall i | 0 <= i < |a| ensures a[i] == (a + b)[i] {}
    forall i | 0 <= i < |b| ensures b[i] == (a + b)[|a| + i] {}
    if a == [] {
      assert a + b == b;
    } else {
      assert (a + b)[1..] == a[1..] + b;
      SymsBitsConcat(cl, a[1..], b);
    }
  }

  lemma ReadArg(b: BitString, pos: nat, v: nat, n: nat)
    requires v < Pow2(n) && HasAt(b, pos, LsbBits(v, n))
    ensures ReadBits(b, pos, n) == Got(v, pos + n)
  {
    LsbValueBits(v, n);
  }

  /** The decoder reads back the lengths that the symbols stand for. */
  lemma {:induction false} ReadSyms(b: BitString, pos: nat, cl: Lengths, syms: seq<ClSym>, out: Lengths, final: Lengths)
    requires Bounded(cl, 7) && Kraft(cl, 7) <= Pow2(7)
    requires Sendable(cl, syms) && HasAt(b, pos, SymsBits(cl, syms))
    requires UnpackAll(out, syms) == Some(final)
    ensures ReadLengths(b, pos, cl, |final|, out) == Got(final, pos + |SymsBits(cl, syms)|)
    decreases |syms|
  {
    hide Kraft, Pow2, SymBits, Unpack, HasAt, DecodeSymbol, ReadBits, Bounded;
    if syms == [] {
      assert SymsBits(cl, syms) == [];
    } else {
      var s := syms[0];
      HasAtSplit(b, pos, SymBits(cl, s), SymsBits(cl, syms[1..]));
      ReadSym(b, pos, cl, s);
      var next := Unpack(out, s.code, s.arg).value;
      ReadSyms(b, pos + |SymBits(cl, s)|, cl, syms[1..], next, final);
    }
  }

  lemma ReadSym(b: BitString, pos: nat, cl: Lengths, s: ClSym)
    requires Bounded(cl, 7) && Kraft(cl, 7) <= Pow2(7)
    requires Fits(s) && s.code < |cl| && cl[s.code] > 0 && HasAt(b, pos, SymBits(cl, s))
    ensures DecodeSymbol(cl, b, pos) == Got(s.code, pos + cl[s.code])
    ensures ReadBits(b, pos + cl[s.code], ClExtra(s.code)) == Got(s.arg, pos + |SymBits(cl, s)|)
  {
    hide Kraft, Pow2, CodeBits;
    HasAtSplit(b, pos, CodeBits(cl, s.code), LsbBits(s.arg, ClExtra(s.code)));
    DecodeCode(cl, 7, b, pos, s.code);
    ReadArg(b, pos + cl[s.code], s.arg, ClExtra(s.code));
  }
}
