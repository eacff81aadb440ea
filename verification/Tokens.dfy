/** Literals and matches: what they expand to, how they are coded and what they cost. */
module Tokens {
  import opened Arith
  import opened Bits
  import opened Canonical
  import opened Inflate
  import opened MatchCodes
  import opened BitLengths

  datatype Token = Literal(b: Byte) | Pair(dist: nat, len: nat)

  predicate Proper(t: Token)
  {
    t.Pair? ==> 1 <= t.dist <= 32768 && MIN_MATCH <= t.len <= MAX_MATCH
  }

  /** The token that ct_tally records; `dist` is 0 for a literal. */
  function TokenOf(dist: nat, lc: Byte): Token
  {
    if dist == 0 then Literal(lc) else Pair(dist, lc + MIN_MATCH)
  }

  // ---------- expansion ----------

  function Apply(out: seq<Byte>, t: Token): Option<seq<Byte>>
  {
    match t
    case Literal(x) => Some(out + [x])
    case Pair(dist, len) => if 1 <= dist <= |out| then Some(Copy(out, dist, len)) else None
  }

  function Expand(out: seq<Byte>, toks: seq<Token>): Option<seq<Byte>>
    decreases |toks|
  {
    if toks == [] then Some(out)
    else
      match Apply(out, toks[0])
      case None => None
      case Some(next) => Expand(next, toks[1..])
  }

  lemma {:induction false} ExpandConcat(out: seq<Byte>, a: seq<Token>, b: seq<Token>)
    ensures Expand(out, a + b)
         == match Expand(out, a) case None => None case Some(next) => Expand(next, b)
    decreases |a|
  {
    if a == [] {
      assert a + b == b;
    } else {
      assert (a + b)[1..] == a[1..] + b;
      match Apply(out, a[0])
      case None =>
      case Some(next) => ExpandConcat(next, a[1..], b);
    }
  }

  lemma ExpandOne(out: seq<Byte>, t: Token)
    ensures Expand(out, [t]) == Apply(out, t)
  {
    assert [t][1..] == [];
    match Apply(out, t)
    case None =>
    case Some(next) => assert Expand(next, []) == Some(next);
  }

  // ---------- symbols and bits ----------

  function LitSym(tb: Tables, t: Token): nat
    requires ValidTables(tb) && Proper(t)
  {
    match t
    case Literal(x) => x
    case Pair(_, len) => LITERALS + 1 + tb.lengthCode[len - MIN_MATCH]
  }

  function DistSym(tb: Tables, t: Token): nat
    requires ValidTables(tb) && Proper(t) && t.Pair?
  {
    DCode(tb.distCode, t.dist - 1)
  }

  lemma SymFacts(tb: Tables, t: Token)
    requires ValidTables(tb) && Proper(t)
    ensures LitSym(tb, t) < 286 && LitSym(tb, t) != END_BLOCK
    ensures t.Pair? ==> 257 <= LitSym(tb, t) && LengthFits(t.len - MIN_MATCH, LitSym(tb, t) - 257)
    ensures t.Pair? ==> DistFits(t.dist - 1, DistSym(tb, t))
  {
    hide LengthFits, DistFits;
    if t.Pair? {
      assert LengthEntry(tb.lengthCode, tb.baseLength, t.len - MIN_MATCH);
      assert DistEntry(tb.distCode, tb.baseDist, t.dist - 1);
      FitsBound(t.len - MIN_MATCH, LitSym(tb, t) - 257, t.dist - 1, DistSym(tb, t));
    }
  }

  lemma FitsBound(lc: nat, c: nat, d: nat, e: nat)
    ensures LengthFits(lc, c) ==> c < LENGTH_CODES
    ensures DistFits(d, e) ==> e < D_CODES
  {
  }

  /** The codes `ll` and `dl` have a code word for every part of the token. */
  predicate Codable(tb: Tables, ll: Lengths, dl: Lengths, t: Token)
    requires ValidTables(tb)
  {
    && Proper(t)
    && LitSym(tb, t) < |ll| && ll[LitSym(tb, t)] > 0
    && (t.Pair? ==> DistSym(tb, t) < |dl| && dl[DistSym(tb, t)] > 0)
  }

  function MatchBits(tb: Tables, dl: Lengths, t: Token): BitString
    requires ValidTables(tb) && Proper(t) && t.Pair? && DistSym(tb, t) < |dl|
  {
    SymFacts(tb, t);
    var c, e := LitSym(tb, t) - 257, DistSym(tb, t);
    LsbBits(t.len - LENGTH_BASE[c], LENGTH_EXTRA[c]) + (CodeBits(dl, e) + LsbBits(t.dist - DIST_BASE[e], DIST_EXTRA[e]))
  }

  function TokenBits(tb: Tables, ll: Lengths, dl: Lengths, t: Token): BitString
    requires ValidTables(tb) && Codable(tb, ll, dl, t)
  {
    CodeBits(ll, LitSym(tb, t)) + (if t.Pair? then MatchBits(tb, dl, t) else [])
  }

  predicate AllCodable(tb: Tables, ll: Lengths, dl: Lengths, toks: seq<Token>)
    requires ValidTables(tb)
  {
    forall i :: 0 <= i < |toks| ==> Codable(tb, ll, dl, toks[i])
  }

  function DataBits(tb: Tables, ll: Lengths, dl: Lengths, toks: seq<Token>): BitString
    requires ValidTables(tb) && AllCodable(tb, ll, dl, toks)
    decreases |toks|
  {
    if toks == [] then [] else TokenBits(tb, ll, dl, toks[0]) + DataBits(tb, ll, dl, toks[1..])
  }

  // ---------- the decoder reads tokens back ----------

  lemma ReadField(b: BitString, pos: nat, v: nat, n: nat)
    requires v < Pow2(n) && HasAt(b, pos, LsbBits(v, n))
    ensures ReadBits(b, pos, n) == Got(v, pos + n)
  {
    LsbValueBits(v, n);
  }

  /** A length-limited prefix code. */
  ghost predicate GoodCode(lens: Lengths)
  {
    Bounded(lens, MAX_BITS) && Kraft(lens, MAX_BITS) <= Pow2(MAX_BITS)
  }

  /** The fields of a match and their ranges. */
  lemma MatchFields(tb: Tables, t: Token)
    requires ValidTables(tb) && Proper(t) && t.Pair?
    ensures |LENGTH_BASE| == |LENGTH_EXTRA| == 29 && |DIST_BASE| == |DIST_EXTRA| == 30
    ensures 257 <= LitSym(tb, t) <= 285 && DistSym(tb, t) < 30
    ensures var c := LitSym(tb, t) - 257; 0 <= t.len - LENGTH_BASE[c] < Pow2(LENGTH_EXTRA[c])
    ensures var e := DistSym(tb, t); 0 <= t.dist - DIST_BASE[e] < Pow2(DIST_EXTRA[e])
  {
    hide ValidTables, Pow2, LitSym, DistSym;
    ExtraTables();
    SymFacts(tb, t);
  }

  lemma ReadMatchBack(tb: Tables, dl: Lengths, t: Token, b: BitString, pos: nat)
    requires ValidTables(tb) && Proper(t) && t.Pair? && DistSym(tb, t) < |dl| && dl[DistSym(tb, t)] > 0 && GoodCode(dl)
    requires HasAt(b, pos, MatchBits(tb, dl, t))
    ensures 257 <= LitSym(tb, t) <= 285
    ensures ReadMatch(b, pos, LitSym(tb, t), dl) == Got(Match(t.dist, t.len), pos + |MatchBits(tb, dl, t)|)
  {
    hide Kraft, Pow2, ValidTables, HasAt, DecodeSymbol, ReadBits, CodeBits, LsbBits, DistSym, LitSym,
         LENGTH_BASE, LENGTH_EXTRA, DIST_BASE, DIST_EXTRA, LengthFits, DistFits;
    MatchFields(tb, t);
    var c, e := LitSym(tb, t) - 257, DistSym(tb, t);
    var x, y := LsbBits(t.len - LENGTH_BASE[c], LENGTH_EXTRA[c]), LsbBits(t.dist - DIST_BASE[e], DIST_EXTRA[e]);
    HasAtSplit(b, pos, x, CodeBits(dl, e) + y);
    HasAtSplit(b, pos + |x|, CodeBits(dl, e), y);
    ReadField(b, pos, t.len - LENGTH_BASE[c], LENGTH_EXTRA[c]);
    DecodeCode(dl, MAX_BITS, b, pos + |x|, e);
    ReadField(b, pos + |x| + dl[e], t.dist - DIST_BASE[e], DIST_EXTRA[e]);
  }

  lemma ReadToken(tb: Tables, ll: Lengths, dl: Lengths, t: Token, b: BitString, pos: nat, out: seq<Byte>)
    requires ValidTables(tb) && Codable(tb, ll, dl, t) && GoodCode(ll) && GoodCode(dl)
    requires HasAt(b, pos, TokenBits(tb, ll, dl, t)) && Apply(out, t).Some?
    ensures ReadData(b, pos, ll, dl, out) == ReadData(b, pos + |TokenBits(tb, ll, dl, t)|, ll, dl, Apply(out, t).value)
  {
    hide Kraft, Pow2, ValidTables, HasAt, DecodeSymbol, CodeBits, MatchBits, ReadMatch, Bounded, LengthFits, DistFits, Copy;
    SymFacts(tb, t);
    var s := LitSym(tb, t);
    if t.Pair? {
      HasAtSplit(b, pos, CodeBits(ll, s), MatchBits(tb, dl, t));
      DecodeCode(ll, MAX_BITS, b, pos, s);
      ReadMatchBack(tb, dl, t, b, pos + ll[s]);
    } else {
      HasAtSplit(b, pos, CodeBits(ll, s), []);
      DecodeCode(ll, MAX_BITS, b, pos, s);
    }
  }

  /** Decoding the bits of a block's tokens and end symbol yields their expansion. */
  lemma {:induction false} ReadDataBack(tb: Tables, ll: Lengths, dl: Lengths, toks: seq<Token>, b: BitString, pos: nat,
                                        out: seq<Byte>, final: seq<Byte>)
    requires ValidTables(tb) && AllCodable(tb, ll, dl, toks) && GoodCode(ll) && GoodCode(dl)
    requires |ll| > END_BLOCK && ll[END_BLOCK] > 0
    requires HasAt(b, pos, DataBits(tb, ll, dl, toks) + CodeBits(ll, END_BLOCK))
    requires Expand(out, toks) == Some(final)
    ensures ReadData(b, pos, ll, dl, out) == Got(final, pos + |DataBits(tb, ll, dl, toks)| + ll[END_BLOCK])
    decreases |toks|
  {
    hide Kraft, Pow2, ValidTables, HasAt, DecodeSymbol, CodeBits, TokenBits, Apply, GoodCode, ReadData, Codable;
    var e := CodeBits(ll, END_BLOCK);
    HasAtSplit(b, pos, DataBits(tb, ll, dl, toks), e);
    if toks == [] {
      ReadEnd(ll, dl, b, pos, out);
    } else {
      var t := toks[0];
      var rest := DataBits(tb, ll, dl, toks[1..]);
      HasAtSplit(b, pos, TokenBits(tb, ll, dl, t), rest);
      HasAtJoin(b, pos + |TokenBits(tb, ll, dl, t)|, rest, e);
      ReadToken(tb, ll, dl, t, b, pos, out);
      ReadDataBack(tb, ll, dl, toks[1..], b, pos + |TokenBits(tb, ll, dl, t)|, Apply(out, t).value, final);
    }
  }

  lemma ReadEnd(ll: Lengths, dl: Lengths, b: BitString, pos: nat, out: seq<Byte>)
    requires |ll| > END_BLOCK && ll[END_BLOCK] > 0 && GoodCode(ll) && HasAt(b, pos, CodeBits(ll, END_BLOCK))
    ensures ReadData(b, pos, ll, dl, out) == Got(out, pos + ll[END_BLOCK])
  {
    DecodeCode(ll, MAX_BITS, b, pos, END_BLOCK);
  }

  // ---------- frequencies and costs ----------

  const L_DESC: TreeDesc := TreeDesc(286, MAX_BITS, LITERALS + 1, EXTRA_LBITS)
  const D_DESC: TreeDesc := TreeDesc(D_CODES, MAX_BITS, 0, EXTRA_DBITS)

  /** Cost of each symbol under the lengths `lens`, whether it occurs or not. */
  ghost function Prices(freq: seq<nat>, lens: Lengths, desc: TreeDesc): (r: seq<int>)
    requires ValidDesc(desc) && |freq| == desc.elems <= |lens|
    ensures |r| == |freq|
  {
    seq(|freq|, i requires 0 <= i < |freq| => Price(freq[i], lens[i], Extra(desc, i)))
  }

  lemma PriceMore(f: nat, len: nat, x: nat)
    ensures Price(f + 1, len, x) == Price(f, len, x) + len + x && Price(0, len, x) == 0
  {
  }

  lemma PricesUpdate(freq: seq<nat>, lens: Lengths, desc: TreeDesc, i: nat)
    requires ValidDesc(desc) && |freq| == desc.elems <= |lens| && i < |freq|
    ensures Sum(Prices(freq[i := freq[i] + 1], lens, desc)) == Sum(Prices(freq, lens, desc)) + lens[i] + Extra(desc, i)
  {
    hide Price, Extra;
    var p := Price(freq[i] + 1, lens[i], Extra(desc, i));
    PriceMore(freq[i], lens[i], Extra(desc, i));
    assert Prices(freq[i := freq[i] + 1], lens, desc) == Prices(freq, lens, desc)[i := p];
    SumUpdate(Prices(freq, lens, desc), i, p);
  }

  /** Counting only symbols that have a code loses nothing when all that occur have one. */
  lemma PricesAreCosts(freq: seq<nat>, lens: Lengths, fixed: Lengths, desc: TreeDesc)
    requires ValidDesc(desc) && |freq| == |lens| == desc.elems <= |fixed|
    requires forall i :: 0 <= i < |freq| && freq[i] > 0 ==> lens[i] > 0
    ensures FixedCosts(freq, lens, fixed, desc) == Prices(freq, fixed, desc)
  {
    hide Price, Extra;
    forall i | 0 <= i < |freq| ensures FixedCosts(freq, lens, fixed, desc)[i] == Prices(freq, fixed, desc)[i] {
      PriceMore(freq[i], fixed[i], Extra(desc, i));
    }
  }
}
