/** Symbol frequencies of a block and the exact number of bits its data takes. */
module TokenCosts {
  import opened Arith
  import opened Bits
  import opened Canonical
  import opened Inflate
  import opened MatchCodes
  import opened Tokens
  import opened TokenBuffer
  import opened BitLengths
  import opened TreeBuilder
  import opened BlockData

  predicate AllProper(toks: seq<Token>)
  {
    forall i :: 0 <= i < |toks| ==> Proper(toks[i])
  }

  /** How often each literal or length symbol is sent, counting the end of the block. */
  function LitFreq(tb: Tables, toks: seq<Token>): (r: seq<nat>)
    requires ValidTables(tb) && AllProper(toks)
    ensures |r| == 286
  {
    if toks == [] then Repeat(0, 286)[END_BLOCK := 1]
    else
      var e := |toks| - 1;
      var f := LitFreq(tb, toks[..e]);
      SymFacts(tb, toks[e]);
      f[LitSym(tb, toks[e]) := f[LitSym(tb, toks[e])] + 1]
  }

  function DistFreq(tb: Tables, toks: seq<Token>): (r: seq<nat>)
    requires ValidTables(tb) && AllProper(toks)
    ensures |r| == D_CODES
  {
    if toks == [] then Repeat(0, D_CODES)
    else
      var e := |toks| - 1;
      var f := DistFreq(tb, toks[..e]);
      if toks[e].Pair? then
        DistSymBound(tb, toks[e]);
        f[DistSym(tb, toks[e]) := f[DistSym(tb, toks[e])] + 1]
      else f
  }

  lemma DistSymBound(tb: Tables, t: Token)
    requires ValidTables(tb) && Proper(t) && t.Pair?
    ensures DistSym(tb, t) < D_CODES
  {
    SymFacts(tb, t);
  }

  lemma FreqSnoc(tb: Tables, toks: seq<Token>, t: Token)
    requires ValidTables(tb) && AllProper(toks) && Proper(t)
    ensures AllProper(toks + [t]) && LitSym(tb, t) < 286 && (t.Pair? ==> DistSym(tb, t) < D_CODES)
    ensures LitFreq(tb, toks + [t]) == LitFreq(tb, toks)[LitSym(tb, t) := LitFreq(tb, toks)[LitSym(tb, t)] + 1]
    ensures DistFreq(tb, toks + [t])
         == if t.Pair? then DistFreq(tb, toks)[DistSym(tb, t) := DistFreq(tb, toks)[DistSym(tb, t)] + 1] else DistFreq(tb, toks)
  {
    hide ValidTables, LitSym, DistSym;
    SymFacts(tb, t);
    if t.Pair? { DistSymBound(tb, t); }
    assert (toks + [t])[..|toks|] == toks;
  }

  lemma {:induction false} FreqFacts(tb: Tables, toks: seq<Token>)
    requires ValidTables(tb) && AllProper(toks)
    ensures Sum(LitFreq(tb, toks)) == |toks| + 1 && Sum(DistFreq(tb, toks)) == Pairs(toks)
    ensures LitFreq(tb, toks)[END_BLOCK] >= 1
    ensures forall i :: 0 <= i < |toks| ==> Occurs(tb, toks, toks[i])
  {
    hide ValidTables, LitSym, DistSym;
    if toks == [] {
      SumZero(Repeat(0, 286));
      SumZero(Repeat(0, D_CODES));
      SumUpdate(Repeat(0, 286), END_BLOCK, 1);
    } else {
      var e := |toks| - 1;
      var pre, t := toks[..e], toks[e];
      FreqFacts(tb, pre);
      assert toks == pre + [t];
      FreqSnoc(tb, pre, t);
      SumUpdate(LitFreq(tb, pre), LitSym(tb, t), LitFreq(tb, pre)[LitSym(tb, t)] + 1);
      if t.Pair? {
        SumUpdate(DistFreq(tb, pre), DistSym(tb, t), DistFreq(tb, pre)[DistSym(tb, t)] + 1);
      }
      forall i | 0 <= i < |toks| ensures Occurs(tb, toks, toks[i]) {
        if i < e {
          assert Occurs(tb, pre, pre[i]);
        }
      }
    }
  }

  /** The symbols of `t` have non-zero frequency. */
  ghost predicate Occurs(tb: Tables, toks: seq<Token>, t: Token)
    requires ValidTables(tb) && AllProper(toks)
  {
    && Proper(t) && LitSym(tb, t) < 286 && LitFreq(tb, toks)[LitSym(tb, t)] > 0
    && (t.Pair? ==> DistSym(tb, t) < D_CODES && DistFreq(tb, toks)[DistSym(tb, t)] > 0)
  }

  // ---------- bits of a block's data ----------

  lemma DescsValid()
    ensures ValidDesc(L_DESC) && ValidDesc(D_DESC) && PlainLowCodes(L_DESC) && PlainLowCodes(D_DESC)
    ensures L_DESC.elems == 286 && D_DESC.elems == D_CODES == 30 && L_DESC.maxLength == D_DESC.maxLength == MAX_BITS
    ensures |EXTRA_LBITS| == LENGTH_CODES && |EXTRA_DBITS| == D_CODES
    ensures forall i :: 0 <= i < 286 ==> Extra(L_DESC, i) == if i >= 257 then EXTRA_LBITS[i - 257] else 0
    ensures forall i :: 0 <= i < 30 ==> Extra(D_DESC, i) == EXTRA_DBITS[i]
  {
    Pow2Values();
    DescExtras();
  }

  lemma DescExtras()
    ensures EXTRA_DBITS[0] == EXTRA_DBITS[1] == EXTRA_DBITS[2] == 0
  {
  }

  lemma TokenLength(tb: Tables, ll: Lengths, dl: Lengths, t: Token)
    requires ValidTables(tb) && Codable(tb, ll, dl, t) && ValidDesc(L_DESC) && ValidDesc(D_DESC)
    ensures LitSym(tb, t) < 286 && (t.Pair? ==> DistSym(tb, t) < D_CODES)
    ensures |TokenBits(tb, ll, dl, t)| == ll[LitSym(tb, t)] + Extra(L_DESC, LitSym(tb, t))
              + (if t.Pair? then dl[DistSym(tb, t)] + Extra(D_DESC, DistSym(tb, t)) else 0)
  {
    hide ValidTables, LitSym, DistSym, CodeBits, LsbBits, LENGTH_BASE, DIST_BASE, LENGTH_EXTRA, DIST_EXTRA, Pow2, ValidDesc, Extra;
    DescsValid();
    SymFacts(tb, t);
    if t.Pair? {
      LengthFields(tb, t);
      DistFields(tb, t);
      MatchBitsAre(tb, ll, dl, t);
    } else {
      LiteralBits(tb, ll, dl, t);
      assert LitSym(tb, t) == t.b by { CodableParts(tb, ll, dl, t); }
    }
  }

  lemma {:induction false} DataAppend(tb: Tables, ll: Lengths, dl: Lengths, toks: seq<Token>, t: Token)
    requires ValidTables(tb) && AllCodable(tb, ll, dl, toks + [t])
    ensures AllCodable(tb, ll, dl, toks) && Codable(tb, ll, dl, t)
    ensures DataBits(tb, ll, dl, toks + [t]) == DataBits(tb, ll, dl, toks) + TokenBits(tb, ll, dl, t)
    decreases |toks|
  {
    hide ValidTables, TokenBits, Codable;
    forall i | 0 <= i < |toks| ensures Codable(tb, ll, dl, toks[i]) {
      assert Codable(tb, ll, dl, (toks + [t])[i]);
    }
    assert Codable(tb, ll, dl, (toks + [t])[|toks|]);
    if toks == [] {
      assert [t][1..] == [];
      NoData(tb, ll, dl);
    } else {
      assert (toks + [t])[1..] == toks[1..] + [t];
      DataAppend(tb, ll, dl, toks[1..], t);
    }
  }

  /** Under `le` the symbols have the same lengths as under the code `ll`. */
  ghost predicate SameLengths(ll: Lengths, le: Lengths, n: nat)
  {
    n <= |le| && forall i :: 0 <= i < |ll| && i < n ==> ll[i] == le[i]
  }

  /** Frequencies times code lengths and extra bits: exactly the bits of the data and the end symbol. */
  lemma {:induction false} DataCost(tb: Tables, ll: Lengths, dl: Lengths, le: Lengths, de: Lengths, toks: seq<Token>)
    requires ValidTables(tb) && AllProper(toks) && AllCodable(tb, ll, dl, toks) && ValidDesc(L_DESC) && ValidDesc(D_DESC)
    requires SameLengths(ll, le, 286) && SameLengths(dl, de, D_CODES) && |ll| > END_BLOCK
    ensures Sum(Prices(LitFreq(tb, toks), le, L_DESC)) + Sum(Prices(DistFreq(tb, toks), de, D_DESC))
         == |DataBits(tb, ll, dl, toks)| + ll[END_BLOCK]
    decreases |toks|
  {
    hide ValidTables, LitSym, DistSym, TokenBits, Prices, Extra, ValidDesc, Codable, DataBits;
    DescsValid();
    if toks == [] {
      NoData(tb, ll, dl);
      NoPrices(le, L_DESC);
      NoPrices(de, D_DESC);
      PricesUpdate(Repeat(0, 286), le, L_DESC, END_BLOCK);
    } else {
      var e := |toks| - 1;
      var pre, t := toks[..e], toks[e];
      assert toks == pre + [t];
      DataAppend(tb, ll, dl, pre, t);
      DataCost(tb, ll, dl, le, de, pre);
      TokenLength(tb, ll, dl, t);
      FreqSnoc(tb, pre, t);
      PricesUpdate(LitFreq(tb, pre), le, L_DESC, LitSym(tb, t));
      CodableParts(tb, ll, dl, t);
      if t.Pair? {
        PricesUpdate(DistFreq(tb, pre), de, D_DESC, DistSym(tb, t));
      }
    }
  }

  lemma NoPrices(lens: Lengths, desc: TreeDesc)
    requires ValidDesc(desc) && desc.elems <= |lens|
    ensures Sum(Prices(Repeat(0, desc.elems), lens, desc)) == 0
  {
    hide Price, Extra;
    forall i | 0 <= i < desc.elems ensures Prices(Repeat(0, desc.elems), lens, desc)[i] == 0 {
      PriceMore(0, lens[i], Extra(desc, i));
    }
    SumZero(Prices(Repeat(0, desc.elems), lens, desc));
  }

  /** With the fixed codes no token takes more than 31 bits. */
  lemma {:induction false} StaticBound(tb: Tables, toks: seq<Token>)
    requires ValidTables(tb) && AllCodable(tb, FixedLit(), Repeat(5, 30), toks) && ValidDesc(L_DESC) && ValidDesc(D_DESC)
    ensures |DataBits(tb, FixedLit(), Repeat(5, 30), toks)| <= 31 * |toks|
    decreases |toks|
  {
    hide ValidTables, LitSym, DistSym, TokenBits, ValidDesc, Codable;
    if toks != [] {
      StaticToken(tb, toks[0]);
      StaticBound(tb, toks[1..]);
    }
  }

  lemma StaticToken(tb: Tables, t: Token)
    requires ValidTables(tb) && Codable(tb, FixedLit(), Repeat(5, 30), t) && ValidDesc(L_DESC) && ValidDesc(D_DESC)
    ensures |TokenBits(tb, FixedLit(), Repeat(5, 30), t)| <= 31
  {
    hide ValidTables, LitSym, DistSym, TokenBits, ValidDesc, Extra, EXTRA_LBITS, EXTRA_DBITS, LENGTH_EXTRA, DIST_EXTRA, LENGTH_BASE, DIST_BASE, Pow2;
    DescsValid();
    TokenLength(tb, FixedLit(), Repeat(5, 30), t);
    SymFacts(tb, t);
    if t.Pair? {
      LengthFields(tb, t);
      DistFields(tb, t);
    } else {
      CodableParts(tb, FixedLit(), Repeat(5, 30), t);
    }
  }
}
