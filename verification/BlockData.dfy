/** compress_block: send the buffered tokens with a given pair of codes. */
module BlockData {
  import opened Arith
  import opened Bits
  import opened Canonical
  import opened Inflate
  import opened MatchCodes
  import opened Tokens
  import opened TokenBuffer
  import opened CodeTables
  import opened BitWriter
  import opened TreeSender

  /** The tables that ct_init fills once. */
  class MatchTables {
    const lengthCode: array<nat>
    const baseLength: array<nat>
    const distCode: array<nat>
    const baseDist: array<nat>

    ghost function Tb(): Tables
      reads lengthCode, baseLength, distCode, baseDist
    {
      Tables(lengthCode[..], baseLength[..], distCode[..], baseDist[..])
    }

    ghost predicate Valid()
      reads lengthCode, baseLength, distCode, baseDist
    {
      ValidTables(Tb())
    }

    constructor ()
      ensures Valid() && fresh(lengthCode) && fresh(baseLength) && fresh(distCode) && fresh(baseDist)
    {
      var lc, bl, dc, bd := new nat[256], new nat[LENGTH_CODES], new nat[512], new nat[D_CODES];
      InitLengths(lc, bl);
      InitDists(dc, bd);
      lengthCode, baseLength, distCode, baseDist := lc, bl, dc, bd;
    }
  }

  // ---------- flags ----------

  /** The tokens of the current group of eight from token `i` on. */
  function GroupRest(toks: seq<Token>, i: nat): (r: seq<Token>)
    requires i < |toks|
    ensures |r| > 0 && r[0] == toks[i]
  {
    Group(toks, i / 8)[i % 8..]
  }

  /** The flag variable holds the flags of the rest of the group. */
  ghost predicate FlagsFrom(toks: seq<Token>, i: nat, flag: nat)
  {
    i < |toks| ==> flag == LsbValue(FlagBits(GroupRest(toks, i)))
  }

  lemma FlagNow(toks: seq<Token>, i: nat, flag: nat)
    requires i < |toks| && FlagsFrom(toks, i, flag)
    ensures flag % 2 == 1 <==> toks[i].Pair?
    ensures (i + 1) % 8 != 0 ==> FlagsFrom(toks, i + 1, flag / 2)
  {
    var g := GroupRest(toks, i);
    assert FlagBits(g)[1..] == FlagBits(g[1..]);
    if (i + 1) % 8 != 0 && i + 1 < |toks| {
      assert (i + 1) / 8 == i / 8 && (i + 1) % 8 == i % 8 + 1;
      assert GroupRest(toks, i + 1) == g[1..];
    }
  }

  lemma FlagLoad(toks: seq<Token>, i: nat, flag: nat)
    requires i % 8 == 0 && (i < |toks| ==> flag == FlagByte(toks, i / 8))
    ensures FlagsFrom(toks, i, flag)
  {
    if i < |toks| {
      assert Group(toks, i / 8)[0..] == Group(toks, i / 8);
    }
  }

  // ---------- one match ----------

  lemma LengthFields(tb: Tables, t: Token)
    requires ValidTables(tb) && Proper(t) && t.Pair?
    ensures |LENGTH_BASE| == |LENGTH_EXTRA| == |EXTRA_LBITS| == |tb.baseLength| == LENGTH_CODES && |tb.lengthCode| == 256
    ensures var lc, c := t.len - MIN_MATCH, LitSym(tb, t) - 257;
            && 0 <= c < LENGTH_CODES && tb.lengthCode[lc] == c
            && EXTRA_LBITS[c] == LENGTH_EXTRA[c] <= 5
            && 0 <= t.len - LENGTH_BASE[c] < Pow2(LENGTH_EXTRA[c])
            && (EXTRA_LBITS[c] != 0 ==> tb.baseLength[c] == LENGTH_BASE[c] - MIN_MATCH)
  {
    SymFacts(tb, t);
    assert LengthEntry(tb.lengthCode, tb.baseLength, t.len - MIN_MATCH);
    ExtraTables();
    ExtraBounds(LitSym(tb, t) - 257, 0);
  }

  lemma DistFields(tb: Tables, t: Token)
    requires ValidTables(tb) && Proper(t) && t.Pair?
    ensures |DIST_BASE| == |DIST_EXTRA| == |EXTRA_DBITS| == |tb.baseDist| == D_CODES && |tb.distCode| == 512
    ensures var e := DistSym(tb, t);
            && e < D_CODES && EXTRA_DBITS[e] == DIST_EXTRA[e] <= 13
            && 0 <= t.dist - DIST_BASE[e] < Pow2(DIST_EXTRA[e])
            && tb.baseDist[e] == DIST_BASE[e] - 1
  {
    SymFacts(tb, t);
    assert DistEntry(tb.distCode, tb.baseDist, t.dist - 1);
    ExtraTables();
    ExtraBounds(0, DistSym(tb, t));
  }

  lemma ExtraBounds(c: nat, e: nat)
    requires c < LENGTH_CODES && e < D_CODES
    ensures LENGTH_EXTRA[c] <= 5 && DIST_EXTRA[e] <= 13
  {
  }

  /** The extra length bits of token `t`, stored as `lc0`. */
  method SendLength(w: Writer, mt: MatchTables, lc0: nat, ltree: array<CtData>, ghost ll: Lengths, ghost t: Token)
    requires w.Valid() && mt.Valid() && Proper(t) && t.Pair? && lc0 == t.len - MIN_MATCH
    requires LitSym(mt.Tb(), t) < |ll| && ll[LitSym(mt.Tb(), t)] > 0 && HoldsCodes(ltree[..], ll) && Bounded(ll, MAX_BITS)
    modifies w, w.outbuf
    ensures w.Valid() && 257 <= LitSym(mt.Tb(), t) <= 285 && LENGTH_BASE[LitSym(mt.Tb(), t) - 257] <= t.len
    ensures w.Sent() == old(w.Sent()) + (CodeBits(ll, LitSym(mt.Tb(), t))
                        + LsbBits(t.len - LENGTH_BASE[LitSym(mt.Tb(), t) - 257], LENGTH_EXTRA[LitSym(mt.Tb(), t) - 257]))
  {
    hide ValidTables, LsbBits, CodeBits, Pow2, HoldsCode, EXTRA_LBITS, LENGTH_BASE, LENGTH_EXTRA;
    LengthFields(mt.Tb(), t);
    ghost var s := w.Sent();
    var lc := lc0;
    var code := mt.lengthCode[lc];
    SendCode(w, ltree, code + LITERALS + 1, ll);
    var extra := EXTRA_LBITS[code];
    if extra != 0 {
      lc := lc - mt.baseLength[code];
      w.SendBits(lc, extra);
    } else {
      NoExtra(t.len - LENGTH_BASE[code]);
    }
    assert w.Sent() == s + (CodeBits(ll, LitSym(mt.Tb(), t)) + LsbBits(t.len - LENGTH_BASE[code], LENGTH_EXTRA[code]));
  }

  method SendDist(w: Writer, mt: MatchTables, dist0: nat, dtree: array<CtData>, ghost dl: Lengths, ghost t: Token)
    requires w.Valid() && mt.Valid() && Proper(t) && t.Pair? && dist0 == t.dist - 1
    requires DistSym(mt.Tb(), t) < |dl| && dl[DistSym(mt.Tb(), t)] > 0 && HoldsCodes(dtree[..], dl) && Bounded(dl, MAX_BITS)
    modifies w, w.outbuf
    ensures w.Valid() && DistSym(mt.Tb(), t) < D_CODES && DIST_BASE[DistSym(mt.Tb(), t)] <= t.dist
    ensures w.Sent() == old(w.Sent()) + (CodeBits(dl, DistSym(mt.Tb(), t))
                        + LsbBits(t.dist - DIST_BASE[DistSym(mt.Tb(), t)], DIST_EXTRA[DistSym(mt.Tb(), t)]))
  {
    hide ValidTables, LsbBits, CodeBits, Pow2, HoldsCode, EXTRA_DBITS, DIST_BASE, DIST_EXTRA;
    DistFields(mt.Tb(), t);
    ghost var s := w.Sent();
    var dist := dist0;
    var code := if dist < 256 then mt.distCode[dist] else mt.distCode[256 + dist / 128];
    SendCode(w, dtree, code, dl);
    var extra := EXTRA_DBITS[code];
    if extra != 0 {
      dist := dist - mt.baseDist[code];
      w.SendBits(dist, extra);
    } else {
      NoExtra(t.dist - DIST_BASE[code]);
    }
    assert w.Sent() == s + (CodeBits(dl, DistSym(mt.Tb(), t)) + LsbBits(t.dist - DIST_BASE[code], DIST_EXTRA[code]));
  }

  lemma MatchBitsAre(tb: Tables, ll: Lengths, dl: Lengths, t: Token)
    requires ValidTables(tb) && t.Pair? && Codable(tb, ll, dl, t)
    ensures 257 <= LitSym(tb, t) <= 285 && LENGTH_BASE[LitSym(tb, t) - 257] <= t.len
    ensures DistSym(tb, t) < D_CODES && DIST_BASE[DistSym(tb, t)] <= t.dist
    ensures TokenBits(tb, ll, dl, t)
         == (CodeBits(ll, LitSym(tb, t)) + LsbBits(t.len - LENGTH_BASE[LitSym(tb, t) - 257], LENGTH_EXTRA[LitSym(tb, t) - 257]))
            + (CodeBits(dl, DistSym(tb, t)) + LsbBits(t.dist - DIST_BASE[DistSym(tb, t)], DIST_EXTRA[DistSym(tb, t)]))
  {
    hide CodeBits, LsbBits, Pow2, ValidTables, LitSym, DistSym, LENGTH_BASE, LENGTH_EXTRA, DIST_BASE, DIST_EXTRA,
         Codable, TokenBits, MatchBits, EXTRA_LBITS, EXTRA_DBITS;
    CodableParts(tb, ll, dl, t);
    LengthFields(tb, t);
    DistFields(tb, t);
    MatchParts(tb, ll, dl, t);
    ConcatAssoc(CodeBits(ll, LitSym(tb, t)), LsbBits(t.len - LENGTH_BASE[LitSym(tb, t) - 257], LENGTH_EXTRA[LitSym(tb, t) - 257]),
                CodeBits(dl, DistSym(tb, t)) + LsbBits(t.dist - DIST_BASE[DistSym(tb, t)], DIST_EXTRA[DistSym(tb, t)]));
  }

  /** The definitions of TokenBits and MatchBits, unfolded. */
  lemma MatchParts(tb: Tables, ll: Lengths, dl: Lengths, t: Token)
    requires ValidTables(tb) && t.Pair? && Codable(tb, ll, dl, t)
    requires |LENGTH_BASE| == |LENGTH_EXTRA| == LENGTH_CODES && 257 <= LitSym(tb, t) <= 285 && LENGTH_BASE[LitSym(tb, t) - 257] <= t.len
    requires |DIST_BASE| == |DIST_EXTRA| == D_CODES && DistSym(tb, t) < D_CODES && DIST_BASE[DistSym(tb, t)] <= t.dist
    ensures TokenBits(tb, ll, dl, t)
         == CodeBits(ll, LitSym(tb, t)) + (LsbBits(t.len - LENGTH_BASE[LitSym(tb, t) - 257], LENGTH_EXTRA[LitSym(tb, t) - 257])
            + (CodeBits(dl, DistSym(tb, t)) + LsbBits(t.dist - DIST_BASE[DistSym(tb, t)], DIST_EXTRA[DistSym(tb, t)])))
  {
    hide CodeBits, LsbBits, Pow2, ValidTables, LitSym, DistSym, LENGTH_BASE, LENGTH_EXTRA, DIST_BASE, DIST_EXTRA, Codable;
  }

  lemma ConcatAssoc(a: BitString, b: BitString, c: BitString)
    ensures a + (b + c) == (a + b) + c
  {
  }

  // ---------- compress_block ----------

  lemma DataSnoc(tb: Tables, ll: Lengths, dl: Lengths, toks: seq<Token>, i: nat)
    requires ValidTables(tb) && AllCodable(tb, ll, dl, toks) && i < |toks|
    ensures AllCodable(tb, ll, dl, toks[i..]) && AllCodable(tb, ll, dl, toks[i + 1..]) && Codable(tb, ll, dl, toks[i])
    ensures DataBits(tb, ll, dl, toks[i..]) == TokenBits(tb, ll, dl, toks[i]) + DataBits(tb, ll, dl, toks[i + 1..])
  {
    assert toks[i..][1..] == toks[i + 1..];
  }

  lemma EntryAt(lBuf: seq<Byte>, dBuf: seq<nat>, toks: seq<Token>, i: nat)
    requires HoldsTokens(lBuf, dBuf, toks) && i < |toks|
    ensures i < |lBuf| && Proper(toks[i])
    ensures toks[i].Literal? ==> lBuf[i] == toks[i].b
    ensures toks[i].Pair? ==> lBuf[i] == toks[i].len - MIN_MATCH && Pairs(toks[..i]) < |dBuf| && dBuf[Pairs(toks[..i])] == toks[i].dist - 1
    ensures Pairs(toks[..i + 1]) == Pairs(toks[..i]) + (if toks[i].Pair? then 1 else 0)
  {
    assert Entry(lBuf, dBuf, toks, i);
    assert toks[..i + 1] == toks[..i] + [toks[i]];
    PairsSnoc(toks[..i], toks[i]);
  }

  lemma SavedFlag(f: seq<Byte>, toks: seq<Token>, i: nat)
    requires FlagsSaved(f, toks) && i < |toks| && i % 8 == 0
    ensures i / 8 < |f| && FlagsFrom(toks, i, f[i / 8])
  {
    assert 8 * (i / 8) <= |toks|;
    FlagLoad(toks, i, f[i / 8]);
  }

  /** The loop body of compress_block for token `t`, stored as `lc` and, for a match, `dist`. */
  method SendToken(w: Writer, mt: MatchTables, isMatch: bool, lc: nat, dist: nat, ltree: array<CtData>, dtree: array<CtData>,
                   ghost ll: Lengths, ghost dl: Lengths, ghost t: Token)
    requires w.Valid() && mt.Valid() && Codable(mt.Tb(), ll, dl, t) && isMatch == t.Pair?
    requires t.Literal? ==> lc == t.b
    requires t.Pair? ==> lc == t.len - MIN_MATCH && dist == t.dist - 1
    requires HoldsCodes(ltree[..], ll) && Bounded(ll, MAX_BITS) && HoldsCodes(dtree[..], dl) && Bounded(dl, MAX_BITS)
    modifies w, w.outbuf
    ensures w.Valid() && w.Sent() == old(w.Sent()) + TokenBits(mt.Tb(), ll, dl, t)
  {
    hide ValidTables, LsbBits, CodeBits, HoldsCode, TokenBits, LitSym, DistSym, Codable, HoldsCodes, Bounded, Pow2,
         LENGTH_BASE, LENGTH_EXTRA, DIST_BASE, DIST_EXTRA, Writer.Valid, Writer.Sent;
    ghost var tb, s := mt.Tb(), w.Sent();
    CodableParts(tb, ll, dl, t);
    if !isMatch {
      TableCode(ltree[..], ll, lc);
      SendCode(w, ltree, lc, ll);
      LiteralBits(tb, ll, dl, t);
    } else {
      SendLength(w, mt, lc, ltree, ll, t);
      SendDist(w, mt, dist, dtree, dl, t);
      MatchBitsAre(tb, ll, dl, t);
      assert w.Sent() == s + TokenBits(tb, ll, dl, t);
    }
  }

  method CompressBlock(w: Writer, buf: Buffer, mt: MatchTables, ltree: array<CtData>, dtree: array<CtData>,
                       ghost ll: Lengths, ghost dl: Lengths)
    requires w.Valid() && buf.Valid() && mt.Valid() && FlagsSaved(buf.flagBuf[..], buf.toks)
    requires w.outbuf != buf.lBuf && w.outbuf != buf.flagBuf
    requires HoldsCodes(ltree[..], ll) && Bounded(ll, MAX_BITS) && HoldsCodes(dtree[..], dl) && Bounded(dl, MAX_BITS)
    requires AllCodable(mt.Tb(), ll, dl, buf.toks) && |ll| > END_BLOCK && ll[END_BLOCK] > 0
    modifies w, w.outbuf
    ensures w.Valid() && buf.Valid() && mt.Valid()
    ensures w.Sent() == old(w.Sent()) + (DataBits(mt.Tb(), ll, dl, buf.toks) + CodeBits(ll, END_BLOCK))
  {
    hide ValidTables, LsbBits, CodeBits, HoldsCode, HoldsTokens, HoldsFlags, FlagsSaved, FlagsFrom, FlagByte, TokenBits,
         DataBits, AllCodable, LitSym, DistSym, Pairs, Codable, HoldsCodes, Bounded, Pow2, Writer.Valid, Writer.Sent;
    TableCode(ltree[..], ll, END_BLOCK);
    var lx, dx, fx, flag := 0, 0, 0, 0;
    ghost var s, toks, tb := w.Sent(), buf.toks, mt.Tb();
    assert toks[0..] == toks && toks[..0] == [];
    assert Pairs([]) == 0 by { NoPairs(); }
    while lx < buf.lastLit
      invariant 0 <= lx <= |toks| && w.Valid() && buf.Valid() && mt.Valid() && buf.toks == toks
      invariant dx == Pairs(toks[..lx]) && fx == (lx + 7) / 8
      invariant lx % 8 != 0 ==> FlagsFrom(toks, lx, flag)
      invariant AllCodable(tb, ll, dl, toks[lx..])
      invariant w.Sent() + DataBits(tb, ll, dl, toks[lx..]) == s + DataBits(tb, ll, dl, toks)
    {
      ghost var t, before := toks[lx], w.Sent();
      if lx % 8 == 0 {
        SavedFlag(buf.flagBuf[..], toks, lx);
        flag := buf.flagBuf[fx];
        fx := fx + 1;
      }
      EntryAt(buf.lBuf[..], buf.dBuf[..], toks, lx);
      FlagNow(toks, lx, flag);
      DataSnoc(tb, ll, dl, toks, lx);
      var lc := buf.lBuf[lx];
      lx := lx + 1;
      if flag % 2 == 0 {
        SendToken(w, mt, false, lc, 0, ltree, dtree, ll, dl, t);
      } else {
        SendToken(w, mt, true, lc, buf.dBuf[dx], ltree, dtree, ll, dl, t);
        dx := dx + 1;
      }
      flag := flag / 2;
      assert w.Sent() + DataBits(tb, ll, dl, toks[lx..]) == before + (TokenBits(tb, ll, dl, t) + DataBits(tb, ll, dl, toks[lx..]));
    }
    NoData(tb, ll, dl);
    assert toks[lx..] == [];
    TableCode(ltree[..], ll, END_BLOCK);
    ghost var data := DataBits(tb, ll, dl, toks);
    assert w.Sent() == s + data;
    SendCode(w, ltree, END_BLOCK, ll);
    assert s + data + CodeBits(ll, END_BLOCK) == s + (data + CodeBits(ll, END_BLOCK));
  }

  lemma TableCode(t: seq<CtData>, lens: Lengths, c: nat)
    requires HoldsCodes(t, lens) && Bounded(lens, MAX_BITS) && c < |lens| && lens[c] > 0
    ensures |lens| <= |t| && HoldsCode(t, lens, c) && lens[c] <= MAX_BITS
  {
  }

  lemma NoPairs()
    ensures Pairs([]) == 0
  {
  }

  lemma NoData(tb: Tables, ll: Lengths, dl: Lengths)
    requires ValidTables(tb)
    ensures AllCodable(tb, ll, dl, []) && DataBits(tb, ll, dl, []) == []
  {
  }

  lemma CodableParts(tb: Tables, ll: Lengths, dl: Lengths, t: Token)
    requires ValidTables(tb) && Codable(tb, ll, dl, t)
    ensures Proper(t) && LitSym(tb, t) < |ll| && ll[LitSym(tb, t)] > 0
    ensures t.Pair? ==> DistSym(tb, t) < |dl| && dl[DistSym(tb, t)] > 0
    ensures t.Literal? ==> LitSym(tb, t) == t.b
  {
  }

  lemma LiteralBits(tb: Tables, ll: Lengths, dl: Lengths, t: Token)
    requires ValidTables(tb) && Codable(tb, ll, dl, t) && t.Literal?
    ensures TokenBits(tb, ll, dl, t) == CodeBits(ll, t.b)
  {
  }
}
