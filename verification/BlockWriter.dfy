/**
 Blocks: ct_tally collects the tokens of a block and their frequencies,
 flush_block chooses an encoding and sends it.  Whatever the choice, the
 reference decoder reads the block back.
 */
module BlockWriter {
  import opened Arith
  import opened Bits
  import opened Canonical
  import opened Inflate
  import opened MatchCodes
  import opened Tokens
  import opened TokenBuffer
  import opened TokenCosts
  import opened CodeTables
  import opened TreeHeap
  import opened BitLengths
  import opened RunLengths
  import opened BitWriter
  import opened TreeSender
  import opened BlockData
  import opened DynamicHeader
  import opened FixedCodes
  import opened BlockCodec
  import opened BlockTrees

  /** After the bits `s0` the decoder reads one block and stops at the end of `s`, whatever follows. */
  ghost predicate ReadsTo(s0: BitString, s: BitString, eof: bool, out: seq<Byte>, final: seq<Byte>)
  {
    && s0 <= s
    && forall full: BitString :: s <= full ==> ReadBlock(full, |s0|, out) == Got(Block(eof, final), |s|)
  }

  lemma SentAt(s0: BitString, e: BitString, full: BitString)
    requires s0 + e <= full
    ensures HasAt(full, |s0|, e)
  {
    assert full[|s0|..|s0| + |e|] == (s0 + e)[|s0|..] == e;
  }

  lemma StaticReads(s0: BitString, tb: Tables, toks: seq<Token>, eof: bool, out: seq<Byte>, final: seq<Byte>)
    requires ValidTables(tb) && AllCodable(tb, FixedLit(), Repeat(5, 30), toks) && Expand(out, toks) == Some(final)
    ensures ReadsTo(s0, s0 + (LsbBits(2 + (if eof then 1 else 0), 3) + StaticBits(tb, toks)), eof, out, final)
  {
    hide *;
    var e := LsbBits(2 + (if eof then 1 else 0), 3) + StaticBits(tb, toks);
    forall full: BitString | s0 + e <= full ensures ReadBlock(full, |s0|, out) == Got(Block(eof, final), |s0 + e|) {
      SentAt(s0, e, full);
      ReadStaticBack(tb, toks, full, |s0|, eof, out, final);
    }
    ReadsToIntro(s0, e, eof, out, final);
  }

  lemma ReadsToIntro(s0: BitString, e: BitString, eof: bool, out: seq<Byte>, final: seq<Byte>)
    requires forall full: BitString :: s0 + e <= full ==> ReadBlock(full, |s0|, out) == Got(Block(eof, final), |s0 + e|)
    ensures ReadsTo(s0, s0 + e, eof, out, final)
  {
    hide ReadBlock;
  }

  lemma DynamicReads(s0: BitString, tr: Trees, tb: Tables, toks: seq<Token>, eof: bool, out: seq<Byte>, final: seq<Byte>)
    requires ValidTables(tb) && Encodes(tr, tb, toks) && Expand(out, toks) == Some(final)
    ensures ReadsTo(s0, s0 + (LsbBits(4 + (if eof then 1 else 0), 3) + DynamicBits(tr, tb, toks)), eof, out, final)
  {
    hide *;
    var e := LsbBits(4 + (if eof then 1 else 0), 3) + DynamicBits(tr, tb, toks);
    forall full: BitString | s0 + e <= full ensures ReadBlock(full, |s0|, out) == Got(Block(eof, final), |s0 + e|) {
      SentAt(s0, e, full);
      ReadDynamicBack(tr, tb, toks, full, |s0|, eof, out, final);
    }
    ReadsToIntro(s0, e, eof, out, final);
  }

  lemma StoredReads(s0: BitString, eof: bool, raw: seq<Byte>, out: seq<Byte>)
    requires |raw| < 65536
    ensures ReadsTo(s0, s0 + (LsbBits(if eof then 1 else 0, 3) + StoredBits(|s0| + 3, raw)), eof, out, out + raw)
  {
    hide *;
    var e := LsbBits(if eof then 1 else 0, 3) + StoredBits(|s0| + 3, raw);
    forall full: BitString | s0 + e <= full ensures ReadBlock(full, |s0|, out) == Got(Block(eof, out + raw), |s0 + e|) {
      SentAt(s0, e, full);
      ReadStoredBack(full, |s0|, eof, raw, out);
    }
    ReadsToIntro(s0, e, eof, out, out + raw);
  }

  // ---------- the choice of an encoding ----------

  /** Bytes needed for `n` bits after the three bits of the block header. */
  function Bytes(n: int): int
  {
    (n + 3 + 7) / 8
  }

  /** A stored block is only chosen when it is short enough for its 16-bit length field. */
  lemma StoredFits(tb: Tables, toks: seq<Token>, storedLen: nat)
    requires ValidTables(tb) && AllProper(toks) && |toks| < LIT_BUFSIZE
    requires AllCodable(tb, FixedLit(), Repeat(5, 30), toks)
    requires storedLen + 4 <= Bytes(|StaticBits(tb, toks)|)
    ensures storedLen < 65536
  {
    hide ValidTables, AllCodable, DataBits, CodeBits;
    TokenCosts.DescsValid();
    StaticBound(tb, toks);
    FixedEnd();
  }

  /** The bits of a block: the three bits of its type and then its body. */
  ghost function BlockBits(pos: nat, hasBuf: bool, raw: seq<Byte>, storedLen: nat, eof: bool, tr: Trees, tb: Tables, toks: seq<Token>): BitString
    requires ValidTables(tb) && AllProper(toks) && |toks| < LIT_BUFSIZE && Encodes(tr, tb, toks)
    requires hasBuf ==> |raw| == storedLen
  {
    var last := if eof then 1 else 0;
    FixedCodesForAll(tb, toks);
    var optLenb, staticLenb := Bytes(|DynamicBits(tr, tb, toks)|), Bytes(|StaticBits(tb, toks)|);
    if hasBuf && storedLen + 4 <= optLenb && storedLen + 4 <= staticLenb then
      StoredFits(tb, toks, storedLen);
      LsbBits(last, 3) + StoredBits(pos + 3, raw)
    else if staticLenb <= optLenb then LsbBits(2 + last, 3) + StaticBits(tb, toks)
    else LsbBits(4 + last, 3) + DynamicBits(tr, tb, toks)
  }

  /** Whichever encoding is chosen, the decoder reads the same block back. */
  lemma BlockReads(s0: BitString, hasBuf: bool, raw: seq<Byte>, storedLen: nat, eof: bool, tr: Trees, tb: Tables, toks: seq<Token>,
                   out: seq<Byte>, final: seq<Byte>)
    requires ValidTables(tb) && AllProper(toks) && |toks| < LIT_BUFSIZE && Encodes(tr, tb, toks)
    requires hasBuf ==> |raw| == storedLen && out + raw == final
    requires Expand(out, toks) == Some(final)
    ensures ReadsTo(s0, s0 + BlockBits(|s0|, hasBuf, raw, storedLen, eof, tr, tb, toks), eof, out, final)
  {
    hide ReadsTo, ValidTables, AllProper, Encodes, Expand, StaticBits, DynamicBits, StoredBits, LsbBits;
    FixedCodesForAll(tb, toks);
    if hasBuf && storedLen + 4 <= Bytes(|DynamicBits(tr, tb, toks)|) && storedLen + 4 <= Bytes(|StaticBits(tb, toks)|) {
      StoredFits(tb, toks, storedLen);
      StoredReads(s0, eof, raw, out);
    } else if Bytes(|StaticBits(tb, toks)|) <= Bytes(|DynamicBits(tr, tb, toks)|) {
      StaticReads(s0, tb, toks, eof, out, final);
    } else {
      DynamicReads(s0, tr, tb, toks, eof, out, final);
    }
  }

  /**
   In bytes a block takes at most two more than the better of the static and the dynamic
   encoding, and at most six more than its data when that is still there.
   */
  lemma BlockIsShort(pos: nat, hasBuf: bool, raw: seq<Byte>, storedLen: nat, eof: bool, tr: Trees, tb: Tables, toks: seq<Token>)
    requires ValidTables(tb) && AllProper(toks) && |toks| < LIT_BUFSIZE && Encodes(tr, tb, toks)
    requires hasBuf ==> |raw| == storedLen
    requires AllCodable(tb, FixedLit(), Repeat(5, 30), toks)
    ensures var n := (|BlockBits(pos, hasBuf, raw, storedLen, eof, tr, tb, toks)| + 7) / 8;
            && n <= Bytes(|StaticBits(tb, toks)|) + 2 && n <= Bytes(|DynamicBits(tr, tb, toks)|) + 2
            && (hasBuf ==> n <= storedLen + 6)
  {
    hide ValidTables, AllProper, Encodes, StaticBits, DynamicBits;
  }

  /** A block takes at most 31 bits a token and 40 more. */
  lemma BlockBound(pos: nat, hasBuf: bool, raw: seq<Byte>, storedLen: nat, eof: bool, tr: Trees, tb: Tables, toks: seq<Token>)
    requires ValidTables(tb) && AllProper(toks) && |toks| < LIT_BUFSIZE && Encodes(tr, tb, toks)
    requires hasBuf ==> |raw| == storedLen
    ensures |BlockBits(pos, hasBuf, raw, storedLen, eof, tr, tb, toks)| <= 31 * |toks| + 40
  {
    hide ValidTables, AllProper, Encodes, BlockBits, DataBits, CodeBits, DynamicBits, AllCodable;
    FixedCodesForAll(tb, toks);
    BlockIsShort(pos, hasBuf, raw, storedLen, eof, tr, tb, toks);
    TokenCosts.DescsValid();
    StaticBound(tb, toks);
    FixedEnd();
  }

  /** The trees, and also the fixed codes, can send the block. */
  ghost predicate Ready(tr: Trees, tb: Tables, toks: seq<Token>)
  {
    ValidTables(tb) && AllProper(toks) && Encodes(tr, tb, toks) && AllCodable(tb, FixedLit(), Repeat(5, 30), toks)
  }

  // ---------- the estimate in ct_tally ----------

  /** Five bits and the extra bits for every distance. */
  ghost function DistanceBits(tb: Tables, toks: seq<Token>): (r: nat)
    requires ValidTables(tb) && AllProper(toks)
  {
    if toks == [] then 0
    else
      var t := toks[|toks| - 1];
      DistanceBits(tb, toks[..|toks| - 1]) + (if t.Pair? then SymFacts(tb, t); 5 + EXTRA_DBITS[DistSym(tb, t)] else 0)
  }

  lemma {:induction false} DistanceBitsPriced(tb: Tables, toks: seq<Token>)
    requires ValidTables(tb) && AllProper(toks) && ValidDesc(D_DESC) && D_DESC.elems == 30
    ensures Sum(Prices(DistFreq(tb, toks), Repeat(5, 30), D_DESC)) == DistanceBits(tb, toks)
    decreases |toks|
  {
    hide ValidTables, DistSym, Prices, Sum, ValidDesc, Extra, EXTRA_DBITS;
    DescsValid();
    if toks == [] {
      NoPrices(Repeat(5, 30), D_DESC);
    } else {
      var pre, t := toks[..|toks| - 1], toks[|toks| - 1];
      DistanceBitsPriced(tb, pre);
      assert toks == pre + [t];
      FreqSnoc(tb, pre, t);
      if t.Pair? {
        PricesUpdate(DistFreq(tb, pre), Repeat(5, 30), D_DESC, DistSym(tb, t));
      }
    }
  }

  /** Whether ct_tally asks for the end of the block. */
  ghost predicate WantsFlush(tb: Tables, toks: seq<Token>, inLength: nat)
    requires ValidTables(tb) && AllProper(toks)
  {
    || |toks| == LIT_BUFSIZE - 1
    || (|toks| % 4096 == 0 && Pairs(toks) < |toks| / 2 && (8 * |toks| + DistanceBits(tb, toks)) / 8 < inLength / 2)
  }

  // ---------- the state ----------

  class BlockState {
    const w: Writer
    const buf: Buffer
    const mt: MatchTables
    const ltree: array<CtData>
    const dtree: array<CtData>
    const blTree: array<CtData>
    const staticLtree: array<CtData>
    const staticDtree: array<CtData>
    const heap: array<nat>
    const depth: array<nat>
    const blCount: array<nat>
    var optLen: int
    var staticLen: int

    ghost predicate Shape()
    {
      && w.outbuf != buf.lBuf && w.outbuf != buf.flagBuf && buf.lBuf != buf.flagBuf
      && ltree != dtree && blTree !in {ltree, dtree}
      && heap != depth && blCount !in {heap, depth} && buf.dBuf !in {heap, depth, blCount}
      && ltree.Length == HEAP_SIZE && dtree.Length == 2 * D_CODES + 1 && blTree.Length == 2 * BL_CODES + 1
      && staticLtree.Length == 288 && staticDtree.Length == 30
      && heap.Length == depth.Length == HEAP_SIZE && blCount.Length == MAX_BITS + 1
      && {staticLtree, staticDtree} !! {ltree, dtree, blTree}
      && {mt.lengthCode, mt.baseLength, mt.distCode, mt.baseDist} !! {heap, depth, blCount, buf.dBuf}
    }

    /** The tokens of the current block are buffered and counted. */
    ghost predicate Valid()
      reads this, w, w.outbuf, buf, buf.lBuf, buf.dBuf, buf.flagBuf, ltree, dtree, blTree, staticLtree, staticDtree,
            mt.lengthCode, mt.baseLength, mt.distCode, mt.baseDist
    {
      && Shape() && w.Valid() && buf.Valid() && mt.Valid()
      && HoldsStatic(staticLtree[..], staticDtree[..])
      && Counts(ltree[..], dtree[..], mt.Tb(), buf.toks)
      && HoldsFreqs(blTree[..], Repeat(0, BL_CODES))
      && optLen == 0 && staticLen == 0
    }

    /** The zeroed globals of pack_gzip, around a writer, a token buffer and the tables already filled. */
    constructor (w: Writer, buf: Buffer, mt: MatchTables)
      requires w.outbuf != buf.lBuf && w.outbuf != buf.flagBuf && buf.Valid()
      requires buf.dBuf !in {mt.lengthCode, mt.baseLength, mt.distCode, mt.baseDist}
      ensures Shape() && this.w == w && this.buf == buf && this.mt == mt
      ensures forall b :: 0 <= b <= MAX_BITS ==> blCount[b] == 0
      ensures fresh(ltree) && fresh(dtree) && fresh(blTree) && fresh(staticLtree) && fresh(staticDtree)
      ensures fresh(heap) && fresh(depth) && fresh(blCount)
    {
      hide HoldsTokens, HoldsFlags, FlagByte;
      this.w, this.buf, this.mt := w, buf, mt;
      ltree := new CtData[HEAP_SIZE];
      dtree := new CtData[2 * D_CODES + 1];
      blTree := new CtData[2 * BL_CODES + 1];
      staticLtree := new CtData[288];
      staticDtree := new CtData[30];
      heap, depth := new nat[HEAP_SIZE], new nat[HEAP_SIZE];
      blCount := new nat[MAX_BITS + 1](i => 0);
      optLen, staticLen := 0, 0;
    }

    /** The part of ct_init after the tables of `mt`. */
    method CtInit()
      requires Shape() && w.Valid() && buf.Valid() && mt.Valid()
      requires forall b :: 0 <= b <= MAX_BITS ==> blCount[b] == 0
      modifies this, buf, ltree, dtree, blTree, staticLtree, staticDtree, blCount
      ensures Valid() && buf.toks == []
    {
      ShapeFacts();
      hide *;
      InitStaticTrees(staticLtree, staticDtree, blCount);
      StaticHeld(staticLtree[..], staticDtree[..]);
      InitBlock();
    }

    lemma ShapeFacts()
      requires Shape()
      ensures staticLtree !in {ltree, dtree, blTree, staticDtree} && staticDtree !in {ltree, dtree, blTree}
      ensures staticLtree.Length == L_CODES + 2 && staticDtree.Length == D_CODES && blCount.Length == MAX_BITS + 1
      ensures blCount !in {buf.dBuf, mt.lengthCode, mt.baseLength, mt.distCode, mt.baseDist}
    {
    }

    /** put_16bit between blocks, for the gzip header. */
    method PutFlags(n: nat)
      requires Valid()
      modifies w`outcnt, w`written, w.outbuf
      ensures Valid() && w.Valid() && w.Bytes() == old(w.Bytes()) + [n % 256, n / 256 % 256]
    {
      hide HoldsStatic, Counts, HoldsFreqs, ValidTables, HoldsTokens, HoldsFlags, FlagByte, MatchTables.Tb;
      w.Put16(n);
    }

    method InitBlock()
      requires Shape() && w.Valid() && buf.Valid() && mt.Valid() && HoldsStatic(staticLtree[..], staticDtree[..])
      modifies this, buf, ltree, dtree, blTree
      ensures Valid() && buf.toks == []
    {
      hide ValidTables, HoldsStatic, HoldsTokens, HoldsFlags, FlagByte, Writer.Valid, Repeat;
      ClearFreqs(ltree, L_CODES);
      ClearFreqs(dtree, D_CODES);
      ClearFreqs(blTree, BL_CODES);
      ltree[END_BLOCK] := ltree[END_BLOCK].(fc := 1);
      optLen, staticLen := 0, 0;
      buf.Clear();
      NothingCounted(ltree[..], dtree[..], mt.Tb());
    }

    /** Count the symbols of the token `t`. */
    method CountToken(dist: nat, lc: Byte, ghost toks: seq<Token>, ghost t: Token)
      requires Shape() && mt.Valid() && Counts(ltree[..], dtree[..], mt.Tb(), toks)
      requires dist <= 32768 && t == TokenOf(dist, lc)
      modifies ltree, dtree
      ensures Counts(ltree[..], dtree[..], mt.Tb(), toks + [t])
    {
      hide Counts, ValidTables, LengthFits, DistFits;
      ghost var l0, d0 := ltree[..], dtree[..];
      SymFacts(mt.Tb(), t);
      CountsStep(l0, d0, mt.Tb(), toks, t);
      if dist == 0 {
        ltree[lc] := ltree[lc].(fc := ltree[lc].fc + 1);
      } else {
        TablesFacts(mt.Tb());
        var c := mt.lengthCode[lc] + LITERALS + 1;
        var d := dist - 1;
        var e := if d < 256 then mt.distCode[d] else mt.distCode[256 + d / 128];
        DistSymBound(mt.Tb(), t);
        assert c == LitSym(mt.Tb(), t) && e == DistSym(mt.Tb(), t);
        ltree[c] := ltree[c].(fc := ltree[c].fc + 1);
        dtree[e] := dtree[e].(fc := dtree[e].fc + 1);
        assert dtree[..] == Bump(d0, e);
      }
      assert ltree[..] == Bump(l0, LitSym(mt.Tb(), t));
    }

    /** The loop over distance codes in ct_tally. */
    method EstimateLength(ghost toks: seq<Token>) returns (outLength: nat)
      requires Shape() && mt.Valid() && Counts(ltree[..], dtree[..], mt.Tb(), toks) && buf.lastLit == |toks|
      ensures outLength == 8 * |toks| + DistanceBits(mt.Tb(), toks)
    {
      hide Counts, ValidTables, Prices, ValidDesc, Extra, DistanceBits, EXTRA_DBITS, MatchTables.Tb;
      DescsValid();
      DistCounted(ltree[..], dtree[..], mt.Tb(), toks);
      ghost var prices := Prices(DistFreq(mt.Tb(), toks), Repeat(5, 30), D_DESC);
      outLength := buf.lastLit * 8;
      var dcode := 0;
      assert prices[..0] == [];
      while dcode < D_CODES
        invariant 0 <= dcode <= D_CODES && outLength == 8 * |toks| + Sum(prices[..dcode])
      {
        PricesAt(DistFreq(mt.Tb(), toks), dcode);
        outLength := outLength + dtree[dcode].fc * (5 + EXTRA_DBITS[dcode]);
        assert prices[..dcode + 1][..dcode] == prices[..dcode];
        dcode := dcode + 1;
      }
      assert prices[..dcode] == prices;
    }

    /** Store and count a literal (`dist` is 0) or a match; say whether the block should end. */
    method CtTally(dist: nat, lc: Byte, strstart: nat, blockStart: int) returns (flush: bool)
      requires Valid() && |buf.toks| < LIT_BUFSIZE - 1 && dist <= 32768
      modifies buf, buf.lBuf, buf.dBuf, buf.flagBuf, ltree, dtree
      ensures Valid() && buf.toks == old(buf.toks) + [TokenOf(dist, lc)] && w.Sent() == old(w.Sent())
      ensures flush == WantsFlush(mt.Tb(), buf.toks, (strstart - blockStart) % 0x1_0000_0000)
    {
      hide Counts, ValidTables, HoldsStatic, HoldsFreqs, Repeat, Writer.Valid, Writer.Sent, MatchTables.Valid, MatchTables.Tb, DistanceBits, HoldsTokens, HoldsFlags;
      ghost var toks := buf.toks;
      CountToken(dist, lc, toks, TokenOf(dist, lc));
      buf.Add(dist, lc);
      if buf.lastLit % 0x1000 == 0 {
        var outLength := EstimateLength(buf.toks);
        var inLength := (strstart - blockStart) % 0x1_0000_0000;
        outLength := outLength / 8;
        if buf.lastDist < buf.lastLit / 2 && outLength < inLength / 2 {
          return true;
        }
      }
      flush := buf.lastLit == LIT_BUFSIZE - 1 || buf.lastDist == DIST_BUFSIZE;
    }

    /** The state except for the trees under construction. */
    ghost predicate Framed()
      reads w, w.outbuf, buf, buf.lBuf, buf.dBuf, buf.flagBuf, staticLtree, staticDtree,
            mt.lengthCode, mt.baseLength, mt.distCode, mt.baseDist
    {
      Shape() && w.Valid() && buf.Valid() && mt.Valid() && HoldsStatic(staticLtree[..], staticDtree[..])
    }

    /** Trees for the buffered tokens are ready, and both lengths are exact. */
    ghost predicate Prepared(tr: Trees)
      reads this, buf, ltree, dtree, blTree, mt.lengthCode, mt.baseLength, mt.distCode, mt.baseDist
    {
      && HoldsTrees(ltree[..], dtree[..], blTree[..], tr)
      && Ready(tr, mt.Tb(), buf.toks)
      && optLen == |DynamicBits(tr, mt.Tb(), buf.toks)| && staticLen == |StaticBits(mt.Tb(), buf.toks)|
    }

    method BuildCodes(ghost tb: Tables, ghost toks: seq<Token>) returns (lmax: nat, dmax: nat, ghost ll: Lengths, ghost dl: Lengths)
      requires Valid() && tb == mt.Tb() && toks == buf.toks
      modifies this, ltree, dtree, heap, depth, blCount
      ensures Framed() && HoldsFreqs(blTree[..], Repeat(0, BL_CODES)) && lmax < 286 && dmax < 30
      ensures w.Valid() && w.Sent() == old(w.Sent()) && tb == mt.Tb() && toks == buf.toks && buf.flagBuf[..] == old(buf.flagBuf[..])
      ensures ll == Lens(ltree[..], lmax + 1) && dl == Lens(dtree[..], dmax + 1)
      ensures CodesReady(ltree[..], dtree[..], ll, dl, tb, toks, optLen, staticLen)
    {
      hide ValidTables, Counts, HoldsStatic, HoldsFreqs, Repeat, CodesReady, Lens, Writer.Valid, Writer.Sent,
           MatchTables.Tb, HoldsTokens, HoldsFlags, FlagByte;
      lmax, dmax, optLen, staticLen := BuildSymbolTrees(ltree, dtree, staticLtree, staticDtree, heap, depth, blCount, tb, toks);
      ll, dl := Lens(ltree[..], lmax + 1), Lens(dtree[..], dmax + 1);
    }

    method BuildHeader(lmax: nat, dmax: nat, ghost ll: Lengths, ghost dl: Lengths, ghost tb: Tables, ghost toks: seq<Token>)
      returns (maxBlindex: nat, ghost tr: Trees)
      requires Framed() && HoldsFreqs(blTree[..], Repeat(0, BL_CODES)) && lmax < 286 && dmax < 30 && tb == mt.Tb() && toks == buf.toks
      requires ll == Lens(ltree[..], lmax + 1) && dl == Lens(dtree[..], dmax + 1)
      requires CodesReady(ltree[..], dtree[..], ll, dl, tb, toks, optLen, staticLen)
      modifies this`optLen, ltree, dtree, blTree, heap, depth, blCount
      ensures Framed() && Prepared(tr) && Ready(tr, tb, toks)
      ensures w.Valid() && w.Sent() == old(w.Sent()) && tb == mt.Tb() && toks == buf.toks && buf.flagBuf[..] == old(buf.flagBuf[..])
      ensures |tr.ll| == lmax + 1 && |tr.dl| == dmax + 1 && tr.blcodes == maxBlindex + 1
    {
      hide ValidTables, HoldsStatic, HoldsFreqs, Repeat, CodesReady, LengthCode, HoldsTrees, Encodes, HeaderBits, Lens, Writer.Valid, Writer.Sent,
           MatchTables.Tb, HoldsTokens, HoldsFlags, Bounded, FlagByte, AllCodable, FixedLit, AllProper, DynamicBits, StaticBits;
      ghost var l0, d0, dataLen, cl := ltree[..], dtree[..], optLen, [];
      ReadyFacts(l0, d0, ll, dl, tb, toks, dataLen, staticLen);
      maxBlindex, optLen, cl := BuildBlTree(ltree, dtree, blTree, lmax, dmax, heap, depth, blCount, optLen, ll, dl);
      tr := Trees(ll, dl, cl, maxBlindex + 1);
      TreesHeld(l0, d0, ltree[..], dtree[..], blTree[..], tr, tb, toks, dataLen, staticLen, optLen);
    }

    /** The first half of flush_block. */
    method PrepareTrees(ghost tb: Tables, ghost toks: seq<Token>) returns (lmax: nat, dmax: nat, maxBlindex: nat, ghost tr: Trees)
      requires Valid() && tb == mt.Tb() && toks == buf.toks
      modifies this, ltree, dtree, blTree, heap, depth, blCount
      ensures Framed() && Prepared(tr) && Ready(tr, tb, toks)
      ensures w.Valid() && w.Sent() == old(w.Sent()) && tb == mt.Tb() && toks == buf.toks && buf.flagBuf[..] == old(buf.flagBuf[..])
      ensures |tr.ll| == lmax + 1 && |tr.dl| == dmax + 1 && tr.blcodes == maxBlindex + 1
    {
      hide *;
      ghost var ll, dl;
      lmax, dmax, ll, dl := BuildCodes(tb, toks);
      maxBlindex, tr := BuildHeader(lmax, dmax, ll, dl, tb, toks);
    }

    /** Save the flags of the last, unfinished group. */
    method SaveFlags(ghost tb: Tables, ghost toks: seq<Token>)
      requires Valid() && tb == mt.Tb() && toks == buf.toks
      modifies buf.flagBuf
      ensures Valid() && FlagsSaved(buf.flagBuf[..], toks) && tb == mt.Tb() && toks == buf.toks
      ensures w.Valid() && w.Sent() == old(w.Sent())
    {
      hide FlagsSaved, Writer.Valid, Writer.Sent, HoldsTokens, HoldsFlags, FlagByte, MatchTables.Tb, HoldsStatic, Counts, HoldsFreqs;
      buf.SaveFlags();
    }

    method SendStored(raw: seq<Byte>, storedLen: nat, eof: bool)
      requires w.Valid() && |raw| == storedLen < 65536
      modifies w, w.outbuf
      ensures w.Valid()
      ensures w.Sent() == old(w.Sent()) + (LsbBits(if eof then 1 else 0, 3) + StoredBits(|old(w.Sent())| + 3, raw))
    {
      hide LsbBits, Writer.Valid, Writer.Sent, BytesBits, Padding;
      Pow2Values();
      ghost var s := w.Sent();
      w.SendBits(if eof then 1 else 0, 3);
      w.CopyBlock(raw, storedLen, true);
      ghost var h := LsbBits(if eof then 1 else 0, 3);
      assert |s + h| == |s| + 3;
      StoredJoin(s, h, Padding(|s| + 3), LsbBits(storedLen, 16), LsbBits(65535 - storedLen, 16), raw);
    }

    /** The three bits in front of a block. */
    method SendKind(v: nat)
      requires Framed() && v < 8
      modifies w, w.outbuf
      ensures Framed() && w.Sent() == old(w.Sent()) + LsbBits(v, 3)
      ensures ltree[..] == old(ltree[..]) && dtree[..] == old(dtree[..]) && blTree[..] == old(blTree[..])
      ensures staticLtree[..] == old(staticLtree[..]) && staticDtree[..] == old(staticDtree[..])
      ensures buf.toks == old(buf.toks) && buf.flagBuf[..] == old(buf.flagBuf[..]) && mt.Tb() == old(mt.Tb())
    {
      hide LsbBits, Pow2, Writer.Valid, Writer.Sent, ValidTables, HoldsTokens, HoldsFlags, FlagByte, MatchTables.Tb, HoldsStatic;
      KindFits(v);
      w.SendBits(v, 3);
    }

    /** compress_block keeps everything but the writer. */
    method SendData(l: array<CtData>, d: array<CtData>, ghost ll: Lengths, ghost dl: Lengths, ghost tb: Tables, ghost toks: seq<Token>)
      requires Framed() && tb == mt.Tb() && toks == buf.toks && ValidTables(tb) && FlagsSaved(buf.flagBuf[..], toks)
      requires HoldsCodes(l[..], ll) && Bounded(ll, MAX_BITS) && HoldsCodes(d[..], dl) && Bounded(dl, MAX_BITS)
      requires AllCodable(tb, ll, dl, toks) && |ll| > END_BLOCK && ll[END_BLOCK] > 0
      modifies w, w.outbuf
      ensures Framed() && w.Sent() == old(w.Sent()) + (DataBits(tb, ll, dl, toks) + CodeBits(ll, END_BLOCK))
    {
      hide Writer.Valid, Writer.Sent, ValidTables, HoldsTokens, HoldsFlags, FlagByte, MatchTables.Tb, HoldsStatic,
           HoldsCodes, Bounded, AllCodable, DataBits, CodeBits, FlagsSaved;
      CompressBlock(w, buf, mt, l, d, ll, dl);
    }

    method SendStatic(eof: bool, ghost tb: Tables, ghost toks: seq<Token>)
      requires Framed() && tb == mt.Tb() && toks == buf.toks && ValidTables(tb) && FlagsSaved(buf.flagBuf[..], toks)
      requires AllCodable(tb, FixedLit(), Repeat(5, 30), toks)
      modifies w, w.outbuf
      ensures Framed()
      ensures w.Sent() == old(w.Sent()) + (LsbBits(2 + (if eof then 1 else 0), 3) + StaticBits(tb, toks))
    {
      hide *;
      ghost var s := Sending();
      StaticCodes(staticLtree[..], staticDtree[..]);
      SendKind(2 + (if eof then 1 else 0));
      SendData(staticLtree, staticDtree, FixedLit(), Repeat(5, 30), tb, toks);
      StaticJoin(s, LsbBits(2 + (if eof then 1 else 0), 3), tb, toks);
    }

    method SendDynamic(lmax: nat, dmax: nat, maxBlindex: nat, eof: bool, ghost tr: Trees,
                     ghost tb: Tables, ghost toks: seq<Token>)
      requires Framed() && tb == mt.Tb() && toks == buf.toks && Ready(tr, tb, toks) && Prepared(tr) && FlagsSaved(buf.flagBuf[..], toks)
      requires |toks| < LIT_BUFSIZE && |tr.ll| == lmax + 1 && |tr.dl| == dmax + 1 && tr.blcodes == maxBlindex + 1
      modifies w, w.outbuf
      ensures Framed()
      ensures w.Sent() == old(w.Sent()) + (LsbBits(4 + (if eof then 1 else 0), 3) + DynamicBits(tr, tb, toks))
    {
      hide *;
      ghost var s := Sending();
      TreesOf(tr);
      DynamicCodes(ltree[..], dtree[..], blTree[..], tr, tb, toks);
      SendKind(4 + (if eof then 1 else 0));
      SendTrees(lmax + 1, dmax + 1, maxBlindex + 1, tr);
      SendData(ltree, dtree, tr.ll, tr.dl, tb, toks);
      DynamicJoin(s, LsbBits(4 + (if eof then 1 else 0), 3), tr, tb, toks);
    }

    method SendTrees(lcodes: nat, dcodes: nat, blcodes: nat, ghost tr: Trees)
      requires Framed() && lcodes == |tr.ll| && dcodes == |tr.dl| && blcodes == tr.blcodes && Heads(tr)
      requires HoldsTrees(ltree[..], dtree[..], blTree[..], tr)
      modifies w, w.outbuf
      ensures Framed() && w.Sent() == old(w.Sent()) + HeaderBits(tr.ll, tr.dl, tr.cl, tr.blcodes)
      ensures ltree[..] == old(ltree[..]) && dtree[..] == old(dtree[..]) && blTree[..] == old(blTree[..])
      ensures staticLtree[..] == old(staticLtree[..]) && staticDtree[..] == old(staticDtree[..])
      ensures buf.toks == old(buf.toks) && buf.flagBuf[..] == old(buf.flagBuf[..]) && mt.Tb() == old(mt.Tb())
    {
      hide Writer.Valid, Writer.Sent, ValidTables, HoldsTokens, HoldsFlags, FlagByte, MatchTables.Tb, HoldsStatic,
           HoldsCodes, Bounded, Sendable, Packed, HeaderBits;
      SendAllTrees(w, lcodes, dcodes, blcodes, ltree, dtree, blTree, tr.cl);
    }

    ghost method Sending() returns (s: BitString)
      requires Framed()
      ensures w.Valid() && s == w.Sent() && HoldsStatic(staticLtree[..], staticDtree[..])
    {
      s := w.Sent();
    }

    lemma TreesOf(tr: Trees)
      requires Prepared(tr)
      ensures HoldsTrees(ltree[..], dtree[..], blTree[..], tr)
    {
    }

    /** Send the block in the encoding that BlockBits describes. */
    method SendBlock(raw: seq<Byte>, hasBuf: bool, storedLen: nat, eof: bool, lmax: nat, dmax: nat, maxBlindex: nat, ghost tr: Trees,
                     ghost tb: Tables, ghost toks: seq<Token>)
      requires Framed() && tb == mt.Tb() && toks == buf.toks && Ready(tr, tb, toks) && Prepared(tr) && FlagsSaved(buf.flagBuf[..], buf.toks)
      requires |toks| < LIT_BUFSIZE && |tr.ll| == lmax + 1 && |tr.dl| == dmax + 1 && tr.blcodes == maxBlindex + 1
      requires hasBuf ==> |raw| == storedLen
      modifies w, w.outbuf
      ensures Framed() && w.Valid()
      ensures w.Sent() == old(w.Sent()) + BlockBits(|old(w.Sent())|, hasBuf, raw, storedLen, eof, tr, tb, toks)
    {
      hide LsbBits, StoredBits, Writer.Valid, Writer.Sent, ValidTables, AllCodable, FlagsSaved, HoldsTokens, HoldsFlags, FlagByte,
           StaticBits, DynamicBits, FixedLit, Repeat, MatchTables.Tb, HoldsTrees, HoldsStatic, Encodes, AllProper;
      var optLenb, staticLenb := (optLen + 3 + 7) / 8, (staticLen + 3 + 7) / 8;
      if staticLenb <= optLenb {
        optLenb := staticLenb;
      }
      if storedLen + 4 <= optLenb && hasBuf {
        StoredFits(tb, toks, storedLen);
        SendStored(raw, storedLen, eof);
      } else if staticLenb == optLenb {
        SendStatic(eof, tb, toks);
      } else {
        SendDynamic(lmax, dmax, maxBlindex, eof, tr, tb, toks);
      }
    }

    /** End the block: whatever encoding is chosen, the decoder turns `out` into `final` by reading it. */
    method FlushBlock(raw: seq<Byte>, hasBuf: bool, storedLen: nat, eof: bool, ghost out: seq<Byte>, ghost final: seq<Byte>)
      returns (ghost tr: Trees, ghost s: BitString)
      requires Valid() && Expand(out, buf.toks) == Some(final)
      requires hasBuf ==> |raw| == storedLen && out + raw == final
      modifies this, w, w.outbuf, buf, buf.flagBuf, ltree, dtree, blTree, heap, depth, blCount
      ensures Valid() && buf.toks == []
      ensures AllProper(old(buf.toks)) && |old(buf.toks)| < LIT_BUFSIZE && Encodes(tr, mt.Tb(), old(buf.toks))
      ensures s == old(w.Sent()) + BlockBits(|old(w.Sent())|, hasBuf, raw, storedLen, eof, tr, mt.Tb(), old(buf.toks))
      ensures w.Sent() == s + (if eof then Padding(|s|) else []) && (eof ==> w.biValid == 0)
      ensures ReadsTo(old(w.Sent()), s, eof, out, final)
      ensures |s| <= |old(w.Sent())| + 31 * |old(buf.toks)| + 40
    {
      hide *;
      Ongoing();
      ghost var s0, toks, tb := w.Sent(), buf.toks, mt.Tb();
      SaveFlags(tb, toks);
      var lmax, dmax, maxBlindex;
      lmax, dmax, maxBlindex, tr := PrepareTrees(tb, toks);
      ReadyParts(tr, tb, toks);
      SendBlock(raw, hasBuf, storedLen, eof, lmax, dmax, maxBlindex, tr, tb, toks);
      BlockReads(s0, hasBuf, raw, storedLen, eof, tr, tb, toks, out, final);
      BlockBound(|s0|, hasBuf, raw, storedLen, eof, tr, tb, toks);
      s := w.Sent();
      FinishBlock(eof);
    }

    lemma Ongoing()
      requires Valid()
      ensures |buf.toks| < LIT_BUFSIZE && AllProper(buf.toks) && w.Valid()
    {
    }

    /** The end of flush_block. */
    method FinishBlock(eof: bool)
      requires Framed()
      modifies this, w, w.outbuf, buf, ltree, dtree, blTree
      ensures Valid() && buf.toks == []
      ensures w.Sent() == old(w.Sent()) + (if eof then Padding(|old(w.Sent())|) else []) && (eof ==> w.biValid == 0)
    {
      hide Writer.Valid, Writer.Sent, ValidTables, HoldsTokens, HoldsFlags, FlagByte, HoldsStatic, Counts, HoldsFreqs, Padding, MatchTables.Tb;
      InitBlock();
      if eof {
        w.BiWindup();
      }
    }
  }

  lemma StoredJoin(s: BitString, h: BitString, p: BitString, l: BitString, n: BitString, raw: seq<Byte>)
    requires |raw| < 65536 && p == Padding(|s| + 3) && l == LsbBits(|raw|, 16) && n == LsbBits(65535 - |raw|, 16)
    ensures s + h + p + (l + n) + BytesBits(raw) == s + (h + StoredBits(|s| + 3, raw))
  {
    hide *;
    StoredParts(|s| + 3, raw);
    JoinFive(s, h, p, l, n, BytesBits(raw));
  }

  lemma StoredParts(pos: nat, raw: seq<Byte>)
    requires |raw| < 65536
    ensures StoredBits(pos, raw) == Padding(pos) + (LsbBits(|raw|, 16) + (LsbBits(65535 - |raw|, 16) + BytesBits(raw)))
  {
    hide LsbBits, BytesBits, Padding, Pow2;
  }

  lemma JoinFive(s: BitString, h: BitString, a: BitString, b: BitString, c: BitString, d: BitString)
    ensures s + h + a + (b + c) + d == s + (h + (a + (b + (c + d))))
  {
  }

  lemma ReadyParts(tr: Trees, tb: Tables, toks: seq<Token>)
    requires Ready(tr, tb, toks)
    ensures ValidTables(tb) && AllProper(toks) && Encodes(tr, tb, toks)
  {
  }

  lemma KindFits(v: nat)
    requires v < 8
    ensures v < Pow2(3)
  {
  }

  lemma StaticCodes(ltree: seq<CtData>, dtree: seq<CtData>)
    requires HoldsStatic(ltree, dtree)
    ensures HoldsCodes(ltree, FixedLit()) && HoldsCodes(dtree, Repeat(5, 30))
    ensures Bounded(FixedLit(), MAX_BITS) && Bounded(Repeat(5, 30), MAX_BITS)
    ensures |FixedLit()| > END_BLOCK && FixedLit()[END_BLOCK] > 0
  {
    FixedLitGood();
    FixedDistGood(30);
    FixedEnd();
  }

  lemma StaticJoin(s: BitString, h: BitString, tb: Tables, toks: seq<Token>)
    requires ValidTables(tb) && AllCodable(tb, FixedLit(), Repeat(5, 30), toks)
    ensures s + h + (DataBits(tb, FixedLit(), Repeat(5, 30), toks) + CodeBits(FixedLit(), END_BLOCK)) == s + (h + StaticBits(tb, toks))
  {
    hide ValidTables, AllCodable, DataBits, CodeBits, FixedLit, Repeat;
  }

  /** The codes are such that their lengths can be sent. */
  ghost predicate Heads(tr: Trees)
  {
    && 257 <= |tr.ll| <= 286 && 1 <= |tr.dl| <= 30 && 4 <= tr.blcodes <= 19 == |tr.cl|
    && Bounded(tr.ll, 15) && Bounded(tr.dl, 15) && Bounded(tr.cl, 7)
    && Sendable(tr.cl, Packed(tr.ll)) && Sendable(tr.cl, Packed(tr.dl))
  }

  lemma DynamicCodes(l: seq<CtData>, d: seq<CtData>, bl: seq<CtData>, tr: Trees, tb: Tables, toks: seq<Token>)
    requires Ready(tr, tb, toks) && HoldsTrees(l, d, bl, tr)
    ensures ValidTables(tb) && Encodes(tr, tb, toks) && Heads(tr)
    ensures |tr.ll| > END_BLOCK && HoldsCodes(l, tr.ll) && HoldsCodes(d, tr.dl) && AllCodable(tb, tr.ll, tr.dl, toks) && tr.ll[END_BLOCK] > 0
    ensures Bounded(tr.ll, MAX_BITS) && Bounded(tr.dl, MAX_BITS)
  {
    hide ValidTables, AllCodable, HoldsCodes, Kraft, Bounded, Sendable, Packed, Placed, Pow2;
  }

  lemma DynamicJoin(s: BitString, h: BitString, tr: Trees, tb: Tables, toks: seq<Token>)
    requires ValidTables(tb) && Encodes(tr, tb, toks)
    ensures s + h + HeaderBits(tr.ll, tr.dl, tr.cl, tr.blcodes) + (DataBits(tb, tr.ll, tr.dl, toks) + CodeBits(tr.ll, END_BLOCK))
         == s + (h + DynamicBits(tr, tb, toks))
  {
    hide ValidTables, AllCodable, DataBits, CodeBits, HeaderBits, Kraft, Bounded, Sendable, Packed, Placed, Pow2, GoodCode;
  }

  lemma DistCounted(l: seq<CtData>, d: seq<CtData>, tb: Tables, toks: seq<Token>)
    requires Counts(l, d, tb, toks) && ValidDesc(D_DESC) && D_DESC.elems == 30
    ensures ValidTables(tb) && AllProper(toks) && HoldsFreqs(d, DistFreq(tb, toks))
    ensures Sum(Prices(DistFreq(tb, toks), Repeat(5, 30), D_DESC)) == DistanceBits(tb, toks)
  {
    hide ValidTables, AllProper, DistFreq, HoldsFreqs, Prices, DistanceBits;
    DistanceBitsPriced(tb, toks);
  }

  lemma PricesAt(freq: seq<nat>, i: nat)
    requires ValidDesc(D_DESC) && |freq| == D_CODES == D_DESC.elems && i < D_CODES == |EXTRA_DBITS|
    ensures var p := Prices(freq, Repeat(5, 30), D_DESC); |p| == D_CODES && p[i] == freq[i] * (5 + EXTRA_DBITS[i])
  {
    DescsValid();
  }

  lemma TablesFacts(tb: Tables)
    requires ValidTables(tb)
    ensures |tb.lengthCode| == 256 && |tb.distCode| == 512
  {
  }

  ghost function Bump(t: seq<CtData>, i: nat): seq<CtData>
    requires i < |t|
  {
    t[i := t[i].(fc := t[i].fc + 1)]
  }

  lemma CountsStep(l: seq<CtData>, d: seq<CtData>, tb: Tables, toks: seq<Token>, t: Token)
    requires Counts(l, d, tb, toks) && Proper(t)
    ensures LitSym(tb, t) < 286 < |l| && (t.Pair? ==> DistSym(tb, t) < 30 < |d|)
    ensures AllProper(toks + [t])
    ensures Counts(Bump(l, LitSym(tb, t)), if t.Pair? then Bump(d, DistSym(tb, t)) else d, tb, toks + [t])
  {
    hide ValidTables, LitFreq, DistFreq, LitSym, DistSym, AllProper;
    FreqSnoc(tb, toks, t);
  }

  lemma StaticHeld(ltree: seq<CtData>, dtree: seq<CtData>)
    requires |ltree| == 288 && |dtree| == 30
    requires Lens(ltree, 288) == FixedLit() && HoldsCodes(ltree, FixedLit())
    requires Lens(dtree, 30) == Repeat(5, 30) && HoldsCodes(dtree, Repeat(5, 30))
    ensures HoldsStatic(ltree, dtree)
  {
    hide HoldsCodes, FixedLit, Lens;
  }

  method ClearFreqs(tree: array<CtData>, n: nat)
    requires n <= tree.Length
    modifies tree
    ensures HoldsFreqs(tree[..], Repeat(0, n))
  {
    var i := 0;
    while i < n
      invariant 0 <= i <= n && forall k :: 0 <= k < i ==> tree[k].fc == 0
    {
      tree[i] := tree[i].(fc := 0);
      i := i + 1;
    }
  }

  lemma NothingCounted(ltree: seq<CtData>, dtree: seq<CtData>, tb: Tables)
    requires ValidTables(tb) && |ltree| == HEAP_SIZE && |dtree| == 2 * D_CODES + 1
    requires HoldsFreqs(ltree, Repeat(0, 286)[END_BLOCK := 1]) && HoldsFreqs(dtree, Repeat(0, D_CODES))
    ensures Counts(ltree, dtree, tb, [])
  {
    hide ValidTables;
  }
}
