/** The trees of a block: the first half of flush_block, with build_bl_tree, and the exact block lengths it computes. */
module BlockTrees {
  import opened Arith
  import opened Bits
  import opened Canonical
  import opened Inflate
  import opened MatchCodes
  import opened Tokens
  import opened TokenBuffer
  import opened TokenCosts
  import opened CodeTables
  import opened TreeHeap
  import HuffmanCost
  import opened HuffmanTree
  import opened TreeSums
  import opened BitLengths
  import opened CodeSpace
  import opened TreeBuilder
  import opened RunLengths
  import opened TreeSender
  import opened DynamicHeader
  import opened BlockCodec

  // ---------- the two symbol codes ----------

  /** The table holds a prefix code with the lengths `lens` for all symbols that occur. */
  ghost predicate SymbolCode(t: seq<CtData>, lens: Lengths, freq: seq<nat>)
  {
    && 1 <= |lens| <= |freq| && 2 * |freq| < |t| && lens == Lens(t, |lens|) && HoldsCodes(t, lens) && GoodCode(lens)
    && forall i :: 0 <= i < |freq| && freq[i] > 0 ==> i < |lens| && lens[i] > 0
  }

  lemma SymbolCodeBuilt(t: seq<CtData>, maxCode: nat, freq0: seq<nat>, freq: seq<nat>, desc: TreeDesc)
    requires ValidDesc(desc) && desc.maxLength == MAX_BITS && Built(t, maxCode, freq0, freq, desc)
    requires |t| == 2 * desc.elems + 1
    ensures maxCode < desc.elems == |freq0| && SymbolCode(t, Lens(t, maxCode + 1), freq0)
    ensures SameLengths(Lens(t, maxCode + 1), Lens(t, desc.elems), desc.elems)
    ensures Costs(freq0, Lens(t, desc.elems), desc) == Prices(freq0, Lens(t, desc.elems), desc)
  {
    hide Built, HoldsCodes, Kraft, Pow2, Costs, Prices, GoodCode;
    BuiltFacts(t, maxCode, freq0, freq, desc);
    BuiltCost(t, maxCode, freq0, freq, desc, []);
  }

  /** The guard that scan_tree sets behind the last code does not disturb the code. */
  lemma SymbolCodeGuarded(t: seq<CtData>, lens: Lengths, freq: seq<nat>)
    requires SymbolCode(t, lens, freq)
    ensures |lens| < |t| && var u := t[|lens| := t[|lens|].(dl := GUARD)];
            SymbolCode(u, lens, freq) && u[|lens|].dl == GUARD
  {
    hide GoodCode, CodeBits, LsbBits;
    var u := t[|lens| := t[|lens|].(dl := GUARD)];
    forall i | 0 <= i < |lens| && lens[i] > 0 ensures HoldsCode(u, lens, i) {
      assert HoldsCode(t, lens, i);
    }
  }

  /** The static trees stand in their tables. */
  ghost predicate HoldsStatic(ltree: seq<CtData>, dtree: seq<CtData>)
  {
    && |ltree| == 288 && |dtree| == 30
    && Lens(ltree, 288) == FixedLit() && HoldsCodes(ltree, FixedLit())
    && Lens(dtree, 30) == Repeat(5, 30) && HoldsCodes(dtree, Repeat(5, 30))
  }

  lemma StaticDads(ltree: seq<CtData>, dtree: seq<CtData>)
    requires HoldsStatic(ltree, dtree)
    ensures |ltree| == 288 && |dtree| == 30 && Dads(ltree) == FixedLit() && Dads(dtree) == Repeat(5, 30)
  {
    hide HoldsCodes, FixedLit, Repeat;
    assert Dads(ltree) == Lens(ltree, 288);
    assert Dads(dtree) == Lens(dtree, 30);
  }

  /** The frequencies counted by ct_tally for the tokens of the block. */
  ghost predicate Counts(ltree: seq<CtData>, dtree: seq<CtData>, tb: Tables, toks: seq<Token>)
  {
    && ValidTables(tb) && AllProper(toks)
    && |ltree| == HEAP_SIZE && |dtree| == 2 * D_CODES + 1
    && HoldsFreqs(ltree, LitFreq(tb, toks)) && HoldsFreqs(dtree, DistFreq(tb, toks))
  }

  lemma CountsFacts(ltree: seq<CtData>, dtree: seq<CtData>, tb: Tables, toks: seq<Token>)
    requires Counts(ltree, dtree, tb, toks)
    ensures ValidTables(tb) && AllProper(toks) && |ltree| == 2 * 286 + 1 && |dtree| == 2 * 30 + 1
    ensures SymbolFreqs(ltree, 286) == LitFreq(tb, toks) && SymbolFreqs(dtree, 30) == DistFreq(tb, toks)
    ensures Sum(LitFreq(tb, toks)) == |toks| + 1 && Sum(DistFreq(tb, toks)) <= |toks|
  {
    hide ValidTables, LitFreq, DistFreq, HoldsFreqs, AllProper;
    HoldsSymbolFreqs(ltree, LitFreq(tb, toks));
    HoldsSymbolFreqs(dtree, DistFreq(tb, toks));
    FreqFacts(tb, toks);
  }

  /** Both codes are ready; sending the data takes exactly `optLen` bits, with the fixed codes `staticLen`. */
  ghost predicate CodesReady(ltree: seq<CtData>, dtree: seq<CtData>, ll: Lengths, dl: Lengths, tb: Tables, toks: seq<Token>,
                             optLen: int, staticLen: int)
  {
    && ValidTables(tb) && AllProper(toks)
    && SymbolCode(ltree, ll, LitFreq(tb, toks)) && SymbolCode(dtree, dl, DistFreq(tb, toks))
    && |ll| > END_BLOCK && ll[END_BLOCK] > 0
    && AllCodable(tb, ll, dl, toks) && AllCodable(tb, FixedLit(), Repeat(5, 30), toks)
    && optLen == |DataBits(tb, ll, dl, toks)| + ll[END_BLOCK]
    && staticLen == |StaticBits(tb, toks)|
  }

  lemma CodesAreReady(ltree: seq<CtData>, dtree: seq<CtData>, ll: Lengths, dl: Lengths, le: Lengths, de: Lengths,
                      tb: Tables, toks: seq<Token>, optLen: int, staticLen: int)
    requires ValidTables(tb) && AllProper(toks) && ValidDesc(L_DESC) && ValidDesc(D_DESC)
    requires SymbolCode(ltree, ll, LitFreq(tb, toks)) && SymbolCode(dtree, dl, DistFreq(tb, toks))
    requires SameLengths(ll, le, 286) && SameLengths(dl, de, D_CODES)
    requires optLen == Sum(Prices(LitFreq(tb, toks), le, L_DESC)) + Sum(Prices(DistFreq(tb, toks), de, D_DESC))
    requires staticLen == Sum(Prices(LitFreq(tb, toks), FixedLit(), L_DESC)) + Sum(Prices(DistFreq(tb, toks), Repeat(5, 30), D_DESC))
    ensures CodesReady(ltree, dtree, ll, dl, tb, toks, optLen, staticLen)
  {
    hide ValidTables, LitFreq, DistFreq, Prices, Sum, DataBits, CodeBits, FixedLit, AllProper, AllCodable, GoodCode, HoldsCodes, ValidDesc;
    SymbolsCovered(ltree, ll, LitFreq(tb, toks));
    SymbolsCovered(dtree, dl, DistFreq(tb, toks));
    CodesForAll(tb, toks, ll, dl);
    FixedCodesForAll(tb, toks);
    DataCost(tb, ll, dl, le, de, toks);
    FixedEnd();
    DataCost(tb, FixedLit(), Repeat(5, 30), FixedLit(), Repeat(5, 30), toks);
  }

  lemma SymbolsCovered(t: seq<CtData>, lens: Lengths, freq: seq<nat>)
    requires SymbolCode(t, lens, freq)
    ensures forall i :: 0 <= i < |freq| && freq[i] > 0 ==> i < |lens| && lens[i] > 0
  {
    hide HoldsCodes, GoodCode;
  }

  method BuildSymbolTrees(ltree: array<CtData>, dtree: array<CtData>, sltree: array<CtData>, sdtree: array<CtData>,
                          heap: array<nat>, depth: array<nat>, blCount: array<nat>,
                          ghost tb: Tables, ghost toks: seq<Token>)
    returns (lmax: nat, dmax: nat, optLen: int, staticLen: int)
    requires heap != depth && heap != blCount && depth != blCount
    requires heap.Length == depth.Length == HEAP_SIZE && blCount.Length == MAX_BITS + 1
    requires ltree != dtree && {ltree, dtree} !! {sltree, sdtree}
    requires Counts(ltree[..], dtree[..], tb, toks) && HoldsStatic(sltree[..], sdtree[..]) && |toks| < LIT_BUFSIZE
    modifies ltree, dtree, heap, depth, blCount
    ensures lmax < 286 && dmax < 30
    ensures CodesReady(ltree[..], dtree[..], Lens(ltree[..], lmax + 1), Lens(dtree[..], dmax + 1), tb, toks, optLen, staticLen)
  {
    hide ValidTables, LitFreq, DistFreq, Prices, Sum, Costs, FixedTotal, Built, SymbolCode, SameLengths, ValidDesc, Counts, HoldsStatic,
         PlainLowCodes, SymbolFreqs, FixedLit, Repeat, CodesReady, AllProper, Dads, Lens;
    DescsValid();
    CountsFacts(ltree[..], dtree[..], tb, toks);
    StaticDads(sltree[..], sdtree[..]);
    ghost var lf, df := LitFreq(tb, toks), DistFreq(tb, toks);
    ghost var freq;
    lmax, optLen, staticLen, freq := BuildTree(ltree, L_DESC, sltree, heap, depth, blCount, 0, 0);
    ghost var tl := ltree[..];
    SymbolCodeBuilt(tl, lmax, lf, freq, L_DESC);
    BuiltCost(tl, lmax, lf, freq, L_DESC, sltree[..]);
    dmax, optLen, staticLen, freq := BuildTree(dtree, D_DESC, sdtree, heap, depth, blCount, optLen, staticLen);
    ghost var td := dtree[..];
    SymbolCodeBuilt(td, dmax, df, freq, D_DESC);
    BuiltCost(td, dmax, df, freq, D_DESC, sdtree[..]);
    CodesAreReady(tl, td, Lens(tl, lmax + 1), Lens(td, dmax + 1), Lens(tl, 286), Lens(td, 30), tb, toks, optLen, staticLen);
  }

  // ---------- the code for the code lengths ----------

  /** The code `cl` stands in the table and can send the lengths of both symbol codes. */
  ghost predicate LengthCode(t: seq<CtData>, cl: Lengths, blcodes: nat, ll: Lengths, dl: Lengths)
  {
    && |t| >= BL_CODES == |cl| && cl == Lens(t, BL_CODES) && HoldsCodes(t, cl)
    && Bounded(cl, 7) && Kraft(cl, 7) <= Pow2(7)
    && Sendable(cl, Packed(ll)) && Sendable(cl, Packed(dl))
    && 4 <= blcodes <= 19 && Placed(cl, blcodes) == cl
  }

  /** Frequencies of the symbols for two lists of lengths. */
  lemma BothTallied(ll: Lengths, dl: Lengths)
    requires Bounded(ll, 15) && Bounded(dl, 15)
    ensures Coded(Packed(ll)) && Coded(Packed(dl)) && Coded(Packed(ll) + Packed(dl))
    ensures var f := Tally(Tally(Repeat(0, BL_CODES), Packed(ll)), Packed(dl));
            && f == Tally(Repeat(0, BL_CODES), Packed(ll) + Packed(dl))
            && Sum(f) <= |ll| + |dl|
            && (forall i :: 0 <= i < |Packed(ll)| ==> f[Packed(ll)[i].code] > 0)
            && (forall i :: 0 <= i < |Packed(dl)| ==> f[Packed(dl)[i].code] > 0)
  {
    hide Packed, Tally, Sum, Coded, Bounded;
    PackedCoded(ll);
    PackedCoded(dl);
    TallyConcat(Repeat(0, BL_CODES), Packed(ll), Packed(dl));
    CodedAt(Packed(ll));
    CodedAt(Packed(dl));
    TallyGrows(Repeat(0, BL_CODES), Packed(ll));
    TallyGrows(Tally(Repeat(0, BL_CODES), Packed(ll)), Packed(dl));
    SumZero(Repeat(0, BL_CODES));
    PackedShort(ll);
    PackedShort(dl);
  }

  lemma PackedCoded(lens: Lengths)
    requires Bounded(lens, 15)
    ensures Coded(Packed(lens)) && AllFit(Packed(lens))
  {
    hide Runs;
    RunsCoded(lens, 0, -1, 0);
    RunsFit(lens, 0, -1, 0);
  }

  lemma CodedAt(syms: seq<ClSym>)
    requires Coded(syms)
    ensures forall i :: 0 <= i < |syms| ==> syms[i].code < BL_CODES
  {
  }

  lemma AllSendable(cl: Lengths, freq: seq<nat>, syms: seq<ClSym>)
    requires |freq| == BL_CODES == |cl| && AllFit(syms) && Coded(syms)
    requires forall i :: 0 <= i < |syms| ==> freq[syms[i].code] > 0
    requires forall c :: 0 <= c < BL_CODES && freq[c] > 0 ==> cl[c] > 0
    ensures Sendable(cl, syms)
  {
    hide Pow2;
    forall i | 0 <= i < |syms| ensures Fits(syms[i]) && syms[i].code < |cl| && cl[syms[i].code] > 0 {
      assert freq[syms[i].code] > 0;
    }
  }

  /** From the built tree to a usable code, with the cost of the packed lengths. */
  lemma LengthCodeBuilt(t: seq<CtData>, maxCode: nat, freq: seq<nat>, ll: Lengths, dl: Lengths)
    requires Bounded(ll, 15) && Bounded(dl, 15) && ValidDesc(BL_DESC) && |t| == 2 * BL_CODES + 1
    requires Coded(Packed(ll)) && Coded(Packed(dl))
    requires Built(t, maxCode, Tally(Tally(Repeat(0, BL_CODES), Packed(ll)), Packed(dl)), freq, BL_DESC)
    ensures var cl := Lens(t, BL_CODES);
            && HoldsCodes(t, cl) && Bounded(cl, 7) && Kraft(cl, 7) <= Pow2(7)
            && Sendable(cl, Packed(ll)) && Sendable(cl, Packed(dl))
            && Sum(Costs(Tally(Tally(Repeat(0, BL_CODES), Packed(ll)), Packed(dl)), cl, BL_DESC))
               == |SymsBits(cl, Packed(ll))| + |SymsBits(cl, Packed(dl))|
  {
    hide Packed, Tally, Sum, Coded, Bounded, Built, HoldsCodes, Kraft, Pow2, Costs, Prices, ValidDesc, Sendable, SymsBits, AllFit, GoodCode;
    BlDesc();
    BothTallied(ll, dl);
    var cl, f := Lens(t, BL_CODES), Tally(Tally(Repeat(0, BL_CODES), Packed(ll)), Packed(dl));
    BuiltFacts(t, maxCode, f, freq, BL_DESC);
    BuiltCost(t, maxCode, f, freq, BL_DESC, []);
    BuiltCode(t, maxCode, f, freq);
    PackedCoded(ll);
    PackedCoded(dl);
    assert forall c :: 0 <= c < BL_CODES && f[c] > 0 ==> cl[c] > 0;
    AllSendable(cl, f, Packed(ll));
    AllSendable(cl, f, Packed(dl));
    SendableJoin(cl, Packed(ll), Packed(dl));
    SymsCost(Repeat(0, BL_CODES), cl, Packed(ll) + Packed(dl));
    NoPrices(cl, BL_DESC);
  }

  lemma BuiltCode(t: seq<CtData>, maxCode: nat, freq0: seq<nat>, freq: seq<nat>)
    requires ValidDesc(BL_DESC) && Built(t, maxCode, freq0, freq, BL_DESC) && BL_CODES <= |t|
    ensures HoldsCodes(t, Lens(t, BL_CODES)) && Kraft(Lens(t, BL_CODES), 7) == Pow2(7)
  {
    hide Kraft, HoldsCodes, HuffmanCost.Greedy, LiveWeights, WeightedLength, Forced, Pow2;
    BlDesc();
    BuiltFacts(t, maxCode, freq0, freq, BL_DESC);
    ExtendTable(t, maxCode, BL_CODES, 7);
  }

  /** Both symbol tables are followed by a guard. */
  ghost predicate Guarded(t: seq<CtData>, lens: Lengths)
  {
    |lens| < |t| && lens == Lens(t, |lens|) && t[|lens|].dl == GUARD
  }

  method BuildBlTree(ltree: array<CtData>, dtree: array<CtData>, blTree: array<CtData>, lmax: nat, dmax: nat,
                     heap: array<nat>, depth: array<nat>, blCount: array<nat>, optLen0: int, ghost ll: Lengths, ghost dl: Lengths)
    returns (maxBlindex: nat, optLen: int, ghost cl: Lengths)
    requires heap != depth && heap != blCount && depth != blCount
    requires heap.Length == depth.Length == HEAP_SIZE && blCount.Length == MAX_BITS + 1
    requires ltree != dtree && ltree != blTree && dtree != blTree && blTree.Length == 2 * BL_CODES + 1
    requires lmax + 1 < ltree.Length && ll == Lens(ltree[..], lmax + 1) && Bounded(ll, 15) && 257 <= |ll| <= 286 && ll[END_BLOCK] > 0
    requires dmax + 1 < dtree.Length && dl == Lens(dtree[..], dmax + 1) && Bounded(dl, 15) && |dl| <= 30
    requires HoldsFreqs(blTree[..], Repeat(0, BL_CODES))
    modifies ltree, dtree, blTree, heap, depth, blCount
    ensures ltree[..] == old(ltree[..])[|ll| := old(ltree[|ll|]).(dl := GUARD)]
    ensures dtree[..] == old(dtree[..])[|dl| := old(dtree[|dl|]).(dl := GUARD)]
    ensures 3 <= maxBlindex <= 18 && LengthCode(blTree[..], cl, maxBlindex + 1, ll, dl)
    ensures optLen == optLen0 + |HeaderBits(ll, dl, cl, maxBlindex + 1)|
  {
    hide Packed, Tally, Sum, Bounded, Built, HoldsCodes, Kraft, Costs, FixedTotal, Sendable, SymsBits, Coded, Placed, HoldsFreqs, ClBits, CountsBits, ValidDesc, PlainLowCodes, SymbolFreqs, Repeat;
    BlDesc();
    BothTallied(ll, dl);
    ghost var freq := ScanTree(ltree, lmax, blTree, Repeat(0, BL_CODES));
    assert Lens(ltree[..], lmax + 1) == ll;
    freq := ScanTree(dtree, dmax, blTree, freq);
    assert Lens(dtree[..], dmax + 1) == dl;
    HoldsSymbolFreqs(blTree[..], freq);
    ghost var forced;
    var maxCode, staticLen;
    maxCode, optLen, staticLen, forced := BuildTree(blTree, BL_DESC, null, heap, depth, blCount, optLen0, 0);
    cl := Lens(blTree[..], BL_CODES);
    LengthCodeBuilt(blTree[..], maxCode, forced, ll, dl);
    ghost var i := PlainLengthSent(ll, END_BLOCK);
    ghost var plain := Packed(ll)[i].code;
    SendableAt(cl, Packed(ll), i);
    maxBlindex := LastBlIndex(blTree, cl, plain);
    optLen := optLen + (3 * (maxBlindex + 1) + 5 + 5 + 4);
  }

  lemma SendableAt(cl: Lengths, syms: seq<ClSym>, i: nat)
    requires Sendable(cl, syms) && i < |syms|
    ensures syms[i].code < |cl| && cl[syms[i].code] > 0
  {
  }

  // ---------- all trees ----------

  /** The tables hold the three codes `tr` with the guards that send_tree needs. */
  ghost predicate HoldsTrees(ltree: seq<CtData>, dtree: seq<CtData>, blTree: seq<CtData>, tr: Trees)
  {
    && Guarded(ltree, tr.ll) && HoldsCodes(ltree, tr.ll)
    && Guarded(dtree, tr.dl) && HoldsCodes(dtree, tr.dl)
    && |tr.cl| == BL_CODES <= |blTree| && tr.cl == Lens(blTree, BL_CODES) && HoldsCodes(blTree, tr.cl)
  }

  lemma SymbolCodeFacts(t: seq<CtData>, lens: Lengths, freq: seq<nat>)
    requires SymbolCode(t, lens, freq)
    ensures 1 <= |lens| <= |freq| && 2 * |freq| < |t| && lens == Lens(t, |lens|) && Bounded(lens, 15)
    ensures HoldsCodes(t, lens) && GoodCode(lens)
  {
    hide HoldsCodes, Kraft;
  }

  /** What both halves of the preparation add up to. */
  lemma TreesHeld(l0: seq<CtData>, d0: seq<CtData>, l: seq<CtData>, d: seq<CtData>, bl: seq<CtData>, tr: Trees,
                  tb: Tables, toks: seq<Token>, dataLen: int, staticLen: int, optLen: int)
    requires CodesReady(l0, d0, tr.ll, tr.dl, tb, toks, dataLen, staticLen)
    requires |tr.ll| < |l0| && l == l0[|tr.ll| := l0[|tr.ll|].(dl := GUARD)]
    requires |tr.dl| < |d0| && d == d0[|tr.dl| := d0[|tr.dl|].(dl := GUARD)]
    requires LengthCode(bl, tr.cl, tr.blcodes, tr.ll, tr.dl) && |tr.ll| >= 257 && |tr.dl| >= 1
    requires optLen == dataLen + |HeaderBits(tr.ll, tr.dl, tr.cl, tr.blcodes)|
    ensures HoldsTrees(l, d, bl, tr) && ValidTables(tb) && AllProper(toks) && Encodes(tr, tb, toks)
    ensures AllCodable(tb, FixedLit(), Repeat(5, 30), toks)
    ensures optLen == |DynamicBits(tr, tb, toks)| && staticLen == |StaticBits(tb, toks)|
  {
    hide ValidTables, AllProper, LitFreq, DistFreq, SymbolCode, HoldsCodes, GoodCode, AllCodable, Sendable, Packed, Kraft, Pow2, Placed,
         DataBits, HeaderBits, CodeBits, FixedLit, Repeat, StaticBits, Lens;
    SymbolCodeGuarded(l0, tr.ll, LitFreq(tb, toks));
    SymbolCodeGuarded(d0, tr.dl, DistFreq(tb, toks));
    SymbolCodeFacts(l, tr.ll, LitFreq(tb, toks));
    SymbolCodeFacts(d, tr.dl, DistFreq(tb, toks));
  }

  lemma ReadyFacts(ltree: seq<CtData>, dtree: seq<CtData>, ll: Lengths, dl: Lengths, tb: Tables, toks: seq<Token>,
                   optLen: int, staticLen: int)
    requires CodesReady(ltree, dtree, ll, dl, tb, toks, optLen, staticLen)
    ensures 257 <= |ll| <= 286 && ll[END_BLOCK] > 0 && 1 <= |dl| <= 30 && Bounded(ll, 15) && Bounded(dl, 15)
  {
    hide ValidTables, AllProper, LitFreq, DistFreq, SymbolCode, AllCodable, DataBits, FixedLit, Repeat, StaticBits;
    SymbolCodeFacts(ltree, ll, LitFreq(tb, toks));
    SymbolCodeFacts(dtree, dl, DistFreq(tb, toks));
  }
}
