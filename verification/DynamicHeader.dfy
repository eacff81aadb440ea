/** build_bl_tree and send_all_trees: the header of a dynamic block, its cost and its decoding. */
module DynamicHeader {
  import opened Arith
  import opened Bits
  import opened Canonical
  import opened Inflate
  import opened CodeTables
  import opened BitLengths
  import opened TreeBuilder
  import opened RunLengths
  import opened BitWriter
  import opened Tokens
  import opened TreeSender

  const EXTRA_BLBITS: seq<nat> := [0, 0, 0, 0, 0, 0, 0, 0, 0, 0, 0, 0, 0, 0, 0, 0, 2, 3, 7]
  const BL_ORDER: seq<nat> := [16, 17, 18, 0, 8, 7, 9, 6, 10, 5, 11, 4, 12, 3, 13, 2, 14, 1, 15]
  const BL_DESC: TreeDesc := TreeDesc(BL_CODES, MAX_BL_BITS, 0, EXTRA_BLBITS)

  lemma BlDesc()
    ensures ValidDesc(BL_DESC) && PlainLowCodes(BL_DESC) && BL_DESC.elems == 19 && BL_DESC.maxLength == 7
    ensures forall s :: 0 <= s < 19 ==> Extra(BL_DESC, s) == ClExtra(s)
  {
    Pow2Values();
  }

  // ---------- cost of the packed lengths ----------

  lemma {:induction false} SymsCost(freq: seq<nat>, cl: Lengths, syms: seq<ClSym>)
    requires ValidDesc(BL_DESC) && |freq| == BL_CODES == |cl| && Sendable(cl, syms) && Coded(syms)
    ensures Sum(Prices(Tally(freq, syms), cl, BL_DESC)) == Sum(Prices(freq, cl, BL_DESC)) + |SymsBits(cl, syms)|
    decreases |syms|
  {
    hide Prices, ValidDesc, Extra, Sum, Fits, CodeBits, LsbBits, ClExtra, EXTRA_BLBITS;
    if syms != [] {
      var c := syms[0].code;
      BlExtra(c);
      PricesUpdate(freq, cl, BL_DESC, c);
      SymsCost(freq[c := freq[c] + 1], cl, syms[1..]);
    }
  }

  lemma BlExtra(c: nat)
    requires c < BL_CODES
    ensures ValidDesc(BL_DESC) && BL_DESC.elems == BL_CODES && Extra(BL_DESC, c) == ClExtra(c)
  {
    BlDesc();
  }

  lemma {:induction false} TallyGrows(freq: seq<nat>, syms: seq<ClSym>)
    requires |freq| == BL_CODES && Coded(syms)
    ensures forall c :: 0 <= c < BL_CODES ==> freq[c] <= Tally(freq, syms)[c]
    ensures forall i :: 0 <= i < |syms| ==> Tally(freq, syms)[syms[i].code] > 0
    ensures Sum(Tally(freq, syms)) == Sum(freq) + |syms|
    decreases |syms|
  {
    if syms != [] {
      var c := syms[0].code;
      SumUpdate(freq, c, freq[c] + 1);
      TallyGrows(freq[c := freq[c] + 1], syms[1..]);
      forall i | 0 <= i < |syms| ensures Tally(freq, syms)[syms[i].code] > 0 {
        if i > 0 {
          assert syms[i] == syms[1..][i - 1];
        }
      }
    }
  }

  // ---------- at least four bit length codes ----------

  ghost predicate AllZero(lens: Lengths)
  {
    forall i :: 0 <= i < |lens| ==> lens[i] == 0
  }

  ghost predicate NoPlainLength(syms: seq<ClSym>)
  {
    forall i :: 0 <= i < |syms| ==> !(1 <= syms[i].code <= 15)
  }

  lemma {:induction false} OnlyZeros(out: Lengths, syms: seq<ClSym>)
    requires AllZero(out) && NoPlainLength(syms) && UnpackAll(out, syms).Some?
    ensures AllZero(UnpackAll(out, syms).value)
    decreases |syms|
  {
    if syms != [] {
      var next := Unpack(out, syms[0].code, syms[0].arg).value;
      assert !(1 <= syms[0].code <= 15);
      assert AllZero(next);
      OnlyZeros(next, syms[1..]);
    }
  }

  /** A non-zero length is always sent plainly somewhere, not only as a repetition. */
  lemma PlainLengthSent(lens: Lengths, k: nat) returns (i: nat)
    requires Bounded(lens, 15) && k < |lens| && lens[k] > 0
    ensures i < |Packed(lens)| && 1 <= Packed(lens)[i].code <= 15
  {
    PackedUnpacks([], lens);
    assert [] + lens == lens;
    if NoPlainLength(Packed(lens)) {
      OnlyZeros([], Packed(lens));
    }
    i :| 0 <= i < |Packed(lens)| && 1 <= Packed(lens)[i].code <= 15;
  }

  /** Place of each symbol in BL_ORDER. */
  const RANK: seq<nat> := [3, 17, 15, 13, 11, 9, 7, 5, 4, 6, 8, 10, 12, 14, 16, 18, 0, 1, 2]

  lemma Ranks()
    ensures |BL_ORDER| == |RANK| == 19 && BL_ORDER == CL_ORDER
    ensures forall i :: 0 <= i < 19 ==> RANK[i] < 19 && BL_ORDER[RANK[i]] == i
    ensures forall r :: 0 <= r < 19 ==> BL_ORDER[r] < 19 && RANK[BL_ORDER[r]] == r
    ensures forall i :: 0 <= i < 16 ==> RANK[i] >= 3
  {
  }

  /** The lengths of the code length code that the first `n` sent lengths determine. */
  function Placed(cl: Lengths, n: nat): (r: Lengths)
    requires n <= 19 == |cl|
    ensures |r| == 19
  {
    if n == 0 then Repeat(0, 19)
    else Placed(cl, n - 1)[CL_ORDER[n - 1] := cl[CL_ORDER[n - 1]]]
  }

  lemma {:induction false} PlacedAt(cl: Lengths, n: nat, i: nat)
    requires n <= 19 == |cl| && i < 19 && |RANK| == 19
    ensures Placed(cl, n)[i] == if RANK[i] < n then cl[i] else 0
  {
    if n > 0 {
      PlacedAt(cl, n - 1, i);
      Ranks();
    }
  }

  /** Nothing is lost by not sending the last `19 - n` lengths when they are zero. */
  lemma PlacedAll(cl: Lengths, n: nat)
    requires n <= 19 == |cl| == |BL_ORDER| && forall r :: n <= r < 19 ==> BL_ORDER[r] < 19 && cl[BL_ORDER[r]] == 0
    ensures Placed(cl, n) == cl
  {
    Ranks();
    forall i | 0 <= i < 19 ensures Placed(cl, n)[i] == cl[i] {
      PlacedAt(cl, n, i);
      assert RANK[i] >= n ==> cl[BL_ORDER[RANK[i]]] == 0;
    }
  }

  // ---------- the bits of the header ----------

  function ClBits(cl: Lengths, n: nat): (r: BitString)
    requires n <= 19 == |cl|
    ensures |r| == 3 * n
  {
    if n == 0 then [] else ClBits(cl, n - 1) + LsbBits(cl[CL_ORDER[n - 1]], 3)
  }

  lemma {:induction false} ReadClBack(b: BitString, pos: nat, cl: Lengths, n: nat)
    requires n <= 19 == |cl| && Bounded(cl, 7) && HasAt(b, pos, ClBits(cl, n))
    ensures ReadClLengths(b, pos, n) == Got(Placed(cl, n), pos + 3 * n)
  {
    hide HasAt, LsbBits, ReadBits, Pow2, CL_ORDER;
    if n > 0 {
      Ranks();
      HasAtSplit(b, pos, ClBits(cl, n - 1), LsbBits(cl[CL_ORDER[n - 1]], 3));
      ReadClBack(b, pos, cl, n - 1);
      Pow2Values();
      ReadArg(b, pos + 3 * (n - 1), cl[CL_ORDER[n - 1]], 3);
    }
  }

  function CountsBits(lcodes: nat, dcodes: nat, blcodes: nat): (r: BitString)
    requires lcodes >= 257 && dcodes >= 1 && blcodes >= 4
    ensures |r| == 14
  {
    LsbBits(lcodes - 257, 5) + (LsbBits(dcodes - 1, 5) + LsbBits(blcodes - 4, 4))
  }

  /** Everything between the block type and the data of a dynamic block. */
  function HeaderBits(ll: Lengths, dl: Lengths, cl: Lengths, blcodes: nat): BitString
    requires |ll| >= 257 && |dl| >= 1 && 4 <= blcodes <= 19 == |cl|
    requires Sendable(cl, Packed(ll)) && Sendable(cl, Packed(dl))
  {
    CountsBits(|ll|, |dl|, blcodes) + (ClBits(cl, blcodes) + (SymsBits(cl, Packed(ll)) + SymsBits(cl, Packed(dl))))
  }

  lemma SendableJoin(cl: Lengths, a: seq<ClSym>, b: seq<ClSym>)
    requires Sendable(cl, a) && Sendable(cl, b)
    ensures Sendable(cl, a + b) && SymsBits(cl, a + b) == SymsBits(cl, a) + SymsBits(cl, b)
  {
    SymsBitsConcat(cl, a, b);
  }

  lemma ReadCountsBack(b: BitString, pos: nat, lcodes: nat, dcodes: nat, blcodes: nat)
    requires 257 <= lcodes <= 286 && 1 <= dcodes <= 30 && 4 <= blcodes <= 19
    requires HasAt(b, pos, CountsBits(lcodes, dcodes, blcodes))
    ensures pos + 14 <= |b| && LsbValue(b[pos..pos + 5]) == lcodes - 257
    ensures LsbValue(b[pos + 5..pos + 10]) == dcodes - 1 && LsbValue(b[pos + 10..pos + 14]) == blcodes - 4
  {
    hide LsbBits, LsbValue, Pow2;
    Pow2Values();
    HasAtSplit(b, pos, LsbBits(lcodes - 257, 5), LsbBits(dcodes - 1, 5) + LsbBits(blcodes - 4, 4));
    HasAtSplit(b, pos + 5, LsbBits(dcodes - 1, 5), LsbBits(blcodes - 4, 4));
    LsbValueBits(lcodes - 257, 5);
    LsbValueBits(dcodes - 1, 5);
    LsbValueBits(blcodes - 4, 4);
  }

  /** The decoder reads both codes back from the header. */
  lemma ReadCodesBack(b: BitString, pos: nat, ll: Lengths, dl: Lengths, cl: Lengths, blcodes: nat)
    requires 257 <= |ll| <= 286 && 1 <= |dl| <= 30 && 4 <= blcodes <= 19 == |cl|
    requires Bounded(ll, 15) && Bounded(dl, 15) && Bounded(cl, 7) && Kraft(cl, 7) <= Pow2(7)
    requires Sendable(cl, Packed(ll)) && Sendable(cl, Packed(dl)) && Placed(cl, blcodes) == cl
    requires HasAt(b, pos, HeaderBits(ll, dl, cl, blcodes))
    ensures ReadCodes(b, pos) == Got(Codes(ll, dl), pos + |HeaderBits(ll, dl, cl, blcodes)|)
  {
    hide Kraft, Pow2, Sendable, SymsBits, ReadLengths, ReadClLengths, CountsBits, ClBits, Placed, HasAt, UnpackAll, Bounded, LsbValue;
    var lens := SymsBits(cl, Packed(ll)) + SymsBits(cl, Packed(dl));
    HasAtSplit(b, pos, CountsBits(|ll|, |dl|, blcodes), ClBits(cl, blcodes) + lens);
    HasAtSplit(b, pos + 14, ClBits(cl, blcodes), lens);
    ReadCountsBack(b, pos, |ll|, |dl|, blcodes);
    ReadClBack(b, pos + 14, cl, blcodes);
    SendableJoin(cl, Packed(ll), Packed(dl));
    PackedUnpacks([], ll);
    PackedUnpacks(ll, dl);
    UnpackConcat([], Packed(ll), Packed(dl));
    assert [] + ll == ll;
    ReadSyms(b, pos + 14 + 3 * blcodes, cl, Packed(ll) + Packed(dl), [], ll + dl);
    assert (ll + dl)[..|ll|] == ll && (ll + dl)[|ll|..] == dl;
  }

  // ---------- trailing symbols without a code do not matter ----------

  lemma {:induction false} FirstCodeCut(lens: Lengths, k: nat, m: nat, l: nat)
    requires k <= |lens| && Bounded(lens, m) && forall i :: k <= i < |lens| ==> lens[i] == 0
    ensures FirstCode(lens[..k], l) == FirstCode(lens, l)
  {
    if l > 0 {
      FirstCodeCut(lens, k, m, l - 1);
      if l > 1 {
        CutZeros(lens, k, m, l - 1);
      }
    }
  }

  lemma CodeCut(lens: Lengths, k: nat, m: nat, n: nat)
    requires n < k <= |lens| && Bounded(lens, m) && forall i :: k <= i < |lens| ==> lens[i] == 0
    ensures CodeBits(lens[..k], n) == CodeBits(lens, n)
  {
    FirstCodeCut(lens, k, m, lens[n]);
    assert lens[..k][..n] == lens[..n];
  }

  /** A table of codes for the symbols up to the last one that occurs serves for all symbols. */
  lemma ExtendTable(t: seq<CtData>, maxCode: nat, elems: nat, m: nat)
    requires maxCode < elems <= |t| && CodeTable(t, maxCode, m)
    requires Bounded(Lens(t, elems), m) && forall i :: maxCode < i < elems ==> t[i].dl == 0
    ensures HoldsCodes(t, Lens(t, elems)) && Kraft(Lens(t, elems), m) == Pow2(m)
  {
    hide Kraft, CodeBits, Pow2;
    var lens, cut := Lens(t, elems), Lens(t, maxCode + 1);
    assert cut == lens[..maxCode + 1];
    CutZeros(lens, maxCode + 1, m, 1);
    forall i | 0 <= i < elems && lens[i] > 0 ensures HoldsCode(t, lens, i) {
      CodeCut(lens, maxCode + 1, m, i);
      assert HoldsCode(t, cut, i);
    }
  }

  // ---------- the methods ----------

  /** The search for the last bit length code to send, at the end of build_bl_tree. */
  method LastBlIndex(blTree: array<CtData>, ghost cl: Lengths, ghost plain: nat) returns (maxBlindex: nat)
    requires BL_CODES <= blTree.Length && cl == Lens(blTree[..], BL_CODES)
    requires 1 <= plain <= 15 && cl[plain] > 0
    ensures 3 <= maxBlindex <= 18 && Placed(cl, maxBlindex + 1) == cl
  {
    hide Placed, BL_ORDER, RANK;
    Ranks();
    maxBlindex := BL_CODES - 1;
    while maxBlindex >= 3
      invariant RANK[plain] <= maxBlindex <= 18
      invariant forall r :: maxBlindex < r < 19 ==> cl[BL_ORDER[r]] == 0
    {
      if blTree[BL_ORDER[maxBlindex]].dl != 0 {
        break;
      }
      assert BL_ORDER[RANK[plain]] == plain;
      maxBlindex := maxBlindex - 1;
    }
    PlacedAll(cl, maxBlindex + 1);
  }

  method SendAllTrees(w: Writer, lcodes: nat, dcodes: nat, blcodes: nat, lTree: array<CtData>, dTree: array<CtData>,
                      blTree: array<CtData>, ghost cl: Lengths)
    requires w.Valid() && 257 <= lcodes <= 286 && 1 <= dcodes <= 30 && 4 <= blcodes <= 19 == |cl| <= blTree.Length
    requires lcodes < lTree.Length && lTree[lcodes].dl == GUARD && Bounded(Lens(lTree[..], lcodes), 15)
    requires dcodes < dTree.Length && dTree[dcodes].dl == GUARD && Bounded(Lens(dTree[..], dcodes), 15)
    requires cl == Lens(blTree[..], BL_CODES) && HoldsCodes(blTree[..], cl) && Bounded(cl, 7)
    requires Sendable(cl, Packed(Lens(lTree[..], lcodes))) && Sendable(cl, Packed(Lens(dTree[..], dcodes)))
    modifies w, w.outbuf
    ensures w.Valid()
    ensures w.Sent() == old(w.Sent()) + HeaderBits(Lens(lTree[..], lcodes), Lens(dTree[..], dcodes), cl, blcodes)
    ensures lTree[..] == old(lTree[..]) && dTree[..] == old(dTree[..]) && blTree[..] == old(blTree[..])
  {
    hide Sendable, SymsBits, HoldsCodes, LsbBits, BL_ORDER, CL_ORDER, Pow2, Writer.Valid, Writer.Sent;
    Pow2Values();
    Ranks();
    ghost var s, ll, dl := w.Sent(), Lens(lTree[..], lcodes), Lens(dTree[..], dcodes);
    w.SendBits(lcodes - 257, 5);
    w.SendBits(dcodes - 1, 5);
    w.SendBits(blcodes - 4, 4);
    ghost var s1 := w.Sent();
    assert s1 == s + CountsBits(lcodes, dcodes, blcodes);
    SendClLengths(w, blcodes, blTree, cl);
    SendTree(w, lTree, lcodes - 1, blTree, cl);
    SendTree(w, dTree, dcodes - 1, blTree, cl);
    HeaderJoin(s, CountsBits(lcodes, dcodes, blcodes), ClBits(cl, blcodes), SymsBits(cl, Packed(ll)), SymsBits(cl, Packed(dl)));
  }

  lemma HeaderJoin(s: BitString, a: BitString, b: BitString, c: BitString, d: BitString)
    ensures s + a + b + c + d == s + (a + (b + (c + d)))
  {
  }

  method SendClLengths(w: Writer, blcodes: nat, blTree: array<CtData>, ghost cl: Lengths)
    requires w.Valid() && blcodes <= 19 == |cl| <= blTree.Length
    requires cl == Lens(blTree[..], BL_CODES) && Bounded(cl, 7)
    modifies w, w.outbuf
    ensures w.Valid() && w.Sent() == old(w.Sent()) + ClBits(cl, blcodes)
    ensures blTree[..] == old(blTree[..])
  {
    hide LsbBits, BL_ORDER, CL_ORDER, Pow2, Writer.Valid, Writer.Sent;
    Ranks();
    Pow2Values();
    ghost var s := w.Sent();
    var rank := 0;
    assert ClBits(cl, 0) == [];
    while rank < blcodes
      invariant 0 <= rank <= blcodes && w.Valid() && blTree[..] == old(blTree[..])
      invariant w.Sent() == s + ClBits(cl, rank)
    {
      w.SendBits(blTree[BL_ORDER[rank]].dl, 3);
      rank := rank + 1;
    }
  }
}
