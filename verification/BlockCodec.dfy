/** The bits of stored, static and dynamic blocks, and the proof that the reference decoder reads them back. */
module BlockCodec {
  import opened Arith
  import opened Bits
  import opened Canonical
  import opened Inflate
  import opened MatchCodes
  import opened Tokens
  import opened TokenCosts
  import opened CodeTables
  import opened HuffmanCost
  import opened HuffmanTree
  import opened TreeSums
  import opened BitLengths
  import opened CodeSpace
  import opened TreeBuilder
  import opened RunLengths
  import opened BitWriter
  import opened TreeSender
  import opened DynamicHeader
  import opened FixedCodes

  // ---------- facts about built trees ----------

  lemma BuiltFacts(t: seq<CtData>, maxCode: nat, freq0: seq<nat>, freq: seq<nat>, desc: TreeDesc)
    requires ValidDesc(desc) && Built(t, maxCode, freq0, freq, desc)
    ensures desc.elems <= |t| && maxCode < desc.elems == |freq0|
    ensures forall i :: 0 <= i < desc.elems && freq0[i] > 0 ==> i <= maxCode && t[i].dl > 0
    ensures forall i :: maxCode < i < desc.elems ==> t[i].dl == 0
    ensures Bounded(Lens(t, maxCode + 1), desc.maxLength) && Kraft(Lens(t, maxCode + 1), desc.maxLength) == Pow2(desc.maxLength)
    ensures HoldsCodes(t, Lens(t, maxCode + 1))
    ensures Bounded(Lens(t, desc.elems), desc.maxLength)
    ensures desc.maxLength == MAX_BITS ==> GoodCode(Lens(t, maxCode + 1))
    ensures SameLengths(Lens(t, maxCode + 1), Lens(t, desc.elems), desc.elems)
  {
    hide Kraft, HoldsCodes, Greedy, LiveWeights, WeightedLength;
  }

  /** The exact cost that build_tree adds, in terms of all symbols. */
  lemma BuiltCost(t: seq<CtData>, maxCode: nat, freq0: seq<nat>, freq: seq<nat>, desc: TreeDesc, fixed: seq<CtData>)
    requires ValidDesc(desc) && Built(t, maxCode, freq0, freq, desc)
    ensures desc.elems <= |t| && |freq0| == desc.elems
    ensures Costs(freq0, Lens(t, desc.elems), desc) == Prices(freq0, Lens(t, desc.elems), desc)
    ensures |fixed| >= desc.elems ==>
              FixedTotal(freq0, Lens(t, desc.elems), fixed, true, desc) == Sum(Prices(freq0, Dads(fixed), desc))
  {
    hide Built, Prices, FixedCosts, Sum;
    BuiltFacts(t, maxCode, freq0, freq, desc);
    var lens := Lens(t, desc.elems);
    PricesAreCosts(freq0, lens, lens, desc);
    if |fixed| >= desc.elems {
      PricesAreCosts(freq0, lens, Dads(fixed), desc);
    }
  }

  lemma HoldsSymbolFreqs(t: seq<CtData>, freq: seq<nat>)
    requires HoldsFreqs(t, freq)
    ensures SymbolFreqs(t, |freq|) == freq
  {
  }

  // ---------- sizes ----------

  lemma EmitShort(prev: int, cur: nat, count: nat)
    requires 1 <= count <= MaxCount(prev, cur)
    ensures |Emit(prev, cur, count)| <= count
  {
  }

  lemma {:induction false} RunsShort(lens: Lengths, n: nat, prev: int, count: nat)
    requires n <= |lens| && (n < |lens| ==> count < MaxCount(prev, lens[n]))
    ensures |Runs(lens, n, prev, count)| <= |lens| - n + count
    decreases |lens| - n
  {
    hide Emit;
    if n == |lens| {
    } else if count + 1 < MaxCount(prev, lens[n]) && lens[n] == Next(lens, n + 1) {
      RunsShort(lens, n + 1, prev, count + 1);
    } else {
      EmitShort(prev, lens[n], count + 1);
      RunsShort(lens, n + 1, lens[n], 0);
    }
  }

  lemma PackedShort(lens: Lengths)
    ensures |Packed(lens)| <= |lens|
  {
    RunsShort(lens, 0, -1, 0);
  }

  // ---------- the prepared dynamic trees ----------

  /** Codes for a block: literal/length, distance, and the code for their lengths. */
  datatype Trees = Trees(ll: Lengths, dl: Lengths, cl: Lengths, blcodes: nat)

  /** The trees can encode the block, and encode it in exactly the predicted number of bits. */
  ghost predicate Encodes(tr: Trees, tb: Tables, toks: seq<Token>)
    requires ValidTables(tb)
  {
    && 257 <= |tr.ll| <= 286 && 1 <= |tr.dl| <= 30 && 4 <= tr.blcodes <= 19 == |tr.cl|
    && GoodCode(tr.ll) && GoodCode(tr.dl) && tr.ll[END_BLOCK] > 0
    && AllCodable(tb, tr.ll, tr.dl, toks)
    && Bounded(tr.cl, 7) && Kraft(tr.cl, 7) <= Pow2(7)
    && Sendable(tr.cl, Packed(tr.ll)) && Sendable(tr.cl, Packed(tr.dl))
    && Placed(tr.cl, tr.blcodes) == tr.cl
  }

  /** The bits of a dynamic block after its type. */
  ghost function DynamicBits(tr: Trees, tb: Tables, toks: seq<Token>): BitString
    requires ValidTables(tb) && Encodes(tr, tb, toks)
  {
    HeaderBits(tr.ll, tr.dl, tr.cl, tr.blcodes) + (DataBits(tb, tr.ll, tr.dl, toks) + CodeBits(tr.ll, END_BLOCK))
  }

  ghost function StaticBits(tb: Tables, toks: seq<Token>): BitString
    requires ValidTables(tb) && AllCodable(tb, FixedLit(), Repeat(5, 30), toks)
  {
    DataBits(tb, FixedLit(), Repeat(5, 30), toks) + CodeBits(FixedLit(), END_BLOCK)
  }

  /** Frequencies that are zero for every token's symbols cannot be: all tokens have codes. */
  lemma CodesForAll(tb: Tables, toks: seq<Token>, ll: Lengths, dl: Lengths)
    requires ValidTables(tb) && AllProper(toks)
    requires forall i :: 0 <= i < 286 && LitFreq(tb, toks)[i] > 0 ==> i < |ll| && ll[i] > 0
    requires forall i :: 0 <= i < D_CODES && DistFreq(tb, toks)[i] > 0 ==> i < |dl| && dl[i] > 0
    ensures AllCodable(tb, ll, dl, toks)
    ensures |ll| > END_BLOCK && ll[END_BLOCK] > 0
  {
    hide ValidTables, LitSym, DistSym, LitFreq, DistFreq;
    FreqFacts(tb, toks);
    forall i | 0 <= i < |toks| ensures Codable(tb, ll, dl, toks[i]) {
      assert Occurs(tb, toks, toks[i]);
    }
  }

  lemma FixedCodesForAll(tb: Tables, toks: seq<Token>)
    requires ValidTables(tb) && AllProper(toks)
    ensures AllCodable(tb, FixedLit(), Repeat(5, 30), toks)
  {
    hide ValidTables, LitSym, DistSym, LitFreq, DistFreq;
    CodesForAll(tb, toks, FixedLit(), Repeat(5, 30));
  }

  // ---------- decoding a whole block ----------

  lemma ReadKind(b: BitString, pos: nat, kind: nat, eof: bool)
    requires kind < 4 && HasAt(b, pos, LsbBits(2 * kind + (if eof then 1 else 0), 3))
    ensures pos + 3 <= |b| && b[pos] == eof && LsbValue(b[pos + 1..pos + 3]) == kind
  {
    var v := 2 * kind + (if eof then 1 else 0);
    var e := LsbBits(v, 3);
    assert e == [v % 2 == 1] + LsbBits(v / 2, 2);
    assert b[pos] == b[pos..pos + 3][0];
    assert b[pos + 1..pos + 3] == b[pos..pos + 3][1..] == LsbBits(kind, 2);
    Pow2Values();
    LsbValueBits(kind, 2);
  }

  lemma ReadStaticBack(tb: Tables, toks: seq<Token>, b: BitString, pos: nat, eof: bool, out: seq<Byte>, final: seq<Byte>)
    requires ValidTables(tb) && AllCodable(tb, FixedLit(), Repeat(5, 30), toks)
    requires HasAt(b, pos, LsbBits(2 + (if eof then 1 else 0), 3) + StaticBits(tb, toks))
    requires Expand(out, toks) == Some(final)
    ensures ReadBlock(b, pos, out) == Got(Block(eof, final), pos + 3 + |StaticBits(tb, toks)|)
  {
    hide ValidTables, HasAt, AllCodable, DataBits, CodeBits, GoodCode, LsbBits, LsbValue, ReadData, ReadCodes, ReadStored, FixedLit, FixedDist;
    HasAtSplit(b, pos, LsbBits(2 + (if eof then 1 else 0), 3), StaticBits(tb, toks));
    ReadKind(b, pos, 1, eof);
    SameData(tb, FixedLit(), toks);
    FixedLitGood();
    FixedDistGood(32);
    FixedEnd();
    ReadDataBack(tb, FixedLit(), FixedDist(), toks, b, pos + 3, out, final);
  }

  lemma FixedEnd()
    ensures FixedLit()[END_BLOCK] == 7 && FixedDist() == Repeat(5, 32)
  {
  }

  lemma ReadDynamicBack(tr: Trees, tb: Tables, toks: seq<Token>, b: BitString, pos: nat, eof: bool, out: seq<Byte>, final: seq<Byte>)
    requires ValidTables(tb) && Encodes(tr, tb, toks)
    requires HasAt(b, pos, LsbBits(4 + (if eof then 1 else 0), 3) + DynamicBits(tr, tb, toks))
    requires Expand(out, toks) == Some(final)
    ensures ReadBlock(b, pos, out) == Got(Block(eof, final), pos + 3 + |DynamicBits(tr, tb, toks)|)
  {
    hide ValidTables, HasAt, AllCodable, DataBits, CodeBits, LsbBits, LsbValue, ReadData, ReadCodes, ReadStored,
         HeaderBits, Sendable, Kraft, Pow2, Placed;
    var h := HeaderBits(tr.ll, tr.dl, tr.cl, tr.blcodes);
    var d := DataBits(tb, tr.ll, tr.dl, toks) + CodeBits(tr.ll, END_BLOCK);
    HasAtSplit(b, pos, LsbBits(4 + (if eof then 1 else 0), 3), DynamicBits(tr, tb, toks));
    ReadKind(b, pos, 2, eof);
    HasAtSplit(b, pos + 3, h, d);
    ReadCodesBack(b, pos + 3, tr.ll, tr.dl, tr.cl, tr.blcodes);
    ReadDataBack(tb, tr.ll, tr.dl, toks, b, pos + 3 + |h|, out, final);
  }

  lemma {:induction false} ReadBytesBack(b: BitString, pos: nat, raw: seq<Byte>, out: seq<Byte>)
    requires HasAt(b, pos, BytesBits(raw))
    ensures ReadBytes(b, pos, |raw|, out) == Got(out + raw, pos + 8 * |raw|)
    decreases |raw|
  {
    hide HasAt, LsbBits, BytesBits, Pow2;
    if raw == [] {
      assert out + raw == out;
    } else {
      assert raw == [raw[0]] + raw[1..];
      BytesBitsConcat([raw[0]], raw[1..]);
      BytesBitsOne(raw[0]);
      HasAtSplit(b, pos, LsbBits(raw[0], 8), BytesBits(raw[1..]));
      Pow2Of8();
      ReadArg(b, pos, raw[0], 8);
      ReadBytesBack(b, pos + 8, raw[1..], out + [raw[0]]);
      assert out + [raw[0]] + raw[1..] == out + raw;
    }
  }

  /** What copy_block sends with a header. */
  ghost function StoredBits(pos: nat, raw: seq<Byte>): BitString
    requires |raw| < 65536
  {
    Padding(pos) + (LsbBits(|raw|, 16) + (LsbBits(65535 - |raw|, 16) + BytesBits(raw)))
  }

  lemma ReadStoredBack(b: BitString, pos: nat, eof: bool, raw: seq<Byte>, out: seq<Byte>)
    requires |raw| < 65536
    requires HasAt(b, pos, LsbBits(if eof then 1 else 0, 3) + StoredBits(pos + 3, raw))
    ensures ReadBlock(b, pos, out) == Got(Block(eof, out + raw), pos + 3 + |StoredBits(pos + 3, raw)|)
  {
    hide HasAt, LsbBits, BytesBits, LsbValue, ReadBytes, ReadData, ReadCodes, Pow2;
    var p, len, nlen := Padding(pos + 3), LsbBits(|raw|, 16), LsbBits(65535 - |raw|, 16);
    HasAtSplit(b, pos, LsbBits(if eof then 1 else 0, 3), StoredBits(pos + 3, raw));
    ReadKind(b, pos, 0, eof);
    HasAtSplit(b, pos + 3, p, len + (nlen + BytesBits(raw)));
    var q := pos + 3 + |p|;
    assert |p| == (8 - (pos + 3) % 8) % 8;
    HasAtSplit(b, q, len, nlen + BytesBits(raw));
    HasAtSplit(b, q + 16, nlen, BytesBits(raw));
    Pow2Of16();
    ReadArg(b, q, |raw|, 16);
    ReadArg(b, q + 16, 65535 - |raw|, 16);
    ReadBytesBack(b, q + 32, raw, out);
  }
}
