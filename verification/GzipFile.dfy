/** zip: the gzip file around the deflated data. */
module GzipFile {
  import opened Arith
  import opened Bits
  import opened Canonical
  import opened Inflate
  import opened Tokens
  import opened TokenBuffer
  import opened BlockData
  import opened BitWriter
  import opened BlockWriter
  import opened HashChains
  import opened FileReader
  import opened SlidingWindow
  import opened LazyChoice
  import opened LazyMatching

  /** The ten bytes before the data: section 2.3 of RFC 1952, with no name, no time and the system Unix. */
  const HEADER: seq<Byte> := [0x1f, 0x8b, 8, 0, 0, 0, 0, 0, 0, 3]

  lemma HeaderBytes()
    ensures WordBytes(0x00088b1f) + WordBytes(0) + [0x300 % 256, 0x300 / 256 % 256] == HEADER && |HEADER| == 10
  {
  }

  /** The blocks from bit 80 on decode to `input` and end within byte `n - 1`. */
  ghost predicate Inflates(file: seq<Byte>, n: nat, input: seq<Byte>)
  {
    exists end: nat :: 8 * n - 8 < end <= 8 * n && ReadBlocks(BytesBits(file), 80, []) == Got(input, end)
  }

  /** Bytes of a gzip file: header, deflated data, checksum and length of the input. */
  ghost predicate GzipOf(file: seq<Byte>, input: seq<Byte>, step: (nat, Byte) -> nat)
  {
    var n := |file| - 8;
    && n >= 10 && file[..10] == HEADER && Inflates(file, n, input)
    && file[n..] == WordBytes(ALL_ONES - Checksum(step, ALL_ONES, input)) + WordBytes(|input| % 0x1_0000_0000)
  }

  lemma DecodesFile(head: seq<Byte>, file: seq<Byte>, s: BitString, input: seq<Byte>)
    requires |head| == 10 && DecodesAll(s, BytesBits(head), input) && s <= BytesBits(file)
    ensures ReadBlocks(BytesBits(file), 80, []) == Got(input, |s|) && BytesBits(head) <= s
  {
    hide ReadBlocks, BytesBits;
  }

  lemma PrefixJoin(s: BitString, p: BitString, t: BitString)
    ensures s <= s + p + t
  {
  }

  lemma CutFile(body: seq<Byte>, tail: seq<Byte>)
    requires |body| >= 10
    ensures (body + tail)[..10] == body[..10] && (body + tail)[|body|..] == tail
  {
  }

  lemma FileIsGzip(head: seq<Byte>, body: seq<Byte>, tail: seq<Byte>, s: BitString, input: seq<Byte>, step: (nat, Byte) -> nat)
    requires head == HEADER && |head| == 10 && DecodesAll(s, BytesBits(head), input) && BytesBits(body) == s + Padding(|s|)
    requires tail == WordBytes(ALL_ONES - Checksum(step, ALL_ONES, input)) + WordBytes(|input| % 0x1_0000_0000)
    requires |tail| == 8
    ensures GzipOf(body + tail, input, step)
  {
    hide ReadBlocks, WordBytes, Checksum, BytesBits, Padding, HEADER, DecodesAll;
    var file := body + tail;
    BytesBitsConcat(body, tail);
    PrefixJoin(s, Padding(|s|), BytesBits(tail));
    DecodesFile(head, file, s, input);
    HeadPrefix(head, body);
    CutFile(body, tail);
    assert Inflates(file, |body|, input);
  }

  lemma HeadPrefix(head: seq<Byte>, body: seq<Byte>)
    requires BytesBits(head) <= BytesBits(body)
    ensures |head| <= |body| && body[..|head|] == head
  {
    hide BytesBits, LsbBits, LsbValue, HasAt;
    forall i | 0 <= i < |head| ensures body[i] == head[i] {
      SameByte(head, body, i);
    }
  }

  lemma SameByte(head: seq<Byte>, body: seq<Byte>, i: nat)
    requires BytesBits(head) <= BytesBits(body) && i < |head| <= |body|
    ensures body[i] == head[i]
  {
    hide BytesBits, LsbBits, LsbValue, Pow2;
    BytesBitsAt(head, i);
    BytesBitsAt(body, i);
    Pow2Of8();
    LsbValueBits(head[i], 8);
    LsbValueBits(body[i], 8);
    assert BytesBits(body)[8 * i..8 * i + 8] == BytesBits(head)[8 * i..8 * i + 8];
  }

  /** Allocate and write the first part of the header. */
  method StartBlocks() returns (bs: BlockState)
    ensures bs.Valid() && bs.buf.toks == [] && bs.w.Valid() && bs.w.biValid == 0
    ensures bs.w.Bytes() == WordBytes(0x00088b1f) + WordBytes(0)
    ensures fresh(bs) && fresh(bs.w) && fresh(bs.w.outbuf) && fresh(bs.buf) && fresh(bs.buf.lBuf) && fresh(bs.buf.dBuf)
    ensures fresh(bs.buf.flagBuf) && fresh(bs.ltree) && fresh(bs.dtree) && fresh(bs.blTree)
    ensures fresh(bs.heap) && fresh(bs.depth) && fresh(bs.blCount)
  {
    hide *;
    var w := new Writer();
    var buf := new Buffer();
    var mt := new MatchTables();
    bs := new BlockState(w, buf, mt);
    NothingSent(w);
    w.Put32(0x00088b1f);
    w.Put32(0);
    bs.CtInit();
  }

  lemma NothingSent(w: Writer)
    requires w.Valid() && w.Sent() == []
    ensures w.Bytes() == []
  {
    hide BytesBits;
  }

  /** lm_init on a new window, and the last two bytes of the header. */
  method StartWindow(reader: Reader, bs: BlockState) returns (z: Window)
    requires reader.Valid() && reader.delivered == [] && bs.Valid() && bs.buf.toks == [] && bs.w.Valid() && bs.w.biValid == 0
    requires bs.w.Bytes() == WordBytes(0x00088b1f) + WordBytes(0)
    modifies reader, bs.w`outcnt, bs.w`written, bs.w.outbuf
    ensures fresh(z) && fresh(z.window) && fresh(z.prev) && fresh(z.head) && z.reader == reader
    ensures z.Valid() && bs.Valid() && Separate(z, bs) && Ended(z) && (z.eofile || z.lookahead >= MIN_LOOKAHEAD)
    ensures (z.lookahead > 0 ==> z.Indexed(z.strstart)) && Recorded(z, bs, BytesBits(HEADER), [], false)
    ensures z.base + z.strstart == 0 && bs.buf.toks == []
    ensures reader.delivered + reader.rest == old(reader.rest)
  {
    hide BlockState.Valid, Writer.Sent, Writer.Bytes, BytesBits, Window.Indexed, Expand, HEADER, WordBytes, DecodesTo;
    z := new Window(reader);
    z.LmInit();
    bs.PutFlags(0x300);
    HeaderBytes();
    AllBytes(bs.w);
    ExpandNothing([]);
    DecodesSelf(BytesBits(HEADER));
  }

  lemma AllBytes(w: Writer)
    requires w.Valid() && w.biValid == 0
    ensures w.Sent() == BytesBits(w.Bytes())
  {
    hide BytesBits;
    w.ByteAligned();
  }

  lemma DecodesSelf(s: BitString)
    ensures DecodesTo(s, s, [])
  {
    hide ReadBlocks;
  }

  /** Compress everything the reader delivers; the result is the file written. */
  method Zip(reader: Reader) returns (file: seq<Byte>, ghost toks: seq<Token>)
    requires reader.Valid() && reader.delivered == []
    modifies reader
    ensures GzipOf(file, reader.delivered, reader.step)
    ensures reader.delivered + reader.rest == old(reader.rest)
    ensures reader.rest == [] || reader.failed
    ensures LazyTokens(reader.delivered, toks) && |file| <= 4 * |toks| + 24
  {
    hide LazyTokens, BlockState.Valid, Writer.Sent, Writer.Bytes, BytesBits, Window.Indexed, Recorded, HEADER, WordBytes, DecodesAll, Padding, GzipOf, Separate, Checksum;
    var bs := StartBlocks();
    var z := StartWindow(reader, bs);
    ghost var s;
    s, toks := Deflate(z, bs, BytesBits(HEADER));
    ghost var body := bs.w.Bytes();
    AllBytes(bs.w);
    WriteTrailer(bs.w, reader);
    file := bs.w.written;
    HeaderBytes();
    FileIsGzip(HEADER, body, file[|body|..], s, reader.delivered, reader.step);
  }

  /** The checksum, the length of the input, and whatever is still buffered. */
  method WriteTrailer(w: Writer, reader: Reader)
    requires w.Valid() && reader.Valid()
    modifies w`outcnt, w`written, w.outbuf
    ensures w.written == old(w.Bytes()) + (WordBytes(ALL_ONES - Checksum(reader.step, ALL_ONES, reader.delivered))
                                            + WordBytes(|reader.delivered| % 0x1_0000_0000))
  {
    hide Checksum, WordBytes, BytesBits, Writer.Sent, Writer.Bytes, Writer.Valid, Pow2;
    ghost var before := w.Bytes();
    w.Put32(ALL_ONES - reader.crc);
    w.Put32(reader.isize);
    FlushAll(w);
    assert w.written == before + WordBytes(ALL_ONES - reader.crc) + WordBytes(reader.isize);
  }

  method FlushAll(w: Writer)
    requires w.Valid()
    modifies w`outcnt, w`written
    ensures w.written == old(w.Bytes())
  {
    w.FlushOutbuf();
  }
}
