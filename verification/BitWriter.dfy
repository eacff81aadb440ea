/**
 The bit writer of gzip: a 32-bit accumulator in front of a fixed output
 buffer that is written out whenever it is full.  Every operation is proved to
 append the requested bits, least significant first, to one growing bit string.
 */
module BitWriter {
  import opened Arith
  import opened Bits

  const OUTBUFSIZ: nat := 8192
  const BUF_SIZE: nat := 32

  /** Zero bits that fill up the last byte. */
  function Padding(n: nat): (r: BitString)
    ensures (n + |r|) % 8 == 0 && |r| < 8
  {
    seq((8 - n % 8) % 8, i => false)
  }

  class Writer {
    const outbuf: array<Byte>
    var outcnt: nat
    var biBuf: nat
    var biValid: nat
    var written: seq<Byte>

    ghost predicate Valid()
      reads this, outbuf
    {
      && outbuf.Length == OUTBUFSIZ
      && outcnt < OUTBUFSIZ
      && biValid < BUF_SIZE
      && biBuf < Pow2(biValid)
    }

    /** Bytes already handed to the output file plus those still buffered. */
    ghost function Bytes(): seq<Byte>
      requires Valid()
      reads this, outbuf
    {
      written + outbuf[..outcnt]
    }

    /** Everything sent so far, including the bits still in the accumulator. */
    ghost function Sent(): BitString
      requires Valid()
      reads this, outbuf
    {
      BytesBits(Bytes()) + LsbBits(biBuf, biValid)
    }

    constructor ()
      ensures Valid() && fresh(outbuf) && Sent() == [] && biValid == 0
    {
      outbuf := new Byte[OUTBUFSIZ];
      outcnt, biBuf, biValid, written := 0, 0, 0, [];
    }

    method FlushOutbuf()
      requires outbuf.Length == OUTBUFSIZ && outcnt <= OUTBUFSIZ
      modifies this`outcnt, this`written
      ensures outcnt == 0 && written == old(written) + old(outbuf[..outcnt])
    {
      if outcnt == 0 { return; }
      written := written + outbuf[..outcnt];
      outcnt := 0;
    }

    method Put8(c: nat)
      requires Valid()
      modifies this`outcnt, this`written, outbuf
      ensures Valid()
      ensures Bytes() == old(Bytes()) + [c % 256]
    {
      outbuf[outcnt] := c % 256;
      outcnt := outcnt + 1;
      if outcnt == OUTBUFSIZ {
        FlushOutbuf();
      }
    }

    method Put16(w: nat)
      requires Valid()
      modifies this`outcnt, this`written, outbuf
      ensures Valid()
      ensures Bytes() == old(Bytes()) + [w % 256, w / 256 % 256]
    {
      if outcnt < OUTBUFSIZ - 2 {
        outbuf[outcnt], outbuf[outcnt + 1] := w % 256, w / 256 % 256;
        outcnt := outcnt + 2;
        return;
      }
      outbuf[outcnt] := w % 256;
      outcnt := outcnt + 1;
      if outcnt == OUTBUFSIZ {
        FlushOutbuf();
      }
      Put8(w / 256);
    }

    method Put32(n: nat)
      requires Valid()
      modifies this`outcnt, this`written, outbuf
      ensures Valid()
      ensures Bytes() == old(Bytes()) + WordBytes(n)
      ensures BytesBits(Bytes()) == old(BytesBits(Bytes())) + LsbBits(n, 32)
    {
      ghost var before := Bytes();
      Put16(n % 65536);
      Put16(n / 65536);
      WordBits(n);
      assert Bytes() == before + WordBytes(n);
      BytesBitsConcat(before, WordBytes(n));
    }

    method SendBits(value: nat, length: nat)
      requires Valid()
      requires length <= 16 && value < Pow2(length)
      modifies this, outbuf
      ensures Valid()
      ensures Sent() == old(Sent()) + LsbBits(value, length)
    {
      hide LsbBits, BitOr, Pow2, BytesBits;
      var newBuf := BitOr(biBuf, Shl32(value, biValid));
      var total := length + biValid;
      if total >= BUF_SIZE {
        AccumulatorSpills(biBuf, biValid, value, length);
        Put32(newBuf);
        newBuf := Shr(value, BUF_SIZE - biValid);
        total := total - BUF_SIZE;
      } else {
        AccumulatorFits(biBuf, biValid, value, length);
      }
      biBuf := newBuf;
      biValid := total;
      assert Sent() == old(BytesBits(Bytes())) + (old(LsbBits(biBuf, biValid)) + LsbBits(value, length));
    }

    method BiWindup()
      requires Valid()
      modifies this, outbuf
      ensures Valid() && biValid == 0
      ensures Sent() == old(Sent()) + Padding(|old(Sent())|)
    {
      hide LsbBits, Pow2, BytesBits;
      var bits := biBuf;
      var cnt: int := biValid;
      while cnt > 0
        invariant Valid() && biBuf == old(biBuf) && biValid == old(biValid)
        invariant -8 < cnt <= biValid && 0 <= bits < Pow2(Pos(cnt))
        invariant BytesBits(Bytes()) + LsbBits(bits, Pos(cnt)) == old(Sent()) + LsbBits(0, Pos(-cnt))
      {
        ghost var before := Bytes();
        WindupByte(before, bits, cnt);
        LsbNone(cnt, old(Sent()));
        Put8(bits);
        bits := bits / 256;
        cnt := cnt - 8;
      }
      biBuf, biValid := 0, 0;
      LsbZero(Pos(-cnt));
      assert Sent() == old(Sent()) + LsbBits(0, Pos(-cnt));
      assert |Sent()| == 8 * |Bytes()|;
    }

    method CopyBlock(buf: seq<Byte>, len: nat, header: bool)
      requires Valid() && len == |buf| < 0x1_0000_0000
      modifies this, outbuf
      ensures Valid() && biValid == 0
      ensures Sent() == old(Sent()) + Padding(|old(Sent())|)
                      + (if header then LsbBits(len % 65536, 16) + LsbBits(65535 - len % 65536, 16) else [])
                      + BytesBits(buf)
    {
      hide LsbBits, Pow2, BytesBits, BitOr, Shl32, Padding;
      BiWindup();
      ghost var s := Sent();
      ByteAligned();
      if header {
        // ((uint16_t)len) | ((~len) << 16)
        var v := BitOr(len % 65536, Shl32(0xffff_ffff - len, 16));
        StoredHeader(len);
        Put32(v);
      }
      ghost var b := Bytes();
      PutBytes(buf, len);
      BytesBitsConcat(b, buf);
      ByteAligned();
    }

    /** With an empty accumulator only whole bytes have been sent. */
    lemma ByteAligned()
      requires Valid() && biValid == 0
      ensures Sent() == BytesBits(Bytes())
    {
    }

    method PutBytes(buf: seq<Byte>, len: nat)
      requires Valid() && len == |buf|
      modifies this`outcnt, this`written, outbuf
      ensures Valid() && Bytes() == old(Bytes()) + buf
    {
      var i := 0;
      while i < len
        invariant i <= len && Valid()
        invariant Bytes() == old(Bytes()) + buf[..i]
      {
        Put8(buf[i]);
        assert buf[..i + 1] == buf[..i] + [buf[i]];
        i := i + 1;
      }
      assert buf[..len] == buf;
    }
  }

  /** The four bytes of a 32-bit number, least significant first. */
  function WordBytes(n: nat): (r: seq<Byte>)
    ensures |r| == 4
  {
    [n % 65536 % 256, n % 65536 / 256 % 256] + [n / 65536 % 256, n / 65536 / 256 % 256]
  }

  lemma WordParts(n: nat)
    ensures WordBytes(n) == [n % 65536 % 256, n % 65536 / 256 % 256] + [n / 65536 % 256, n / 65536 / 256 % 256]
  {
  }

  lemma WordBits(n: nat)
    ensures BytesBits(WordBytes(n)) == LsbBits(n, 32)
  {
    hide *;
    WordParts(n);
    var lo, hi := n % 65536, n / 65536;
    HalfWord(lo);
    HalfWord(hi);
    BytesBitsConcat([lo % 256, lo / 256 % 256], [hi % 256, hi / 256 % 256]);
    Pow2Of16();
    LsbSplit(n, 16, 16);
    ShrIsDiv(n, 16);
    LsbMod(n, 16);
  }

  lemma HalfWord(w: nat)
    ensures BytesBits([w % 256, w / 256 % 256]) == LsbBits(w, 16)
  {
    hide *;
    var lo, hi: Byte := w % 256, w / 256 % 256;
    assert [lo, hi] == [lo] + [hi];
    BytesBitsConcat([lo], [hi]);
    BytesBitsOne(lo);
    BytesBitsOne(hi);
    Pow2Of8();
    LsbSplit(w, 8, 8);
    ShrIsDiv(w, 8);
    LsbMod(w, 8);
    LsbMod(w / 256, 8);
  }

  /** The accumulator after new bits are or-ed in, seen as 32 bits. */
  lemma AccumulatorValue(buf: nat, valid: nat, value: nat)
    requires valid < 32 && buf < Pow2(valid)
    ensures BitOr(buf, Shl32(value, valid)) == buf + value % Pow2(32 - valid) * Pow2(valid)
  {
    ShlTruncates(value, valid);
    BitOrDisjoint(buf, value % Pow2(32 - valid), valid);
  }

  lemma ShlTruncates(value: nat, valid: nat)
    requires valid < 32
    ensures Shl32(value, valid) == value % Pow2(32 - valid) * Pow2(valid)
  {
    Pow2Of32();
    Pow2Add(valid, 32 - valid);
    ModMul(value, Pow2(valid), Pow2(32 - valid));
  }

  /** The new bits fit: they follow the old ones. */
  lemma AccumulatorFits(buf: nat, valid: nat, value: nat, length: nat)
    requires valid + length < 32 && buf < Pow2(valid) && value < Pow2(length)
    ensures BitOr(buf, Shl32(value, valid)) < Pow2(valid + length)
    ensures LsbBits(BitOr(buf, Shl32(value, valid)), valid + length) == LsbBits(buf, valid) + LsbBits(value, length)
  {
    hide *;
    AccumulatorValue(buf, valid, value);
    Pow2Mono(length, 32 - valid);
    ModSmall(value, Pow2(32 - valid));
    LsbJoin(buf, valid, value, length);
    JoinBound(buf, valid, value, length);
  }

  /** The new bits do not fit: 32 bits go out and the rest of the value stays. */
  lemma AccumulatorSpills(buf: nat, valid: nat, value: nat, length: nat)
    requires valid < 32 <= valid + length && buf < Pow2(valid) && value < Pow2(length)
    ensures Shr(value, 32 - valid) < Pow2(valid + length - 32)
    ensures LsbBits(BitOr(buf, Shl32(value, valid)), 32) + LsbBits(Shr(value, 32 - valid), valid + length - 32)
         == LsbBits(buf, valid) + LsbBits(value, length)
  {
    hide *;
    var room := 32 - valid;
    var over := valid + length - 32;
    AccumulatorValue(buf, valid, value);
    LsbJoin(buf, valid, value % Pow2(room), room);
    LsbMod(value, room);
    LsbSplit(value, room, over);
    ShrLess(value, room, over);
  }

  lemma JoinBound(a: nat, k: nat, b: nat, n: nat)
    requires a < Pow2(k) && b < Pow2(n)
    ensures a + b * Pow2(k) < Pow2(k + n)
  {
    Pow2Add(k, n);
    MulLess(Pow2(k), b, Pow2(n));
  }

  function Pos(cnt: int): nat
  {
    if cnt < 0 then 0 else cnt
  }

  lemma WindupByte(before: seq<Byte>, bits: nat, cnt: nat)
    requires 0 < cnt && bits < Pow2(cnt)
    ensures bits / 256 < Pow2(Pos(cnt - 8))
    ensures BytesBits(before + [bits % 256]) + LsbBits(bits / 256, Pos(cnt - 8))
         == BytesBits(before) + LsbBits(bits, cnt) + LsbBits(0, Pos(8 - cnt))
  {
    hide LsbBits, Pow2, BytesBits, Shr;
    Pow2Of8();
    BytesBitsConcat(before, [bits % 256]);
    BytesBitsOne(bits % 256);
    LsbMod(bits, 8);
    ShrIsDiv(bits, 8);
    if cnt >= 8 {
      LsbSplit(bits, 8, cnt - 8);
      ShrLess(bits, 8, cnt - 8);
    } else {
      LsbSplit(bits, cnt, 8 - cnt);
      ShrZero(bits, cnt);
      Pow2Strict(cnt, 8);
      Pow2Zero();
    }
  }

  /** While bits are left nothing has been filled up. */
  lemma LsbNone(cnt: int, s: BitString)
    requires cnt > 0
    ensures Pos(cnt) == cnt && Pos(-cnt) == 0 && s + LsbBits(0, Pos(-cnt)) == s
  {
  }

  lemma StoredHeader(len: nat)
    requires len < 0x1_0000_0000
    ensures LsbBits(BitOr(len % 65536, Shl32(0xffff_ffff - len, 16)), 32)
         == LsbBits(len % 65536, 16) + LsbBits(65535 - len % 65536, 16)
  {
    hide *;
    Pow2Of16();
    var c := 0xffff_ffff - len;
    ShlTruncates(c, 16);
    DivUnique(c, 65536, 65535 - len / 65536, 65535 - len % 65536);
    BitOrDisjoint(len % 65536, c % 65536, 16);
    LsbJoin(len % 65536, 16, c % 65536, 16);
  }
}
