/**
 A reference decoder for the format of section 3.2 of RFC 1951, written from the
 format alone.  `Got(value, pos)` is what was read and where reading stopped.
 */
module Inflate {
  import opened Arith
  import opened Bits
  import opened Canonical

  function ReadBits(b: BitString, pos: nat, n: nat): (r: Decoded<nat>)
    ensures r.Got? ==> r.pos == pos + n <= |b|
  {
    if pos + n <= |b| then Got(LsbValue(b[pos..pos + n]), pos + n) else Fail
  }

  // ---------- matches: section 3.2.5 ----------

  /** First length and number of extra bits of the symbols 257 .. 285. */
  const LENGTH_BASE: seq<nat> :=
    [3, 4, 5, 6, 7, 8, 9, 10, 11, 13, 15, 17, 19, 23, 27, 31, 35, 43, 51, 59, 67, 83, 99, 115, 131, 163, 195, 227, 258]
  const LENGTH_EXTRA: seq<nat> :=
    [0, 0, 0, 0, 0, 0, 0, 0, 1, 1, 1, 1, 2, 2, 2, 2, 3, 3, 3, 3, 4, 4, 4, 4, 5, 5, 5, 5, 0]

  /** First distance and number of extra bits of the distance symbols 0 .. 29. */
  const DIST_BASE: seq<nat> :=
    [1, 2, 3, 4, 5, 7, 9, 13, 17, 25, 33, 49, 65, 97, 129, 193, 257, 385, 513, 769, 1025, 1537, 2049, 3073, 4097, 6145,
     8193, 12289, 16385, 24577]
  const DIST_EXTRA: seq<nat> :=
    [0, 0, 0, 0, 1, 1, 2, 2, 3, 3, 4, 4, 5, 5, 6, 6, 7, 7, 8, 8, 9, 9, 10, 10, 11, 11, 12, 12, 13, 13]

  /** Repeat, byte by byte, what stands `dist` bytes back; source and target may overlap. */
  function Copy(out: seq<Byte>, dist: nat, len: nat): (r: seq<Byte>)
    requires 1 <= dist <= |out|
    ensures |r| == |out| + len
    decreases len
  {
    if len == 0 then out else Copy(out + [out[|out| - dist]], dist, len - 1)
  }

  datatype Match = Match(dist: nat, len: nat)

  /** The rest of a match whose length symbol `s` has just been read. */
  function ReadMatch(b: BitString, pos: nat, s: nat, dist: Lengths): (r: Decoded<Match>)
    requires 257 <= s <= 285
    ensures r.Got? ==> pos < r.pos <= |b|
  {
    match ReadBits(b, pos, LENGTH_EXTRA[s - 257])
    case Fail => Fail
    case Got(x, p) =>
      match DecodeSymbol(dist, b, p)
      case Fail => Fail
      case Got(d, q) =>
        if d >= 30 then Fail
        else
          match ReadBits(b, q, DIST_EXTRA[d])
          case Fail => Fail
          case Got(y, e) => Got(Match(DIST_BASE[d] + y, LENGTH_BASE[s - 257] + x), e)
  }

  /** Literals and matches up to the end-of-block symbol, appended to `out`. */
  function ReadData(b: BitString, pos: nat, lit: Lengths, dist: Lengths, out: seq<Byte>): (r: Decoded<seq<Byte>>)
    ensures r.Got? ==> pos < r.pos <= |b|
    decreases |b| - pos
  {
    match DecodeSymbol(lit, b, pos)
    case Fail => Fail
    case Got(s, p) =>
      if s < 256 then ReadData(b, p, lit, dist, out + [s])
      else if s == 256 then Got(out, p)
      else if s > 285 then Fail
      else
        match ReadMatch(b, p, s, dist)
        case Fail => Fail
        case Got(m, q) => if 1 <= m.dist <= |out| then ReadData(b, q, lit, dist, Copy(out, m.dist, m.len)) else Fail
  }

  // ---------- code lengths: section 3.2.7 ----------

  /** The order in which the lengths of the code length code are sent. */
  const CL_ORDER: seq<nat> := [16, 17, 18, 0, 8, 7, 9, 6, 10, 5, 11, 4, 12, 3, 13, 2, 14, 1, 15]

  /** Extra bits after a code length symbol. */
  function ClExtra(s: nat): nat
  {
    if s == 16 then 2 else if s == 17 then 3 else if s == 18 then 7 else 0
  }

  datatype Option<T> = None | Some(value: T)

  function Repeat(x: nat, n: nat): (r: Lengths)
    ensures |r| == n && forall i :: 0 <= i < n ==> r[i] == x
  {
    seq(n, i => x)
  }

  /** The lengths read so far after one more symbol with argument `x`. */
  function Unpack(out: Lengths, s: nat, x: nat): (r: Option<Lengths>)
    ensures r.Some? ==> |r.value| > |out|
  {
    if s < 16 then Some(out + [s])
    else if s == 16 then if out == [] then None else Some(out + Repeat(out[|out| - 1], 3 + x))
    else if s == 17 then Some(out + Repeat(0, 3 + x))
    else if s == 18 then Some(out + Repeat(0, 11 + x))
    else None
  }

  /** Read code lengths until there are `total` of them. */
  function ReadLengths(b: BitString, pos: nat, cl: Lengths, total: nat, out: Lengths): (r: Decoded<Lengths>)
    ensures r.Got? ==> |r.value| == total && pos <= r.pos && (r.pos <= |b| || r.pos == pos)
    decreases total - |out|
  {
    if |out| > total then Fail
    else if |out| == total then Got(out, pos)
    else
      match DecodeSymbol(cl, b, pos)
      case Fail => Fail
      case Got(s, p) =>
        match ReadBits(b, p, ClExtra(s))
        case Fail => Fail
        case Got(x, q) =>
          match Unpack(out, s, x)
          case None => Fail
          case Some(next) => ReadLengths(b, q, cl, total, next)
  }

  /** The first `n` three-bit lengths of the code length code, put in their places. */
  function ReadClLengths(b: BitString, pos: nat, n: nat): (r: Decoded<Lengths>)
    requires n <= 19
    ensures r.Got? ==> |r.value| == 19 && r.pos == pos + 3 * n && (n > 0 ==> r.pos <= |b|)
  {
    if n == 0 then Got(Repeat(0, 19), pos)
    else
      match ReadClLengths(b, pos, n - 1)
      case Fail => Fail
      case Got(cl, p) =>
        match ReadBits(b, p, 3)
        case Fail => Fail
        case Got(x, q) => Got(cl[CL_ORDER[n - 1] := x], q)
  }

  datatype Codes = Codes(lit: Lengths, dist: Lengths)

  /** The two codes of a dynamic block. */
  function ReadCodes(b: BitString, pos: nat): (r: Decoded<Codes>)
    ensures r.Got? ==> pos < r.pos <= |b|
  {
    if pos + 14 > |b| then Fail
    else
      var hlit := LsbValue(b[pos..pos + 5]) + 257;
      var hdist := LsbValue(b[pos + 5..pos + 10]) + 1;
      var hclen := LsbValue(b[pos + 10..pos + 14]) + 4;
      if hlit > 286 || hdist > 30 || hclen > 19 then Fail
      else
        match ReadClLengths(b, pos + 14, hclen)
        case Fail => Fail
        case Got(cl, p) =>
          match ReadLengths(b, p, cl, hlit + hdist, [])
          case Fail => Fail
          case Got(l, q) => Got(Codes(l[..hlit], l[hlit..]), q)
  }

  // ---------- blocks: sections 3.2.3, 3.2.4 and 3.2.6 ----------

  function FixedLit(): (r: Lengths)
    ensures |r| == 288
  {
    seq(288, i => if i <= 143 then 8 else if i <= 255 then 9 else if i <= 279 then 7 else 8)
  }

  function FixedDist(): (r: Lengths)
    ensures |r| == 32
  {
    Repeat(5, 32)
  }

  function ReadBytes(b: BitString, pos: nat, n: nat, out: seq<Byte>): (r: Decoded<seq<Byte>>)
    ensures r.Got? ==> r.pos == pos + 8 * n && (n > 0 ==> r.pos <= |b|)
    decreases n
  {
    if n == 0 then Got(out, pos)
    else
      match ReadBits(b, pos, 8)
      case Fail => Fail
      case Got(x, p) => if x < 256 then ReadBytes(b, p, n - 1, out + [x]) else Fail
  }

  /** A stored block: skip to a byte boundary, check LEN against NLEN, copy LEN bytes. */
  function ReadStored(b: BitString, pos: nat, out: seq<Byte>): (r: Decoded<seq<Byte>>)
    ensures r.Got? ==> pos < r.pos <= |b|
  {
    var p := pos + (8 - pos % 8) % 8;
    if p + 32 > |b| then Fail
    else
      var len := LsbValue(b[p..p + 16]);
      if LsbValue(b[p + 16..p + 32]) + len != 65535 then Fail else ReadBytes(b, p + 32, len, out)
  }

  datatype Block = Block(last: bool, out: seq<Byte>)

  /** One block; its output is appended to `out`, where matches may refer to. */
  function ReadBlock(b: BitString, pos: nat, out: seq<Byte>): (r: Decoded<Block>)
    ensures r.Got? ==> pos < r.pos <= |b|
  {
    if pos + 3 > |b| then Fail
    else
      var last := b[pos];
      var kind := LsbValue(b[pos + 1..pos + 3]);
      var data :=
        if kind == 0 then ReadStored(b, pos + 3, out)
        else if kind == 1 then ReadData(b, pos + 3, FixedLit(), FixedDist(), out)
        else if kind == 2 then
          match ReadCodes(b, pos + 3)
          case Fail => Fail
          case Got(c, p) => ReadData(b, p, c.lit, c.dist, out)
        else Fail;
      match data
      case Fail => Fail
      case Got(o, q) => Got(Block(last, o), q)
  }

  /** All blocks up to and including the last one. */
  function ReadBlocks(b: BitString, pos: nat, out: seq<Byte>): (r: Decoded<seq<Byte>>)
    decreases |b| - pos
  {
    match ReadBlock(b, pos, out)
    case Fail => Fail
    case Got(block, p) => if block.last then Got(block.out, p) else ReadBlocks(b, p, block.out)
  }
}
