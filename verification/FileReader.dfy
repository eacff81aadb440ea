/** The input file: file_read delivers any non-empty piece of what is left, or the end of the file, or an error. */
module FileReader {
  import opened Arith

  /** The bytes `data` written over `s` from index `at` on. */
  function Overlay(s: seq<Byte>, at: nat, data: seq<Byte>): (r: seq<Byte>)
    requires at + |data| <= |s|
    ensures |r| == |s|
  {
    s[..at] + data + s[at + |data|..]
  }

  /** A checksum over `data`, computed byte by byte with the step `step` on 32-bit numbers. */
  ghost function Checksum(step: (nat, Byte) -> nat, c: nat, data: seq<Byte>): (r: nat)
    requires c < 0x1_0000_0000
    ensures r < 0x1_0000_0000
  {
    if data == [] then c else step(Checksum(step, c, data[..|data| - 1]), data[|data| - 1]) % 0x1_0000_0000
  }

  /** The checksum of a concatenation goes on where the first part ended, however the input is cut into pieces. */
  lemma {:induction false} ChecksumConcat(step: (nat, Byte) -> nat, c: nat, a: seq<Byte>, b: seq<Byte>)
    requires c < 0x1_0000_0000
    ensures Checksum(step, c, a + b) == Checksum(step, Checksum(step, c, a), b)
  {
    if b == [] {
      assert a + b == a;
    } else {
      assert (a + b)[..|a + b| - 1] == a + b[..|b| - 1];
      ChecksumConcat(step, c, a, b[..|b| - 1]);
    }
  }

  const ALL_ONES: nat := 0xffff_ffff

  class Reader {
    /** One step of the CRC, which is not defined in gzip.c. */
    const step: (nat, Byte) -> nat
    /** What the file still holds. */
    var rest: seq<Byte>
    var failed: bool
    /** Number of bytes read, as a 32-bit number. */
    var isize: nat
    var crc: nat
    ghost var delivered: seq<Byte>

    /** zip sets the checksum to all ones before the first read. */
    constructor (input: seq<Byte>, step: (nat, Byte) -> nat)
      ensures Valid() && rest == input && delivered == [] && !failed && this.step == step
    {
      this.step := step;
      rest, delivered, isize, failed, crc := input, [], 0, false, ALL_ONES;
    }

    ghost predicate Valid()
      reads this
    {
      isize == |delivered| % 0x1_0000_0000 && crc == Checksum(step, ALL_ONES, delivered)
    }

    /** The outcome is -1 for an error, 0 at the end of the file, or the number of bytes put into `buf`. */
    method Read(buf: array<Byte>, at: nat, size: nat) returns (n: int)
      requires Valid() && size >= 2 && at + size <= buf.Length
      modifies this, buf
      ensures Valid() && -1 <= n <= size
      ensures n <= 0 ==> rest == old(rest) && delivered == old(delivered) && buf[..] == old(buf[..])
      ensures n == 0 ==> rest == [] && failed == old(failed)
      ensures n == -1 ==> failed
      ensures n > 0 ==> n <= |old(rest)| && failed == old(failed)
      ensures n > 0 ==> delivered == old(delivered) + old(rest)[..n] && rest == old(rest)[n..]
      ensures n > 0 ==> buf[..] == Overlay(old(buf[..]), at, old(rest)[..n])
    {
      hide Checksum;
      if * {
        failed := true;
        return -1;
      }
      if rest == [] {
        return 0;
      }
      n :| 1 <= n <= size && n <= |rest|;
      PutInto(buf, at, rest[..n]);
      UpdateCrc(rest[..n]);
      delivered := delivered + rest[..n];
      isize := (isize + n) % 0x1_0000_0000;
      rest := rest[n..];
    }

    method UpdateCrc(data: seq<Byte>)
      requires crc == Checksum(step, ALL_ONES, delivered)
      modifies this`crc
      ensures crc == Checksum(step, ALL_ONES, delivered + data)
    {
      hide Checksum;
      ChecksumConcat(step, ALL_ONES, delivered, data);
      crc := ChecksumLoop(step, crc, data);
    }
  }

  method ChecksumLoop(step: (nat, Byte) -> nat, c: nat, data: seq<Byte>) returns (r: nat)
    requires c < 0x1_0000_0000
    ensures r == Checksum(step, c, data)
  {
    r := c;
    var i := 0;
    while i < |data|
      invariant 0 <= i <= |data| && r == Checksum(step, c, data[..i])
    {
      r := step(r, data[i]) % 0x1_0000_0000;
      i := i + 1;
      assert data[..i][..i - 1] == data[..i - 1];
    }
    assert data[..i] == data;
  }

  method PutInto(buf: array<Byte>, at: nat, data: seq<Byte>)
    requires at + |data| <= buf.Length
    modifies buf
    ensures buf[..] == Overlay(old(buf[..]), at, data)
  {
    ghost var before := buf[..];
    var i := 0;
    while i < |data|
      invariant 0 <= i <= |data|
      invariant buf[..] == before[..at] + data[..i] + before[at + i..]
    {
      buf[at + i] := data[i];
      i := i + 1;
    }
  }
}
