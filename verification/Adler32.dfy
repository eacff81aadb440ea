/**
 lzo_adler32: the Adler-32 checksum of section 8.2 of RFC 1950, with the modulo
 operation put off for up to 5552 bytes.
 */
module Adler32 {
  import opened Arith

  const LZO_BASE: nat := 65521
  const LZO_NMAX: nat := 5552
  const WORD: nat := 0x1_0000_0000

  /** The sum of all bytes, started at `a`. */
  function S1(a: nat, d: seq<Byte>): nat
  {
    if d == [] then a else S1(a, d[..|d| - 1]) + d[|d| - 1]
  }

  /** The sum of all intermediate values of S1, started at `b`. */
  function S2(a: nat, b: nat, d: seq<Byte>): nat
  {
    if d == [] then b else S2(a, b, d[..|d| - 1]) + S1(a, d)
  }

  /** Both sums modulo 65521, the second one in the upper half; no data changes nothing. */
  function Checksum(adler: nat, d: seq<Byte>): nat
  {
    if d == [] then adler
    else S2(adler % 65536, adler / 65536, d) % LZO_BASE * 65536 + S1(adler % 65536, d) % LZO_BASE
  }

  /** `n` equal bytes: both halves in closed form, modulo the largest prime below 65536. */
  lemma EqualBytes(x: Byte, n: nat)
    requires n > 0
    ensures Checksum(1, seq(n, i => x)) == (n + x * (n * (n + 1) / 2)) % 65521 * 65536 + (1 + n * x) % 65521
  {
    EqualSums(x, n);
    assert 2 * (n * (n + 1) / 2) == n * (n + 1) by { EvenProduct(n); }
    Triangle(x, n);
  }

  lemma {:induction false} EqualSums(x: Byte, n: nat)
    ensures S1(1, seq(n, i => x)) == 1 + n * x
    ensures 2 * S2(1, 0, seq(n, i => x)) == 2 * n + x * (n * (n + 1))
  {
    if n > 0 {
      EqualSums(x, n - 1);
      assert seq(n, i => x)[..n - 1] == seq(n - 1, i => x);
      NextSums(x, n);
    } else {
      assert x * 0 == 0;
    }
  }

  lemma NextSums(x: nat, n: nat)
    requires n > 0
    ensures (n - 1) * x + x == n * x
    ensures x * ((n - 1) * n) + 2 * (n * x) == x * (n * (n + 1))
  {
    assert (n - 1) * n + 2 * n == n * (n + 1);
    assert x * ((n - 1) * n + 2 * n) == x * ((n - 1) * n) + x * (2 * n);
    assert x * (2 * n) == 2 * (n * x);
  }

  lemma EvenProduct(n: nat)
    ensures n * (n + 1) % 2 == 0
  {
    var h := n / 2;
    if n % 2 == 0 {
      assert n * (n + 1) == 2 * (h * (n + 1));
    } else {
      assert n + 1 == 2 * (h + 1);
      assert n * (n + 1) == 2 * (n * (h + 1));
    }
  }

  lemma Triangle(x: nat, n: nat)
    requires 2 * (n * (n + 1) / 2) == n * (n + 1)
    ensures 2 * (x * (n * (n + 1) / 2)) == x * (n * (n + 1))
  {
    var t := n * (n + 1) / 2;
    assert x * (2 * t) == 2 * (x * t);
  }

  /** Order matters: two known sums. */
  lemma KnownSums()
    ensures Checksum(1, ['a' as int, 'b' as int, 'c' as int]) == 0x024d0127
    ensures Checksum(1, ['c' as int, 'b' as int, 'a' as int]) == 0x02510127
  {
    ThreeBytes('a' as int, 'b' as int, 'c' as int);
    ThreeBytes('c' as int, 'b' as int, 'a' as int);
  }

  lemma ThreeBytes(x: Byte, y: Byte, z: Byte)
    ensures S1(1, [x, y, z]) == 1 + x + y + z && S2(1, 0, [x, y, z]) == 3 + 3 * x + 2 * y + z
  {
    var d: seq<Byte> := [x, y, z];
    assert d[..2] == [x, y] && [x, y][..1] == [x] && [x][..0] == [];
    assert S1(1, [x]) == 1 + x && S1(1, [x, y]) == 1 + x + y;
    assert S2(1, 0, [x]) == 1 + x && S2(1, 0, [x, y]) == 2 + 2 * x + y;
  }

  lemma {:induction false} SumsConcat(a: nat, b: nat, x: seq<Byte>, y: seq<Byte>)
    ensures S1(a, x + y) == S1(S1(a, x), y)
    ensures S2(a, b, x + y) == S2(S1(a, x), S2(a, b, x), y)
  {
    if y == [] {
      assert x + y == x;
    } else {
      assert (x + y)[..|x + y| - 1] == x + y[..|y| - 1];
      SumsConcat(a, b, x, y[..|y| - 1]);
    }
  }

  lemma AddMod(x: nat, y: nat, z: nat)
    ensures (x + z) % LZO_BASE == (x % LZO_BASE + z) % LZO_BASE
    ensures x % LZO_BASE == y % LZO_BASE ==> (x + z) % LZO_BASE == (y + z) % LZO_BASE
  {
  }

  lemma AddBoth(x: nat, y: nat, u: nat, v: nat)
    requires x % LZO_BASE == y % LZO_BASE && u % LZO_BASE == v % LZO_BASE
    ensures (x + u) % LZO_BASE == (y + v) % LZO_BASE
  {
    AddMod(x, y, u);
    AddMod(u, v, y);
  }

  /** Starting values that agree modulo the base give sums that agree. */
  lemma {:induction false} SumsMod(a: nat, b: nat, a': nat, b': nat, d: seq<Byte>)
    requires a % LZO_BASE == a' % LZO_BASE && b % LZO_BASE == b' % LZO_BASE
    ensures S1(a, d) % LZO_BASE == S1(a', d) % LZO_BASE && S2(a, b, d) % LZO_BASE == S2(a', b', d) % LZO_BASE
  {
    if d != [] {
      var e := d[..|d| - 1];
      SumsMod(a, b, a', b', e);
      AddMod(S1(a, e), S1(a', e), d[|d| - 1]);
      AddBoth(S2(a, b, e), S2(a', b', e), S1(a, d), S1(a', d));
    }
  }

  lemma Halves(hi: nat, lo: nat)
    requires lo < 65536
    ensures (hi * 65536 + lo) % 65536 == lo && (hi * 65536 + lo) / 65536 == hi
  {
  }

  lemma ModTwice(x: nat)
    ensures x % LZO_BASE % LZO_BASE == x % LZO_BASE && x % LZO_BASE < 65536
  {
  }

  /** A checksum can be computed piece by piece. */
  lemma ChecksumConcat(adler: nat, x: seq<Byte>, y: seq<Byte>)
    ensures Checksum(Checksum(adler, x), y) == Checksum(adler, x + y)
  {
    hide S1, S2;
    if x == [] {
      assert x + y == y;
    } else if y == [] {
      assert x + y == x;
    } else {
      var a, b := adler % 65536, adler / 65536;
      var s1, s2 := S1(a, x) % LZO_BASE, S2(a, b, x) % LZO_BASE;
      ModTwice(S1(a, x));
      ModTwice(S2(a, b, x));
      Halves(s2, s1);
      SumsConcat(a, b, x, y);
      SumsMod(s1, s2, S1(a, x), S2(a, b, x), y);
    }
  }

  // ---------- no overflow ----------

  /** Largest value of the second sum after `i` bytes without reduction. */
  function Largest(i: nat): nat
  {
    if i == 0 then 65535 else Largest(i - 1) + 65535 + 255 * i
  }

  lemma {:induction false} LargestIs(i: nat)
    ensures 2 * Largest(i) == 2 * 65535 * (i + 1) + 255 * (i * (i + 1))
  {
    if i > 0 {
      LargestIs(i - 1);
      assert i * (i + 1) == (i - 1) * i + 2 * i;
    }
  }

  lemma {:induction false} LargestFits(i: nat)
    requires i <= LZO_NMAX
    ensures Largest(i) < WORD
    decreases LZO_NMAX - i
  {
    if i < LZO_NMAX {
      LargestFits(i + 1);
    } else {
      LargestIs(i);
    }
  }

  // ---------- the method ----------

  /** Up to 5552 bytes; 32-bit sums never wrap. */
  method Chunk(s1_0: nat, s2_0: nat, buf: array<Byte>, from: nat, k0: nat) returns (s1: nat, s2: nat)
    requires s1_0 <= 65535 && s2_0 <= 65535 && from + k0 <= buf.Length && k0 <= LZO_NMAX
    ensures s1 == S1(s1_0, buf[from..from + k0]) && s2 == S2(s1_0, s2_0, buf[from..from + k0])
  {
    hide Largest;
    s1, s2 := s1_0, s2_0;
    var i := 0;
    FirstLargest();
    while i < k0
      invariant 0 <= i <= k0 && s1 <= 65535 + 255 * i && s2 <= Largest(i)
      invariant s1 == S1(s1_0, buf[from..from + i]) && s2 == S2(s1_0, s2_0, buf[from..from + i])
    {
      NoWrap(s1, s2, i, buf[from + i]);
      assert buf[from..from + i + 1][..i] == buf[from..from + i];
      s1 := (s1 + buf[from + i]) % WORD;
      s2 := (s2 + s1) % WORD;
      i := i + 1;
    }
  }

  lemma FirstLargest()
    ensures Largest(0) == 65535
  {
  }

  lemma NoWrap(s1: nat, s2: nat, i: nat, x: Byte)
    requires i < LZO_NMAX && s1 <= 65535 + 255 * i && s2 <= Largest(i)
    ensures (s1 + x) % WORD == s1 + x <= 65535 + 255 * (i + 1)
    ensures (s2 + (s1 + x)) % WORD == s2 + (s1 + x) <= Largest(i + 1)
  {
    LargestFits(i + 1);
  }

  /** The sums for the bytes `x`, reduced unless there were none. */
  ghost predicate Running(s1: nat, s2: nat, a: nat, b: nat, x: seq<Byte>)
  {
    && s1 <= 65535 && s2 <= 65535
    && if x == [] then s1 == a && s2 == b else s1 == S1(a, x) % LZO_BASE && s2 == S2(a, b, x) % LZO_BASE
  }

  lemma RunningStep(s1: nat, s2: nat, a: nat, b: nat, x: seq<Byte>, y: seq<Byte>)
    requires Running(s1, s2, a, b, x) && y != []
    ensures Running(S1(s1, y) % LZO_BASE, S2(s1, s2, y) % LZO_BASE, a, b, x + y)
  {
    hide S1, S2;
    NoSums(a, b);
    ModTwice(S1(a, x));
    ModTwice(S2(a, b, x));
    SumsMod(s1, s2, S1(a, x), S2(a, b, x), y);
    SumsConcat(a, b, x, y);
    ModTwice(S1(s1, y));
    ModTwice(S2(s1, s2, y));
  }

  lemma NoSums(a: nat, b: nat)
    ensures S1(a, []) == a && S2(a, b, []) == b
  {
  }

  lemma RunningEnd(adler: nat, s1: nat, s2: nat, x: seq<Byte>)
    requires adler < WORD && Running(s1, s2, adler % 65536, adler / 65536 % 65536, x)
    ensures s2 * 65536 + s1 == Checksum(adler, x)
  {
    hide S1, S2;
    HighHalf(adler);
  }

  lemma HighHalf(adler: nat)
    requires adler < WORD
    ensures adler / 65536 % 65536 == adler / 65536 && adler / 65536 * 65536 + adler % 65536 == adler
  {
  }

  method LzoAdler32(adler: nat, buf: array?<Byte>, len: nat) returns (r: nat)
    requires adler < WORD && (buf != null ==> len <= buf.Length)
    ensures r == if buf == null then 1 else Checksum(adler, buf[..len])
  {
    hide S1, S2, Running, Checksum;
    var s1: nat, s2: nat := adler % 65536, adler / 65536 % 65536;
    if buf == null {
      return 1;
    }
    ghost var a, b := s1, s2;
    var done, rest := 0, len;
    RunningStart(a, b, buf[..0]);
    while rest > 0
      invariant 0 <= rest && done + rest == len && s1 <= 65535 && s2 <= 65535
      invariant Running(s1, s2, a, b, buf[..done])
    {
      var k := if rest < LZO_NMAX then rest else LZO_NMAX;
      RunningStep(s1, s2, a, b, buf[..done], buf[done..done + k]);
      assert buf[..done] + buf[done..done + k] == buf[..done + k];
      rest := rest - k;
      s1, s2 := Chunk(s1, s2, buf, done, k);
      done := done + k;
      s1 := s1 % LZO_BASE;
      s2 := s2 % LZO_BASE;
    }
    Joined(s2, s1);
    RunningEnd(adler, s1, s2, buf[..len]);
    r := BitOr(s1, Shl32(s2, 16));
  }

  lemma RunningStart(a: nat, b: nat, x: seq<Byte>)
    requires x == [] && a <= 65535 && b <= 65535
    ensures Running(a, b, a, b, x)
  {
  }

  lemma Joined(hi: nat, lo: nat)
    requires hi < 65536 && lo < 65536
    ensures BitOr(lo, Shl32(hi, 16)) == hi * 65536 + lo
  {
    hide BitOr, Pow2;
    Pow2Of16();
    BitOrDisjoint(lo, hi, 16);
  }
}
