/** make_hash and the probe sequence of the hash tables: with a prime size every slot is visited exactly once. */
module DoubleHashing {
  import opened Arith

  const NAME_HASH_PRIME: nat := 16381
  const PACKAGE_HASH_PRIME: nat := 10007
  const STATUS_HASH_PRIME: nat := 8191

  // ---------- primes ----------

  ghost predicate Prime(p: nat)
  {
    p >= 2 && forall d :: 2 <= d < p ==> p % d != 0
  }

  predicate NoDivisorUpTo(p: nat, m: nat)
  {
    m < 2 || (p % m != 0 && NoDivisorUpTo(p, m - 1))
  }

  lemma {:induction false} NoDivisorAt(p: nat, m: nat, d: nat)
    requires NoDivisorUpTo(p, m) && 2 <= d <= m
    ensures p % d != 0
  {
    if d < m {
      NoDivisorAt(p, m - 1, d);
    }
  }

  /** It is enough to look at divisors up to the square root. */
  lemma PrimeByTrial(p: nat, m: nat)
    requires p >= 2 && NoDivisorUpTo(p, m) && p < (m + 1) * (m + 1)
    ensures Prime(p)
  {
    forall d | 2 <= d < p ensures p % d != 0 {
      if p % d == 0 {
        var e := p / d;
        DivMod(p, d);
        assert p == e * d;
        SmallFactor(p, m, d, e);
        if d <= m {
          NoDivisorAt(p, m, d);
        } else {
          DivMul(d, e);
          NoDivisorAt(p, m, e);
        }
      }
    }
  }

  lemma SmallFactor(p: nat, m: nat, d: nat, e: nat)
    requires p == e * d && p < (m + 1) * (m + 1) && 2 <= d < p
    ensures (d <= m || e <= m) && e >= 2
  {
    if d > m && e > m {
      MulMono(m + 1, m + 1, d);
      MulMono(d, m + 1, e);
    }
    SmallProducts(d);
  }

  lemma SmallProducts(d: nat)
    ensures 0 * d == 0 && 1 * d == d
  {
  }

  lemma NameTrial()
    ensures NoDivisorUpTo(16381, 64)
  {
    assert NoDivisorUpTo(16381, 8); assert NoDivisorUpTo(16381, 16); assert NoDivisorUpTo(16381, 24);
    assert NoDivisorUpTo(16381, 32); assert NoDivisorUpTo(16381, 40); assert NoDivisorUpTo(16381, 48);
    assert NoDivisorUpTo(16381, 56); assert NoDivisorUpTo(16381, 64);
  }

  lemma NamePrime()
    ensures Prime(16381)
  {
    NameTrial();
    assert NoDivisorUpTo(16381, 72); assert NoDivisorUpTo(16381, 80); assert NoDivisorUpTo(16381, 88);
    assert NoDivisorUpTo(16381, 96); assert NoDivisorUpTo(16381, 104); assert NoDivisorUpTo(16381, 112);
    assert NoDivisorUpTo(16381, 120); assert NoDivisorUpTo(16381, 127);
    PrimeByTrial(16381, 127);
  }

  lemma PackagePrime()
    ensures Prime(10007)
  {
    assert NoDivisorUpTo(10007, 8); assert NoDivisorUpTo(10007, 16); assert NoDivisorUpTo(10007, 24);
    assert NoDivisorUpTo(10007, 32); assert NoDivisorUpTo(10007, 40); assert NoDivisorUpTo(10007, 48);
    assert NoDivisorUpTo(10007, 56); assert NoDivisorUpTo(10007, 64); assert NoDivisorUpTo(10007, 72);
    assert NoDivisorUpTo(10007, 80); assert NoDivisorUpTo(10007, 88); assert NoDivisorUpTo(10007, 96);
    assert NoDivisorUpTo(10007, 100);
    PrimeByTrial(10007, 100);
  }

  lemma StatusPrime()
    ensures Prime(STATUS_HASH_PRIME)
  {
    assert NoDivisorUpTo(8191, 8); assert NoDivisorUpTo(8191, 16); assert NoDivisorUpTo(8191, 24);
    assert NoDivisorUpTo(8191, 32); assert NoDivisorUpTo(8191, 40); assert NoDivisorUpTo(8191, 48);
    assert NoDivisorUpTo(8191, 56); assert NoDivisorUpTo(8191, 64); assert NoDivisorUpTo(8191, 72);
    assert NoDivisorUpTo(8191, 80); assert NoDivisorUpTo(8191, 88); assert NoDivisorUpTo(8191, 90);
    PrimeByTrial(8191, 90);
  }

  // ---------- inverses modulo a prime ----------

  lemma Combine(g: nat, q: nat, u: nat, v: nat, x: int, y: int)
    ensures q * (g * u) + g * v == g * (q * u + v)
    ensures (q * (g * u) + g * v) * y + g * u * (x - q * y) == g * u * x + g * v * y
  {
  }

  /** A common divisor `g` of `a` and `b` with a * x + b * y == g. */
  lemma {:induction false} Bezout(a: nat, b: nat) returns (g: nat, u: nat, v: nat, x: int, y: int)
    requires a > 0 || b > 0
    ensures g > 0 && a == g * u && b == g * v && a * x + b * y == g
    decreases b
  {
    if b == 0 {
      return a, 1, 0, 1, 0;
    }
    var q, r := a / b, a % b;
    DivMod(a, b);
    var u', v', x', y';
    g, u', v', x', y' := Bezout(b, r);
    Combine(g, q, u', v', x', y');
    u, v, x, y := q * u' + v', u', y', x' - q * y';
  }

  /** Every step width has an inverse modulo the prime. */
  lemma Inverse(d: nat, p: nat) returns (x: int, y: int)
    requires Prime(p) && 0 < d < p
    ensures d * x + p * y == 1
  {
    var g, u, v;
    g, u, v, x, y := Bezout(d, p);
    Factors(g, u, d);
    Factors(g, v, p);
    if g != 1 {
      DivMul(v, g);
    }
  }

  lemma Factors(g: nat, u: nat, d: nat)
    requires d == g * u && d > 0 && g > 0
    ensures 1 <= u && g <= d
  {
    MulMono(g, 1, u);
  }

  // ---------- the probe sequence ----------

  /** The slot looked at after `k` steps. */
  function Probe(start: nat, dec: nat, p: nat, k: nat): (r: nat)
    requires p > 0
    ensures r < p
  {
    (start - k * dec) % p
  }

  lemma ModIs(v: int, p: nat, q: int, r: nat)
    requires v == q * p + r && r < p
    ensures v % p == r
  {
    DivUnique(v, p, q, r);
  }

  lemma ProbeFirst(start: nat, dec: nat, p: nat)
    requires start < p
    ensures Probe(start, dec, p, 0) == start
  {
    ModIs(start, p, 0, start);
  }

  /** The step of `probe_address` in the search loops. */
  lemma ProbeNext(start: nat, dec: nat, p: nat, k: nat)
    requires dec < p
    ensures var a := Probe(start, dec, p, k); Probe(start, dec, p, k + 1) == if a - dec < 0 then a - dec + p else a - dec
  {
    var a := Probe(start, dec, p, k);
    var v := start - k * dec;
    var q := v / p;
    assert v == q * p + a;
    assert start - (k + 1) * dec == v - dec;
    if a - dec < 0 {
      Shift(q, p);
      ModIs(v - dec, p, q - 1, a - dec + p);
    } else {
      ModIs(v - dec, p, q, a - dec);
    }
  }

  lemma Shift(q: int, p: int)
    ensures (q - 1) * p == q * p - p
  {
  }

  lemma Reached(s: int, f: int, d: int, p: int, x: int, y: int, q: int, k: int)
    requires d * x + p * y == 1 && k == (s - f) * x - q * p
    ensures s - k * d == ((s - f) * y + q * d) * p + f
  {
    calc {
      s - k * d;
      s - ((s - f) * x - q * p) * d;
      { Expand(s - f, x, q, p, d); }
      s - ((s - f) * (d * x) - q * d * p);
      s - ((s - f) * (1 - p * y) - q * d * p);
      { ExpandMore(s - f, p, y); }
      f + (s - f) * y * p + q * d * p;
      { Collect((s - f) * y, q * d, p); }
      ((s - f) * y + q * d) * p + f;
    }
  }

  lemma Expand(e: int, x: int, q: int, p: int, d: int)
    ensures (e * x - q * p) * d == e * (d * x) - q * d * p
  {
  }

  lemma ExpandMore(e: int, p: int, y: int)
    ensures e * (1 - p * y) == e - e * y * p
  {
  }

  lemma Collect(a: int, b: int, p: int)
    ensures a * p + b * p == (a + b) * p
  {
  }

  /** Every slot is reached within `p` steps. */
  lemma ProbeReaches(start: nat, dec: nat, p: nat, f: nat) returns (k: nat)
    requires Prime(p) && 0 < dec < p && f < p
    ensures k < p && Probe(start, dec, p, k) == f
  {
    var x, y := Inverse(dec, p);
    var e := (start - f) * x;
    k := e % p;
    var q := e / p;
    assert e == q * p + k;
    Reached(start, f, dec, p, x, y, q, k);
    ModIs(start - k * dec, p, (start - f) * y + q * dec, f);
  }

  lemma IntDivMod(v: int, p: nat)
    requires p > 0
    ensures v == v / p * p + v % p
  {
  }

  lemma Cancel(n: int, d: int, p: int, x: int, y: int, z: int)
    requires d * x + p * y == 1 && n * d == z * p
    ensures n == (z * x + n * y) * p
  {
    calc {
      n;
      n * (d * x + p * y);
      { Spread(n, d, x, p, y); }
      n * d * x + n * y * p;
      z * p * x + n * y * p;
      { Gather(z, p, x, n * y); }
      (z * x + n * y) * p;
    }
  }

  lemma Spread(n: int, d: int, x: int, p: int, y: int)
    ensures n * (d * x + p * y) == n * d * x + n * y * p
  {
  }

  lemma Gather(z: int, p: int, x: int, m: int)
    ensures z * p * x + m * p == (z * x + m) * p
  {
  }

  /** No slot is looked at twice within `p` steps. */
  lemma ProbeOnce(start: nat, dec: nat, p: nat, k: nat, l: nat)
    requires Prime(p) && 0 < dec < p && k < p && l < p && Probe(start, dec, p, k) == Probe(start, dec, p, l)
    ensures k == l
  {
    var x, y := Inverse(dec, p);
    var q := ProbeForm(start, dec, p, k);
    var r := ProbeForm(start, dec, p, l);
    Difference(start, k, l, dec, p, q, r);
    OnlyZero(k - l, dec, p, x, y, r - q);
  }

  lemma ProbeForm(start: nat, dec: nat, p: nat, k: nat) returns (q: int)
    requires p > 0
    ensures start - k * dec == q * p + Probe(start, dec, p, k)
  {
    IntDivMod(start - k * dec, p);
    q := (start - k * dec) / p;
  }

  lemma OnlyZero(n: int, d: int, p: int, x: int, y: int, z: int)
    requires d * x + p * y == 1 && n * d == z * p && -p < n < p
    ensures n == 0
  {
    Cancel(n, d, p, x, y, z);
    ZeroFactor(n, z * x + n * y, p);
  }

  lemma ZeroFactor(n: int, m: int, p: int)
    requires n == m * p && -p < n < p
    ensures n == 0
  {
    MulSmall(m, p);
  }

  lemma Difference(start: int, k: int, l: int, dec: int, p: int, q: int, r: int)
    requires start - k * dec - q * p == start - l * dec - r * p
    ensures (k - l) * dec == (r - q) * p
  {
    Minus(k, l, dec);
    Minus(r, q, p);
  }

  lemma Minus(a: int, b: int, c: int)
    ensures (a - b) * c == a * c - b * c
  {
  }
}
