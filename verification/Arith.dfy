/** Powers of two, finite sums and the C bit operators, on natural numbers. */
module Arith {

  type Byte = x: int | 0 <= x < 256

  function Min(a: int, b: int): int
  {
    if a < b then a else b
  }

  function Max(a: int, b: int): int
  {
    if a < b then b else a
  }

  function Pow2(n: nat): (r: nat)
    ensures r >= 1
  {
    if n == 0 then 1 else 2 * Pow2(n - 1)
  }

  lemma Pow2Add(a: nat, b: nat)
    ensures Pow2(a + b) == Pow2(a) * Pow2(b)
  {
    if b == 0 {
    } else {
      Pow2Add(a, b - 1);
      assert Pow2(a + b) == 2 * Pow2(a + (b - 1));
      assert Pow2(a) * (2 * Pow2(b - 1)) == 2 * (Pow2(a) * Pow2(b - 1));
    }
  }

  lemma Pow2Mono(a: nat, b: nat)
    requires a <= b
    ensures Pow2(a) <= Pow2(b)
  {
    Pow2Add(a, b - a);
    MulMono(Pow2(a), 1, Pow2(b - a));
  }

  lemma Pow2Strict(a: nat, b: nat)
    requires a < b
    ensures Pow2(a) < Pow2(b)
  {
    Pow2Mono(a + 1, b);
  }

  lemma Pow2Of32()
    ensures Pow2(32) == 0x1_0000_0000
  {
    Pow2Values();
  }

  lemma Pow2Of16()
    ensures Pow2(16) == 65536
  {
    Pow2Values();
  }

  lemma Pow2Zero()
    ensures Pow2(0) == 1
  {
  }

  lemma Pow2Of8()
    ensures Pow2(8) == 256
  {
  }

  lemma Pow2Values()
    ensures Pow2(1) == 2 && Pow2(2) == 4 && Pow2(3) == 8 && Pow2(4) == 16 && Pow2(5) == 32
    ensures Pow2(6) == 64 && Pow2(7) == 128 && Pow2(8) == 256 && Pow2(9) == 512
    ensures Pow2(10) == 1024 && Pow2(11) == 2048 && Pow2(12) == 4096 && Pow2(13) == 8192
    ensures Pow2(14) == 16384 && Pow2(15) == 32768 && Pow2(16) == 65536 && Pow2(32) == 0x1_0000_0000
  {
    assert Pow2(8) == 256;
    assert Pow2(16) == 65536 by { Pow2Add(8, 8); }
    Pow2Add(16, 16);
  }

  lemma MulMono(a: nat, x: nat, y: nat)
    requires x <= y
    ensures a * x <= a * y && x * a <= y * a
  {
  }

  lemma DivUnique(v: int, d: int, q: int, r: int)
    requires d > 0 && v == q * d + r && 0 <= r < d
    ensures v / d == q && v % d == r
  {
    var q', r' := v / d, v % d;
    assert v == d * q' + r';
    assert (q - q') * d == r' - r;
    MulSmall(q - q', d);
  }

  lemma MulSmall(x: int, d: int)
    requires -d < x * d < d
    ensures x == 0
  {
    MulGrows(x, d);
    MulGrows(-x, d);
  }

  lemma MulGrows(x: int, d: int)
    requires d > 0
    ensures x >= 1 ==> x * d >= d
  {
  }

  lemma DivMul(q: int, d: int)
    requires d > 0
    ensures q * d / d == q && q * d % d == 0
  {
    DivUnique(q * d, d, q, 0);
  }

  lemma MulSwap(q: nat, a: nat, b: nat)
    ensures q * b * a == q * (a * b)
  {
  }

  lemma MulPlus(x: nat, y: nat, a: nat)
    ensures (x + y) * a == x * a + y * a
  {
  }

  lemma DivMod(v: nat, a: nat)
    requires a > 0
    ensures v == v / a * a + v % a && 0 <= v % a < a
  {
  }

  lemma TwoDigits(v: nat, w: nat, q: nat, a: nat, b: nat, r1: nat, r2: nat)
    requires v == w * a + r1 && r1 < a && w == q * b + r2 && r2 < b
    ensures v == q * (a * b) + (r2 * a + r1) && r2 * a + r1 < a * b
  {
    MulPlus(q * b, r2, a);
    MulSwap(q, a, b);
    MulLess(a, r2, b);
  }

  lemma DivDiv(v: nat, a: nat, b: nat)
    requires a > 0 && b > 0
    ensures v / (a * b) == v / a / b
  {
    var w, r1 := v / a, v % a;
    var q, r2 := w / b, w % b;
    DivMod(v, a);
    DivMod(w, b);
    TwoDigits(v, w, q, a, b, r1, r2);
    DivUnique(v, a * b, q, r2 * a + r1);
  }

  lemma ModMul(v: nat, p: nat, q: nat)
    requires p > 0 && q > 0
    ensures v * p % (p * q) == v % q * p
  {
    var d, r := v / q, v % q;
    assert v * p == d * (p * q) + r * p by {
      assert v == d * q + r;
      assert (d * q + r) * p == d * (p * q) + r * p;
    }
    MulLess(p, r, q);
    DivUnique(v * p, p * q, d, r * p);
  }

  lemma MulLess(p: nat, r: nat, q: nat)
    requires r < q && p > 0
    ensures r * p < p * q && r * p + p <= p * q
  {
    MulMono(p, r + 1, q);
  }

  lemma ModSmall(v: nat, d: nat)
    requires v < d
    ensures v % d == v && v / d == 0
  {
    DivUnique(v, d, 0, v);
  }

  // ---------- sums ----------

  function Sum(s: seq<int>): int
  {
    if s == [] then 0 else Sum(s[..|s| - 1]) + s[|s| - 1]
  }

  lemma {:induction false} SumUpdate(s: seq<int>, i: nat, v: int)
    requires i < |s|
    ensures Sum(s[i := v]) == Sum(s) - s[i] + v
  {
    var n := |s| - 1;
    if i == n {
      assert s[i := v][..n] == s[..n];
    } else {
      assert s[i := v][..n] == s[..n][i := v];
      SumUpdate(s[..n], i, v);
    }
  }

  lemma {:induction false} SumConcat(a: seq<int>, b: seq<int>)
    ensures Sum(a + b) == Sum(a) + Sum(b)
  {
    if b == [] {
      assert a + b == a;
    } else {
      assert (a + b)[..|a + b| - 1] == a + b[..|b| - 1];
      SumConcat(a, b[..|b| - 1]);
    }
  }

  lemma {:induction false} SumZero(s: seq<int>)
    requires forall i :: 0 <= i < |s| ==> s[i] == 0
    ensures Sum(s) == 0
  {
    if s != [] {
      SumZero(s[..|s| - 1]);
    }
  }

  lemma {:induction false} SumNonNeg(s: seq<int>)
    requires forall i :: 0 <= i < |s| ==> s[i] >= 0
    ensures Sum(s) >= 0
    ensures forall i :: 0 <= i < |s| ==> s[i] <= Sum(s)
  {
    if s != [] {
      SumNonNeg(s[..|s| - 1]);
      assert forall i :: 0 <= i < |s| - 1 ==> s[i] == s[..|s| - 1][i];
    }
  }

  lemma {:induction false} SumLe(s: seq<int>, t: seq<int>)
    requires |s| == |t| && forall i :: 0 <= i < |s| ==> s[i] <= t[i]
    ensures Sum(s) <= Sum(t)
  {
    if s != [] {
      SumLe(s[..|s| - 1], t[..|t| - 1]);
    }
  }

  lemma {:induction false} SumAdd(s: seq<int>, t: seq<int>, u: seq<int>)
    requires |s| == |t| == |u| && forall i :: 0 <= i < |s| ==> s[i] + t[i] == u[i]
    ensures Sum(s) + Sum(t) == Sum(u)
  {
    if s != [] {
      SumAdd(s[..|s| - 1], t[..|t| - 1], u[..|u| - 1]);
    }
  }

  // ---------- C operators ----------

  /** `a | b` on unsigned numbers. */
  function BitOr(a: nat, b: nat): nat
    decreases a + b
  {
    if a == 0 then b else if b == 0 then a
    else 2 * BitOr(a / 2, b / 2) + (if a % 2 == 1 || b % 2 == 1 then 1 else 0)
  }

  /** `a ^ b` on unsigned numbers. */
  function BitXor(a: nat, b: nat): nat
    decreases a + b
  {
    if a == 0 then b else if b == 0 then a
    else 2 * BitXor(a / 2, b / 2) + (a + b) % 2
  }

  /** `a << k` on a 32-bit unsigned. */
  function Shl32(a: nat, k: nat): nat
  {
    a * Pow2(k) % 0x1_0000_0000
  }

  /** `a >> k`. */
  function Shr(a: nat, k: nat): nat
  {
    if k == 0 then a else Shr(a / 2, k - 1)
  }

  lemma {:induction false} ShrIsDiv(v: nat, k: nat)
    ensures Shr(v, k) == v / Pow2(k)
  {
    if k > 0 {
      ShrIsDiv(v / 2, k - 1);
      DivDiv(v, 2, Pow2(k - 1));
    }
  }

  lemma ShrNone(v: nat)
    ensures Shr(v, 0) == v
  {
  }

  lemma {:induction false} ShrLess(v: nat, k: nat, n: nat)
    requires v < Pow2(k + n)
    ensures Shr(v, k) < Pow2(n)
  {
    if k > 0 {
      assert Pow2(k + n) == 2 * Pow2(k - 1 + n);
      ShrLess(v / 2, k - 1, n);
    }
  }

  lemma {:induction false} ShrZero(v: nat, k: nat)
    requires v < Pow2(k)
    ensures Shr(v, k) == 0
  {
    ShrLess(v, k, 0);
  }

  lemma {:induction false} BitOrDisjoint(a: nat, b: nat, k: nat)
    requires a < Pow2(k)
    ensures BitOr(a, b * Pow2(k)) == a + b * Pow2(k)
  {
    if k == 0 || a == 0 || b == 0 {
    } else {
      var c := b * Pow2(k - 1);
      assert b * Pow2(k) == 2 * c;
      BitOrDisjoint(a / 2, b, k - 1);
    }
  }

  lemma {:induction false} BitXorStep(a: nat, b: nat)
    ensures BitXor(a, b) == 2 * BitXor(a / 2, b / 2) + (a + b) % 2
  {
  }

  /** Xor commutes with reduction modulo a power of two. */
  lemma {:induction false} BitXorMod(a: nat, b: nat, k: nat)
    ensures BitXor(a, b) % Pow2(k) == BitXor(a % Pow2(k), b % Pow2(k))
    decreases k
  {
    if k > 0 {
      var p := Pow2(k - 1);
      var x := BitXor(a, b);
      var y := BitXor(a % (2 * p), b % (2 * p));
      BitXorStep(a, b);
      assert x / 2 == BitXor(a / 2, b / 2) && x % 2 == (a + b) % 2;
      assert y == 2 * BitXor(a / 2 % p, b / 2 % p) + (a + b) % 2 by {
        ModHalf(a, p);
        ModHalf(b, p);
        BitXorStep(a % (2 * p), b % (2 * p));
        ParitySum(a, b, a % (2 * p), b % (2 * p));
      }
      BitXorMod(a / 2, b / 2, k - 1);
      ModHalf(x, p);
    }
  }

  lemma ParitySum(a: nat, b: nat, c: nat, d: nat)
    requires a % 2 == c % 2 && b % 2 == d % 2
    ensures (a + b) % 2 == (c + d) % 2
  {
  }

  lemma ModHalf(v: nat, p: nat)
    requires p > 0
    ensures v % (2 * p) == 2 * (v / 2 % p) + v % 2
    ensures v % (2 * p) / 2 == v / 2 % p
    ensures v % (2 * p) % 2 == v % 2
  {
    var q := v / 2 / p;
    assert v / 2 == q * p + v / 2 % p;
    assert v == 2 * (v / 2) + v % 2;
    assert v == q * (2 * p) + (2 * (v / 2 % p) + v % 2);
    DivUnique(v, 2 * p, q, 2 * (v / 2 % p) + v % 2);
  }

  lemma BitXorZero(b: nat)
    ensures BitXor(0, b) == b
  {
  }

  lemma HalvesEqual(x: nat, p: nat, y: nat, q: nat)
    requires 2 * x + p == 2 * y + q && p < 2 && q < 2
    ensures x == y && p == q
  {
  }

  lemma ParityCancel(a: nat, b: nat, c: nat)
    requires (a + b) % 2 == (a + c) % 2
    ensures b % 2 == c % 2
  {
  }

  lemma {:induction false} BitXorCancel(a: nat, b: nat, c: nat)
    requires BitXor(a, b) == BitXor(a, c)
    ensures b == c
    decreases a
  {
    hide BitXor;
    if a == 0 {
      BitXorZero(b);
      BitXorZero(c);
    } else {
      BitXorStep(a, b);
      BitXorStep(a, c);
      HalvesEqual(BitXor(a / 2, b / 2), (a + b) % 2, BitXor(a / 2, c / 2), (a + c) % 2);
      ParityCancel(a, b, c);
      BitXorCancel(a / 2, b / 2, c / 2);
    }
  }
}
