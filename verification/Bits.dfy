/**
 Bit strings.  Section 3.1.1 of RFC 1951 packs integers least significant bit
 first, and Huffman codes most significant bit first.
 */
module Bits {
  import opened Arith

  type BitString = seq<bool>

  function LsbBits(v: nat, n: nat): (r: BitString)
    ensures |r| == n
  {
    if n == 0 then [] else [v % 2 == 1] + LsbBits(v / 2, n - 1)
  }

  function LsbValue(b: BitString): nat
  {
    if b == [] then 0 else (if b[0] then 1 else 0) + 2 * LsbValue(b[1..])
  }

  function MsbBits(v: nat, n: nat): (r: BitString)
    ensures |r| == n
  {
    if n == 0 then [] else MsbBits(v / 2, n - 1) + [v % 2 == 1]
  }

  function MsbValue(b: BitString): nat
  {
    if b == [] then 0 else 2 * MsbValue(b[..|b| - 1]) + (if b[|b| - 1] then 1 else 0)
  }

  function BytesBits(s: seq<Byte>): (r: BitString)
    ensures |r| == 8 * |s|
  {
    if s == [] then [] else BytesBits(s[..|s| - 1]) + LsbBits(s[|s| - 1], 8)
  }

  /** The bit string `e` occurs in `b` at position `pos`. */
  predicate HasAt(b: BitString, pos: nat, e: BitString)
  {
    pos + |e| <= |b| && b[pos..pos + |e|] == e
  }

  lemma HasAtSplit(b: BitString, pos: nat, e: BitString, f: BitString)
    requires HasAt(b, pos, e + f)
    ensures HasAt(b, pos, e) && HasAt(b, pos + |e|, f)
  {
    var w := b[pos..pos + |e + f|];
    assert w == e + f;
    assert b[pos..pos + |e|] == w[..|e|] == e;
    assert b[pos + |e|..pos + |e| + |f|] == w[|e|..] == f;
  }

  lemma HasAtJoin(b: BitString, pos: nat, e: BitString, f: BitString)
    requires HasAt(b, pos, e) && HasAt(b, pos + |e|, f)
    ensures HasAt(b, pos, e + f)
  {
    assert b[pos..pos + |e| + |f|] == b[pos..pos + |e|] + b[pos + |e|..pos + |e| + |f|];
  }

  lemma {:induction false} LsbSplit(v: nat, a: nat, b: nat)
    ensures LsbBits(v, a + b) == LsbBits(v, a) + LsbBits(Shr(v, a), b)
  {
    if a > 0 {
      LsbSplit(v / 2, a - 1, b);
    }
  }

  lemma {:induction false} LsbMod(v: nat, n: nat)
    ensures LsbBits(v % Pow2(n), n) == LsbBits(v, n)
  {
    if n > 0 {
      ModHalf(v, Pow2(n - 1));
      LsbMod(v / 2, n - 1);
    }
  }

  /** Appending the bits of `b` after the `k` bits of `a`. */
  lemma LsbJoin(a: nat, k: nat, b: nat, n: nat)
    requires a < Pow2(k)
    ensures LsbBits(a + b * Pow2(k), k + n) == LsbBits(a, k) + LsbBits(b, n)
  {
    var v := a + b * Pow2(k);
    LsbSplit(v, k, n);
    ShrIsDiv(v, k);
    DivUnique(v, Pow2(k), b, a);
    LsbMod(v, k);
  }

  lemma {:induction false} LsbZero(n: nat)
    ensures LsbBits(0, n) == seq(n, i => false)
  {
    if n > 0 {
      LsbZero(n - 1);
      assert seq(n, i => false) == [false] + seq(n - 1, i => false);
    }
  }

  lemma {:induction false} LsbValueBits(v: nat, n: nat)
    requires v < Pow2(n)
    ensures LsbValue(LsbBits(v, n)) == v
  {
    if n > 0 {
      LsbValueBits(v / 2, n - 1);
      assert LsbBits(v, n)[1..] == LsbBits(v / 2, n - 1);
    }
  }

  lemma {:induction false} MsbValueBits(v: nat, n: nat)
    requires v < Pow2(n)
    ensures MsbValue(MsbBits(v, n)) == v
  {
    if n > 0 {
      MsbValueBits(v / 2, n - 1);
      assert MsbBits(v, n)[..n - 1] == MsbBits(v / 2, n - 1);
    }
  }

  /** The first `k` bits of a code, most significant first, are its leading bits. */
  lemma {:induction false} MsbPrefix(v: nat, n: nat, k: nat)
    requires k <= n
    ensures MsbBits(v, n)[..k] == MsbBits(Shr(v, n - k), k)
    decreases n
  {
    if k == n {
    } else {
      MsbPrefix(v / 2, n - 1, k);
      assert MsbBits(v, n)[..k] == MsbBits(v / 2, n - 1)[..k];
    }
  }

  lemma {:induction false} BytesBitsConcat(a: seq<Byte>, b: seq<Byte>)
    ensures BytesBits(a + b) == BytesBits(a) + BytesBits(b)
  {
    if b == [] {
      assert a + b == a;
    } else {
      assert (a + b)[..|a + b| - 1] == a + b[..|b| - 1];
      BytesBitsConcat(a, b[..|b| - 1]);
    }
  }

  lemma BytesBitsOne(x: Byte)
    ensures BytesBits([x]) == LsbBits(x, 8)
  {
    assert [x][..0] == [];
    assert BytesBits([]) == [];
    assert [x][|[x]| - 1] == x;
  }

  lemma {:induction false} BytesBitsAt(s: seq<Byte>, i: nat)
    requires i < |s|
    ensures BytesBits(s)[8 * i..8 * i + 8] == LsbBits(s[i], 8)
  {
    if i < |s| - 1 {
      BytesBitsAt(s[..|s| - 1], i);
    }
  }
}
