/** Code tables of gzip, and the assignment of canonical codes to them. */
module CodeTables {
  import opened Arith
  import opened Bits
  import opened Canonical

  /**
   One entry of a code table.  As in struct ct_data each field has two lives:
   `fc` is a frequency and later a code, `dl` a father node and later a length.
   */
  datatype CtData = CtData(fc: nat, dl: nat)

  ghost function Lens(t: seq<CtData>, n: nat): (r: Lengths)
    requires n <= |t|
    ensures |r| == n && forall i :: 0 <= i < n ==> r[i] == t[i].dl
  {
    seq(n, i requires 0 <= i < n => t[i].dl)
  }

  /** Sending entry `i` of the table sends the canonical code of symbol `i`. */
  ghost predicate HoldsCode(t: seq<CtData>, lens: Lengths, i: nat)
    requires i < |lens| <= |t|
  {
    t[i].dl == lens[i] && t[i].fc < Pow2(lens[i]) && LsbBits(t[i].fc, lens[i]) == CodeBits(lens, i)
  }

  ghost predicate HoldsCodes(t: seq<CtData>, lens: Lengths)
  {
    |lens| <= |t| && forall i :: 0 <= i < |lens| && lens[i] > 0 ==> HoldsCode(t, lens, i)
  }

  // ---------- bi_reverse ----------

  method BiReverse(code: nat, len: nat) returns (r: nat)
    requires len >= 1
    ensures r < Pow2(len)
    ensures LsbBits(r, len) == MsbBits(code, len)
  {
    var c, k, res := code, len, 0;
    ghost var j := 0;
    while true
      invariant 1 <= k <= len && j == len - k
      invariant c == Shr(code, j)
      invariant res == 2 * MsbValue(LsbBits(code, j))
      decreases k
    {
      BitOrLow(res, c % 2);
      res := BitOr(res, c % 2);
      LsbSnoc(code, j);
      j := j + 1;
      assert res == MsbValue(LsbBits(code, j));
      k := k - 1;
      if k <= 0 {
        Reversal(code, len);
        MsbValueBound(LsbBits(code, len));
        return res;
      }
      ShrHalf(code, j - 1);
      c := c / 2;
      res := 2 * res;
    }
  }

  lemma BitOrLow(a: nat, b: nat)
    requires a % 2 == 0 && b < 2
    ensures BitOr(a, b) == a + b
  {
  }

  lemma {:induction false} ShrHalf(v: nat, k: nat)
    ensures Shr(v, k + 1) == Shr(v, k) / 2
  {
    if k > 0 {
      ShrHalf(v / 2, k - 1);
    }
  }

  lemma {:induction false} LsbSnoc(v: nat, n: nat)
    ensures LsbBits(v, n + 1) == LsbBits(v, n) + [Shr(v, n) % 2 == 1]
  {
    if n > 0 {
      LsbSnoc(v / 2, n - 1);
    }
  }

  lemma {:induction false} MsbCons(v: nat, n: nat)
    ensures MsbBits(v, n + 1) == [Shr(v, n) % 2 == 1] + MsbBits(v, n)
  {
    if n > 0 {
      MsbCons(v / 2, n - 1);
    }
  }

  lemma {:induction false} MsbValueBound(b: BitString)
    ensures MsbValue(b) < Pow2(|b|)
  {
    if b != [] {
      MsbValueBound(b[..|b| - 1]);
    }
  }

  /** Reading the low bits of a code backwards gives its bits most significant first. */
  lemma {:induction false} Reversal(v: nat, n: nat)
    ensures LsbBits(MsbValue(LsbBits(v, n)), n) == MsbBits(v, n)
  {
    if n > 0 {
      Reversal(v, n - 1);
      LsbSnoc(v, n - 1);
      MsbCons(v, n - 1);
      assert LsbBits(v, n)[..n - 1] == LsbBits(v, n - 1);
    }
  }

  // ---------- gen_codes ----------

  method FirstCodes(blCount: array<nat>, ghost lens: Lengths) returns (nextCode: array<nat>)
    requires blCount.Length == MAX_BITS + 1 && blCount[0] == 0
    requires forall b :: 1 <= b <= MAX_BITS ==> blCount[b] == Count(lens, b)
    ensures fresh(nextCode) && nextCode.Length == MAX_BITS + 1
    ensures forall b :: 1 <= b <= MAX_BITS ==> nextCode[b] == FirstCode(lens, b)
  {
    nextCode := new nat[MAX_BITS + 1];
    var code := 0;
    var bits := 1;
    while bits <= MAX_BITS
      invariant 1 <= bits <= MAX_BITS + 1
      invariant code == FirstCode(lens, bits - 1)
      invariant forall b :: 1 <= b < bits ==> nextCode[b] == FirstCode(lens, b)
    {
      code := (code + blCount[bits - 1]) * 2;
      nextCode[bits] := code;
      bits := bits + 1;
    }
  }

  method GenCodes(tree: array<CtData>, maxCode: nat, blCount: array<nat>, ghost lens: Lengths)
    requires maxCode < tree.Length && lens == Lens(tree[..], maxCode + 1)
    requires blCount.Length == MAX_BITS + 1 && blCount[0] == 0
    requires forall b :: 1 <= b <= MAX_BITS ==> blCount[b] == Count(lens, b)
    requires Bounded(lens, MAX_BITS)
    modifies tree
    ensures forall i :: 0 <= i < tree.Length ==> tree[i].dl == old(tree[i].dl)
    ensures forall i :: maxCode < i < tree.Length ==> tree[i] == old(tree[i])
    ensures HoldsCodes(tree[..], lens)
  {
    hide FirstCode, CodeBits, Pow2, LsbBits, MsbBits, Code;
    var nextCode := FirstCodes(blCount, lens);
    var n := 0;
    while n <= maxCode
      invariant 0 <= n <= maxCode + 1
      invariant forall l :: 1 <= l <= MAX_BITS ==> nextCode[l] == FirstCode(lens, l) + Count(lens[..n], l)
      invariant forall i :: 0 <= i < tree.Length ==> tree[i].dl == old(tree[i].dl)
      invariant forall i :: maxCode < i < tree.Length ==> tree[i] == old(tree[i])
      invariant forall i :: 0 <= i < n && lens[i] > 0 ==> HoldsCode(tree[..], lens, i)
    {
      var len := tree[n].dl;
      CountStep(lens, n);
      if len != 0 {
        var rev := BiReverse(nextCode[len], len);
        CodeOf(lens, n, nextCode[len], rev);
        nextCode[len] := nextCode[len] + 1;
        tree[n] := tree[n].(fc := rev);
      }
      n := n + 1;
    }
  }

  lemma CountStep(lens: Lengths, n: nat)
    requires n < |lens|
    ensures forall l :: Count(lens[..n + 1], l) == Count(lens[..n], l) + (if lens[n] == l then 1 else 0)
  {
    assert lens[..n + 1][..n] == lens[..n];
  }

  lemma CodeOf(lens: Lengths, n: nat, code: nat, rev: nat)
    requires n < |lens| && lens[n] > 0
    requires code == FirstCode(lens, lens[n]) + Count(lens[..n], lens[n])
    requires LsbBits(rev, lens[n]) == MsbBits(code, lens[n])
    ensures LsbBits(rev, lens[n]) == CodeBits(lens, n)
  {
  }
}
