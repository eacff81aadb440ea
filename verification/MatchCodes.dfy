/**
 Symbols for match lengths and distances: the tables that ct_init fills, proved
 to agree with section 3.2.5 of RFC 1951.
 */
module MatchCodes {
  import opened Arith
  import opened Inflate

  const MIN_MATCH: nat := 3
  const MAX_MATCH: nat := 258
  const LENGTH_CODES: nat := 29
  const LITERALS: nat := 256
  const END_BLOCK: nat := 256
  const D_CODES: nat := 30

  const EXTRA_LBITS: seq<nat> :=
    [0, 0, 0, 0, 0, 0, 0, 0, 1, 1, 1, 1, 2, 2, 2, 2, 3, 3, 3, 3, 4, 4, 4, 4, 5, 5, 5, 5, 0]
  const EXTRA_DBITS: seq<nat> :=
    [0, 0, 0, 0, 1, 1, 2, 2, 3, 3, 4, 4, 5, 5, 6, 6, 7, 7, 8, 8, 9, 9, 10, 10, 11, 11, 12, 12, 13, 13]

  lemma ExtraTables()
    ensures EXTRA_LBITS == LENGTH_EXTRA && EXTRA_DBITS == DIST_EXTRA
    ensures |LENGTH_BASE| == |LENGTH_EXTRA| == LENGTH_CODES && |DIST_BASE| == |DIST_EXTRA| == D_CODES
  {
  }

  /** A symbol for lengths of 3 plus up to 255, with the excess over its base in the extra bits. */
  predicate LengthFits(lc: nat, c: nat)
  {
    c < LENGTH_CODES && LENGTH_BASE[c] <= lc + MIN_MATCH < LENGTH_BASE[c] + Pow2(LENGTH_EXTRA[c])
  }

  predicate DistFits(d: nat, c: nat)
  {
    c < D_CODES && DIST_BASE[c] <= d + 1 < DIST_BASE[c] + Pow2(DIST_EXTRA[c])
  }

  /** Where the lengths of code `c` start; the last code is entered separately. */
  function LengthStart(c: nat): int
    requires c < LENGTH_CODES
  {
    if c == 28 then 256 else LENGTH_BASE[c] - MIN_MATCH
  }

  function DistStart(c: nat): int
    requires c <= D_CODES
  {
    if c == 30 then 32768 else DIST_BASE[c] - 1
  }

  lemma LengthStep(c: nat)
    requires c < 28
    ensures LengthStart(c + 1) == LengthStart(c) + Pow2(EXTRA_LBITS[c])
    ensures EXTRA_LBITS[c] == LENGTH_EXTRA[c]
  {
    Pow2Values();
  }

  lemma DistStep(c: nat)
    requires c < 30
    ensures DistStart(c + 1) == DistStart(c) + Pow2(EXTRA_DBITS[c])
    ensures EXTRA_DBITS[c] == DIST_EXTRA[c]
    ensures c >= 16 ==> DistStart(c) % 128 == 0 && EXTRA_DBITS[c] >= 7
  {
    Pow2Values();
  }

  // ---------- the tables ----------

  /** Macro D_CODE: `d` is the match distance less one. */
  function DCode(distCode: seq<nat>, d: nat): nat
    requires |distCode| == 512 && d < 32768
  {
    if d < 256 then distCode[d] else distCode[256 + d / 128]
  }

  datatype Tables = Tables(lengthCode: seq<nat>, baseLength: seq<nat>, distCode: seq<nat>, baseDist: seq<nat>)

  ghost predicate LengthEntry(lengthCode: seq<nat>, baseLength: seq<nat>, lc: nat)
    requires lc < |lengthCode|
  {
    var c := lengthCode[lc];
    && LengthFits(lc, c) && c < |baseLength|
    && (EXTRA_LBITS[c] != 0 ==> baseLength[c] == LENGTH_BASE[c] - MIN_MATCH)
  }

  ghost predicate DistEntry(distCode: seq<nat>, baseDist: seq<nat>, d: nat)
    requires |distCode| == 512 && d < 32768
  {
    var c := DCode(distCode, d);
    DistFits(d, c) && c < |baseDist| && baseDist[c] == DIST_BASE[c] - 1
  }

  ghost predicate ValidTables(tb: Tables)
  {
    && |tb.lengthCode| == 256 && |tb.baseLength| == LENGTH_CODES && |tb.distCode| == 512 && |tb.baseDist| == D_CODES
    && (forall lc :: 0 <= lc < 256 ==> LengthEntry(tb.lengthCode, tb.baseLength, lc))
    && (forall d :: 0 <= d < 32768 ==> DistEntry(tb.distCode, tb.baseDist, d))
  }

  method InitLengths(lengthCode: array<nat>, baseLength: array<nat>)
    requires lengthCode != baseLength && lengthCode.Length == 256 && baseLength.Length == LENGTH_CODES
    modifies lengthCode, baseLength
    ensures forall lc :: 0 <= lc < 256 ==> LengthEntry(lengthCode[..], baseLength[..], lc)
  {
    hide LengthFits, Pow2, LengthStart;
    var length, code := 0, 0;
    LengthStarts();
    while code < LENGTH_CODES - 1
      invariant 0 <= code <= 28 && length == LengthStart(code) <= 256
      invariant forall c :: 0 <= c < code ==> baseLength[c] == LengthStart(c)
      invariant forall lc :: 0 <= lc < length ==> lengthCode[lc] < 28 && LengthFits(lc, lengthCode[lc])
    {
      LengthStep(code);
      LengthBound(code + 1);
      baseLength[code] := length;
      ghost var start := length;
      var n := 0;
      while n < Pow2(EXTRA_LBITS[code])
        invariant 0 <= n <= Pow2(EXTRA_LBITS[code]) && length == start + n
        invariant forall c :: 0 <= c <= code ==> baseLength[c] == LengthStart(c)
        invariant forall lc :: 0 <= lc < length ==> lengthCode[lc] < 28 && LengthFits(lc, lengthCode[lc])
      {
        LengthOf(code, length);
        lengthCode[length] := code;
        length := length + 1;
        n := n + 1;
      }
      code := code + 1;
    }
    lengthCode[length - 1] := code;
    forall lc | 0 <= lc < 256 ensures LengthEntry(lengthCode[..], baseLength[..], lc) {
      LengthLookup(lengthCode[..], baseLength[..], lc);
    }
  }

  lemma LengthStarts()
    ensures LengthStart(0) == 0 && LengthStart(28) == 256
  {
  }

  lemma LengthLookup(lengthCode: seq<nat>, baseLength: seq<nat>, lc: nat)
    requires |lengthCode| == 256 && |baseLength| == LENGTH_CODES && lc < 256
    requires forall c :: 0 <= c < 28 ==> baseLength[c] == LengthStart(c)
    requires if lc == 255 then lengthCode[lc] == 28 else lengthCode[lc] < 28 && LengthFits(lc, lengthCode[lc])
    ensures LengthEntry(lengthCode, baseLength, lc)
  {
    hide Pow2;
    LastLength();
  }

  lemma LengthBound(c: nat)
    requires c < LENGTH_CODES
    ensures LengthStart(c) <= 256
  {
  }

  lemma LengthOf(c: nat, lc: nat)
    requires c < 28 && LengthStart(c) <= lc < LengthStart(c) + Pow2(EXTRA_LBITS[c])
    ensures LengthFits(lc, c)
  {
    LengthStep(c);
  }

  lemma LastLength()
    ensures LengthFits(255, 28) && EXTRA_LBITS[28] == 0
  {
  }

  /** All distances in a group of 128 have the code `c`. */
  predicate GroupFits(k: nat, c: nat)
  {
    c < D_CODES && DIST_BASE[c] - 1 <= 128 * k && 128 * k + 128 <= DIST_BASE[c] - 1 + Pow2(DIST_EXTRA[c])
  }

  ghost predicate FarEntry(distCode: seq<nat>, k: nat)
    requires |distCode| == 512 && k < 256
  {
    GroupFits(k, distCode[256 + k])
  }

  method InitDists(distCode: array<nat>, baseDist: array<nat>)
    requires distCode != baseDist && distCode.Length == 512 && baseDist.Length == D_CODES
    modifies distCode, baseDist
    ensures forall d :: 0 <= d < 32768 ==> DistEntry(distCode[..], baseDist[..], d)
  {
    hide DistFits, GroupFits, Pow2, DistStart;
    var dist, code := 0, 0;
    DistStarts();
    while code < 16
      invariant 0 <= code <= 16 && dist == DistStart(code) <= 256
      invariant forall c :: 0 <= c < code ==> baseDist[c] == DistStart(c)
      invariant forall d :: 0 <= d < dist ==> distCode[d] < 16 && DistFits(d, distCode[d])
    {
      DistStep(code);
      DistBound(code + 1);
      baseDist[code] := dist;
      ghost var start := dist;
      var n := 0;
      while n < Pow2(EXTRA_DBITS[code])
        invariant 0 <= n <= Pow2(EXTRA_DBITS[code]) && dist == start + n
        invariant forall c :: 0 <= c <= code ==> baseDist[c] == DistStart(c)
        invariant forall d :: 0 <= d < dist ==> distCode[d] < 16 && DistFits(d, distCode[d])
      {
        DistOf(code, dist);
        distCode[dist] := code;
        dist := dist + 1;
        n := n + 1;
      }
      code := code + 1;
    }
    InitFarDists(distCode, baseDist);
  }

  /** The second loop of ct_init over distances, in units of 128. */
  method InitFarDists(distCode: array<nat>, baseDist: array<nat>)
    requires distCode != baseDist && distCode.Length == 512 && baseDist.Length == D_CODES
    requires forall c :: 0 <= c < 16 ==> baseDist[c] == DistStart(c)
    requires forall d :: 0 <= d < 256 ==> distCode[d] < 16 && DistFits(d, distCode[d])
    modifies distCode, baseDist
    ensures forall d :: 0 <= d < 32768 ==> DistEntry(distCode[..], baseDist[..], d)
  {
    hide DistFits, GroupFits, Pow2, DistStart;
    DistStarts();
    var dist, code := 2, 16;
    while code < D_CODES
      invariant 16 <= code <= 30 && 128 * dist == DistStart(code) <= 32768 && dist >= 2
      invariant forall c :: 0 <= c < code ==> baseDist[c] == DistStart(c)
      invariant forall d :: 0 <= d < 256 ==> distCode[d] < 16 && DistFits(d, distCode[d])
      invariant forall k :: 2 <= k < dist ==> FarEntry(distCode[..], k)
    {
      DistStep(code);
      DistBound(code + 1);
      FarStep(code);
      baseDist[code] := 128 * dist;
      ghost var start := dist;
      var n := 0;
      while n < Pow2(EXTRA_DBITS[code] - 7)
        invariant 0 <= n <= Pow2(EXTRA_DBITS[code] - 7) && dist == start + n
        invariant forall c :: 0 <= c <= code ==> baseDist[c] == DistStart(c)
        invariant forall d :: 0 <= d < 256 ==> distCode[d] < 16 && DistFits(d, distCode[d])
        invariant forall k :: 2 <= k < dist ==> FarEntry(distCode[..], k)
      {
        GroupOf(code, start, dist);
        ghost var before := distCode[..];
        distCode[256 + dist] := code;
        forall k | 2 <= k < dist ensures FarEntry(distCode[..], k) {
          assert FarEntry(before, k);
        }
        dist := dist + 1;
        n := n + 1;
      }
      code := code + 1;
    }
    forall d | 0 <= d < 32768 ensures DistEntry(distCode[..], baseDist[..], d) {
      DistLookup(distCode[..], baseDist[..], d);
    }
  }

  lemma DistStarts()
    ensures DistStart(0) == 0 && DistStart(16) == 256 && DistStart(30) == 32768
  {
  }

  lemma DistBound(c: nat)
    requires c <= D_CODES
    ensures DistStart(c) <= 32768 && (c <= 16 ==> DistStart(c) <= 256)
  {
  }

  lemma DistOf(c: nat, d: nat)
    requires c < 30 && DistStart(c) <= d < DistStart(c) + Pow2(EXTRA_DBITS[c])
    ensures DistFits(d, c)
  {
    DistStep(c);
  }

  lemma FarStep(c: nat)
    requires 16 <= c < 30
    ensures EXTRA_DBITS[c] >= 7 && Pow2(EXTRA_DBITS[c]) == 128 * Pow2(EXTRA_DBITS[c] - 7)
  {
    DistStep(c);
    Pow2Values();
    Pow2Add(7, EXTRA_DBITS[c] - 7);
  }

  lemma GroupOf(c: nat, start: nat, k: nat)
    requires 16 <= c < 30 && 128 * start == DistStart(c) && EXTRA_DBITS[c] >= 7
    requires start <= k < start + Pow2(EXTRA_DBITS[c] - 7)
    ensures GroupFits(k, c)
  {
    hide Pow2;
    DistStep(c);
    FarStep(c);
  }

  lemma DistLookup(distCode: seq<nat>, baseDist: seq<nat>, d: nat)
    requires |distCode| == 512 && |baseDist| == D_CODES && d < 32768
    requires forall c :: 0 <= c < D_CODES ==> baseDist[c] == DistStart(c)
    requires forall i :: 0 <= i < 256 ==> distCode[i] < 16 && DistFits(i, distCode[i])
    requires forall k :: 2 <= k < 256 ==> FarEntry(distCode, k)
    ensures DistEntry(distCode, baseDist, d)
  {
    hide Pow2;
    if d >= 256 {
      assert FarEntry(distCode, d / 128);
    }
  }
}
