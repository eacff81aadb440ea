/** version_compare_part, version_compare and test_version against the ordering of parsed versions. */
module VersionCompare {
  import opened Arith
  import opened VersionOrder

  /** The character at `i`; the end of a string reads as 0. */
  function At(s: seq<Byte>, i: nat): (c: nat)
    ensures c < 256
  {
    if i < |s| then s[i] else 0
  }

  predicate IsText(c: nat)
  {
    c != 0 && !IsDigit(c)
  }

  lemma SameOrder(c: nat, d: nat)
    requires c < 128 && d < 128 && Order(c) == Order(d) && (IsText(c) || IsText(d))
    ensures c == d && IsText(c)
  {
  }

  lemma DifferentOrder(c: nat, d: nat)
    requires Order(c) != Order(d)
    ensures Sign(Order(c) - Order(d)) != 0 && (IsText(c) || IsText(d))
  {
  }

  // ---------- the run of non-digits ----------

  lemma {:induction false} LexSkip(a: seq<int>, b: seq<int>, k: nat)
    requires k <= |a| && k <= |b| && a[..k] == b[..k]
    ensures Lex(a, b) == Lex(a[k..], b[k..])
    decreases k
  {
    if k > 0 {
      assert a[0] == a[..k][0] == b[..k][0] == b[0];
      assert Tail(a)[..k - 1] == a[..k][1..];
      assert Tail(b)[..k - 1] == b[..k][1..];
      LexSkip(Tail(a), Tail(b), k - 1);
    }
  }

  /** The strings agree in their first `k` characters, none of which is a digit. */
  ghost predicate SameText(v: seq<Byte>, w: seq<Byte>, k: nat)
  {
    k <= TextLen(v) && k <= TextLen(w) && v[..k] == w[..k]
  }

  lemma MoreText(v: seq<Byte>, w: seq<Byte>, k: nat)
    requires SameText(v, w, k) && At(v, k) == At(w, k) && IsText(At(v, k))
    ensures k < |v| && k < |w| && SameText(v, w, k + 1)
  {
    TextLenMore(v, k);
    TextLenMore(w, k);
    assert v[..k + 1] == v[..k] + [v[k]];
    assert w[..k + 1] == w[..k] + [w[k]];
  }

  lemma TextLenMore(v: seq<Byte>, k: nat)
    requires k <= TextLen(v)
    ensures IsText(At(v, k)) ==> k < TextLen(v)
    ensures !IsText(At(v, k)) && Ascii(v) ==> k == TextLen(v)
  {
  }

  lemma OrdersFirst(v: seq<Byte>, k: nat)
    requires k <= TextLen(v) && Ascii(v)
    ensures |Orders(HeadText(v))| == TextLen(v) && First(Orders(HeadText(v))[k..]) == Order(At(v, k))
  {
  }

  lemma OrdersPrefix(v: seq<Byte>, w: seq<Byte>, k: nat)
    requires SameText(v, w, k)
    ensures Orders(HeadText(v))[..k] == Orders(HeadText(w))[..k]
  {
    forall i | 0 <= i < k ensures v[i] == w[i] {
      assert v[..k][i] == w[..k][i];
    }
  }

  /** A first difference decides the comparison of the runs. */
  lemma TextDecided(v: seq<Byte>, w: seq<Byte>, k: nat)
    requires SameText(v, w, k) && Ascii(v) && Ascii(w) && Order(At(v, k)) != Order(At(w, k))
    ensures Lex(Orders(HeadText(v)), Orders(HeadText(w))) == Sign(Order(At(v, k)) - Order(At(w, k)))
  {
    hide Order, TextLen, Orders;
    OrdersFirst(v, k);
    OrdersFirst(w, k);
    OrdersPrefix(v, w, k);
    DifferentOrder(At(v, k), At(w, k));
    LexSkip(Orders(HeadText(v)), Orders(HeadText(w)), k);
  }

  lemma TextEqual(v: seq<Byte>, w: seq<Byte>, k: nat)
    requires SameText(v, w, k) && Ascii(v) && Ascii(w) && !IsText(At(v, k)) && !IsText(At(w, k))
    ensures k == TextLen(v) == TextLen(w) && Lex(Orders(HeadText(v)), Orders(HeadText(w))) == 0
  {
    TextLenMore(v, k);
    TextLenMore(w, k);
    LexFlip(Orders(HeadText(v)), Orders(HeadText(v)));
  }

  /** The first inner loop: 0 and the common length, or the difference that decides. */
  method CompareText(v: seq<Byte>, w: seq<Byte>) returns (k: nat, diff: int)
    requires Ascii(v) && Ascii(w)
    ensures Sign(diff) == Lex(Orders(HeadText(v)), Orders(HeadText(w)))
    ensures diff == 0 ==> k == TextLen(v) == TextLen(w)
  {
    hide Lex, TextLen, Order, Orders, SameText, HeadText;
    k := 0;
    NoText(v, w);
    while IsText(At(v, k)) || IsText(At(w, k))
      invariant SameText(v, w, k) && k <= |v|
      decreases |v| - k
    {
      var vc, rc := Order(At(v, k)), Order(At(w, k));
      if vc != rc {
        TextDecided(v, w, k);
        return k, vc - rc;
      }
      SameOrder(At(v, k), At(w, k));
      MoreText(v, w, k);
      k := k + 1;
    }
    TextEqual(v, w, k);
    diff := 0;
  }

  lemma NoText(v: seq<Byte>, w: seq<Byte>)
    ensures SameText(v, w, 0)
  {
    assert v[..0] == w[..0];
  }

  // ---------- numbers ----------

  function Pow10(n: nat): nat
  {
    if n == 0 then 1 else 10 * Pow10(n - 1)
  }

  lemma {:induction false} Pow10Mono(a: nat, b: nat)
    requires a <= b
    ensures Pow10(a) <= Pow10(b)
    decreases b
  {
    if a < b {
      Pow10Mono(a, b - 1);
    }
  }

  lemma {:induction false} ValueBounds(d: seq<Byte>)
    requires AllDigits(d)
    ensures Value(d) < Pow10(|d|)
    ensures d != [] && d[0] != ZERO ==> Value(d) >= Pow10(|d| - 1)
  {
    if d != [] {
      ValueBounds(d[..|d| - 1]);
    }
  }

  /** Without leading zeros a longer number is larger. */
  lemma LongerIsLarger(x: seq<Byte>, y: seq<Byte>)
    requires AllDigits(x) && AllDigits(y) && |x| > |y| && x[0] != ZERO
    ensures Value(x) > Value(y)
  {
    ValueBounds(x);
    ValueBounds(y);
    Pow10Mono(|y|, |x| - 1);
  }

  lemma {:induction false} ZerosDoNotCount(z: seq<Byte>, d: seq<Byte>)
    requires AllDigits(z) && AllDigits(d) && forall i :: 0 <= i < |z| ==> z[i] == ZERO
    ensures AllDigits(z + d) && Value(z + d) == Value(d)
  {
    if d != [] {
      assert (z + d)[..|z + d| - 1] == z + d[..|d| - 1];
      ZerosDoNotCount(z, d[..|d| - 1]);
    } else if z != [] {
      assert (z + d)[..|z + d| - 1] == z[..|z| - 1] + d;
      ZerosDoNotCount(z[..|z| - 1], d);
    }
  }

  lemma ValueSnoc(d: seq<Byte>, c: Byte)
    requires AllDigits(d) && IsDigit(c)
    ensures AllDigits(d + [c]) && Value(d + [c]) == 10 * Value(d) + (c - 48)
  {
    assert (d + [c])[..|d|] == d;
  }

  /** `diff` has the sign of the difference of the numbers read so far. */
  ghost predicate Leading(x: seq<Byte>, y: seq<Byte>, diff: int)
  {
    AllDigits(x) && AllDigits(y) && Sign(diff) == Sign(Value(x) - Value(y))
  }

  lemma LeadingStep(x: seq<Byte>, y: seq<Byte>, diff: int, c: Byte, d: Byte)
    requires Leading(x, y, diff) && IsDigit(c) && IsDigit(d)
    ensures Leading(x + [c], y + [d], if diff == 0 then c - d else diff)
  {
    hide Value;
    ValueSnoc(x, c);
    ValueSnoc(y, d);
  }

  lemma DigitNext(v: seq<Byte>, k: nat)
    requires k <= DigitLen(v)
    ensures IsDigit(At(v, k)) <==> k < DigitLen(v)
  {
  }

  method SkipZeros(v: seq<Byte>) returns (z: nat)
    ensures z <= DigitLen(v) && (z < DigitLen(v) ==> v[z] != ZERO)
    ensures AllDigits(v[z..DigitLen(v)]) && Value(v[z..DigitLen(v)]) == Value(v[..DigitLen(v)])
  {
    hide DigitLen, Value;
    z := 0;
    while At(v, z) == ZERO
      invariant z <= DigitLen(v) && forall i :: 0 <= i < z ==> v[i] == ZERO
      decreases |v| - z
    {
      DigitNext(v, z);
      z := z + 1;
    }
    ZerosDoNotCount(v[..z], v[z..DigitLen(v)]);
    assert v[..z] + v[z..DigitLen(v)] == v[..DigitLen(v)];
  }

  /** The rest of the outer loop: compare two numbers that start the strings. */
  method CompareNumbers(v: seq<Byte>, w: seq<Byte>) returns (i: nat, j: nat, diff: int)
    ensures Sign(diff) == Sign(Value(v[..DigitLen(v)]) - Value(w[..DigitLen(w)]))
    ensures diff == 0 ==> i == DigitLen(v) && j == DigitLen(w)
  {
    hide DigitLen, Value, Leading, Pow10;
    ghost var m, n := DigitLen(v), DigitLen(w);
    i := SkipZeros(v);
    j := SkipZeros(w);
    ghost var p, q := i, j;
    var firstDiff: int := 0;
    assert v[p..p] == [] && w[q..q] == [];
    NoDigits();
    while IsDigit(At(v, i)) && IsDigit(At(w, j))
      invariant p <= i <= m && q <= j <= n && i - p == j - q
      invariant Leading(v[p..i], w[q..j], firstDiff)
      decreases m - i
    {
      DigitNext(v, i);
      DigitNext(w, j);
      LeadingStep(v[p..i], w[q..j], firstDiff, v[i], w[j]);
      assert v[p..i + 1] == v[p..i] + [v[i]];
      assert w[q..j + 1] == w[q..j] + [w[j]];
      if firstDiff == 0 {
        var c: int, d: int := v[i], w[j];
        firstDiff := c - d;
      }
      i := i + 1;
      j := j + 1;
    }
    DigitNext(v, i);
    DigitNext(w, j);
    if IsDigit(At(v, i)) {
      LongerIsLarger(v[p..m], w[q..n]);
      return i, j, 1;
    }
    if IsDigit(At(w, j)) {
      LongerIsLarger(w[q..n], v[p..m]);
      return i, j, -1;
    }
    LeadingIs(v[p..m], w[q..n], firstDiff);
    diff := firstDiff;
  }

  lemma NoDigits()
    ensures Leading([], [], 0)
  {
  }

  lemma LeadingIs(x: seq<Byte>, y: seq<Byte>, diff: int)
    requires Leading(x, y, diff)
    ensures AllDigits(x) && AllDigits(y) && Sign(diff) == Sign(Value(x) - Value(y))
  {
  }

  // ---------- whole versions ----------

  lemma RestAscii(s: seq<Byte>, n: nat)
    requires Ascii(s) && n <= |s|
    ensures Ascii(s[n..])
  {
  }

  lemma SliceTwice(s: seq<Byte>, i: nat, k: nat)
    requires i + k <= |s|
    ensures s[i..][k..] == s[i + k..]
  {
  }

  /** One round of the outer loop: a difference that decides, or how far both pointers move. */
  method Round(v: seq<Byte>, w: seq<Byte>) returns (i: nat, j: nat, diff: int)
    requires Ascii(v) && Ascii(w) && (v != [] || w != [])
    ensures diff != 0 ==> Sign(diff) == Compare(v, w)
    ensures diff == 0 ==> i <= |v| && j <= |w| && i + j > 0 && Compare(v, w) == Compare(v[i..], w[j..])
  {
    hide *;
    OneRound(v, w);
    var k;
    k, diff := CompareText(v, w);
    SignZero(diff);
    if diff != 0 {
      return 0, 0, diff;
    }
    Parts(v);
    Parts(w);
    i, j, diff := CompareNumbers(v[k..], w[k..]);
    SignZero(diff);
    if diff != 0 {
      return i, j, diff;
    }
    i, j := k + i, k + j;
  }

  /** The pointers walk over the strings; the sign of the result is the comparison of the parsed strings. */
  method VersionComparePart(val: seq<Byte>, ref: seq<Byte>) returns (r: int)
    requires Ascii(val) && Ascii(ref)
    ensures Sign(r) == Compare(val, ref)
  {
    hide *;
    var i: nat, j: nat := 0, 0;
    assert val[0..] == val && ref[0..] == ref;
    while i < |val| || j < |ref|
      invariant i <= |val| && j <= |ref| && Compare(val, ref) == Compare(val[i..], ref[j..])
      decreases |val| - i + (|ref| - j)
    {
      RestAscii(val, i);
      RestAscii(ref, j);
      var k, l, diff := Round(val[i..], ref[j..]);
      if diff != 0 {
        return diff;
      }
      SliceTwice(val, i, k);
      SliceTwice(ref, j, l);
      i, j := i + k, j + l;
    }
    assert val[i..] == [] && ref[j..] == [];
    NothingCompares();
    SignZero(0);
    r := 0;
  }

  lemma Parts(v: seq<Byte>)
    ensures var w := v[TextLen(v)..];
            && HeadDigits(v) == w[..DigitLen(w)] && AfterHead(v) == v[TextLen(v) + DigitLen(w)..]
            && (v != [] ==> TextLen(v) + DigitLen(w) > 0)
  {
  }

  /** One round of the outer loop: first the runs of other characters, then the numbers, then the rest. */
  lemma OneRound(v: seq<Byte>, w: seq<Byte>)
    ensures Compare(v, w)
         == if Lex(Orders(HeadText(v)), Orders(HeadText(w))) != 0 then Lex(Orders(HeadText(v)), Orders(HeadText(w)))
            else if Sign(Value(HeadDigits(v)) - Value(HeadDigits(w))) != 0 then Sign(Value(HeadDigits(v)) - Value(HeadDigits(w)))
            else Compare(AfterHead(v), AfterHead(w))
  {
    hide Compare, Lex, Orders, HeadText, HeadDigits, AfterHead, Value;
    CompareUnfolds(v, w);
  }

  lemma SignZero(x: int)
    ensures Sign(x) == 0 <==> x == 0
  {
  }

  lemma NothingCompares()
    ensures Compare([], []) == 0
  {
  }

  // ---------- epoch, upstream version and revision ----------

  /** strchr: the first `c` from `i` on, or the length. */
  function FirstIndex(s: seq<Byte>, c: nat, i: nat): (k: nat)
    requires i <= |s|
    ensures i <= k <= |s| && (k < |s| ==> s[k] == c) && forall j :: i <= j < k ==> s[j] != c
    decreases |s| - i
  {
    if i == |s| || s[i] == c then i else FirstIndex(s, c, i + 1)
  }

  /** strrchr: the last `c` before `n`, or `n` itself. */
  function LastIndex(s: seq<Byte>, c: nat, n: nat): (k: int)
    requires n <= |s|
    ensures -1 <= k < n && (k >= 0 ==> s[k] == c) && forall j :: k < j < n ==> s[j] != c
  {
    if n == 0 then -1 else if s[n - 1] == c then n - 1 else LastIndex(s, c, n - 1)
  }

  function SkipSpace(s: seq<Byte>): seq<Byte>
  {
    if s != [] && (s[0] == 32 || 9 <= s[0] <= 13) then SkipSpace(s[1..]) else s
  }

  /** atoi, converted to a 32-bit unsigned number. */
  function Atoi(s: seq<Byte>): nat
  {
    var t := SkipSpace(s);
    if t != [] && t[0] == DASH then (0x1_0000_0000 - Value(t[1..][..DigitLen(t[1..])]) % 0x1_0000_0000) % 0x1_0000_0000
    else if t != [] && t[0] == 43 then Value(t[1..][..DigitLen(t[1..])]) % 0x1_0000_0000
    else Value(t[..DigitLen(t)]) % 0x1_0000_0000
  }

  datatype Version = Version(epoch: nat, upstream: seq<Byte>, revision: seq<Byte>)

  /** A missing epoch counts as 0, a missing revision as empty; the upstream version may contain dashes. */
  function VersionOf(s: seq<Byte>): Version
  {
    var (epoch, rest) := EpochOf(s);
    var (upstream, revision) := RevisionOf(rest);
    Version(epoch, upstream, revision)
  }

  function EpochOf(s: seq<Byte>): (nat, seq<Byte>)
  {
    var colon := FirstIndex(s, COLON, 0);
    if colon < |s| then (Atoi(s), s[colon + 1..]) else (0, s)
  }

  function RevisionOf(s: seq<Byte>): (seq<Byte>, seq<Byte>)
  {
    var dash := LastIndex(s, DASH, |s|);
    if dash >= 0 then (s[..dash], s[dash + 1..]) else (s, [])
  }

  /** Epochs first, then upstream versions, then revisions. */
  function CompareVersions(v: Version, w: Version): int
  {
    if v.epoch != w.epoch then Sign(v.epoch - w.epoch)
    else if Compare(v.upstream, w.upstream) != 0 then Compare(v.upstream, w.upstream)
    else Compare(v.revision, w.revision)
  }

  lemma CompareOrder(a: seq<Byte>, b: seq<Byte>, c: seq<Byte>)
    ensures Compare(b, a) == -Compare(a, b) && -1 <= Compare(a, b) <= 1
    ensures Compare(a, b) <= 0 && Compare(b, c) <= 0 ==>
              Compare(a, c) <= 0 && (Compare(a, c) == 0 ==> Compare(a, b) == 0 && Compare(b, c) == 0)
    ensures Compare(a, b) == 0 && Compare(b, c) == 0 ==> Compare(a, c) == 0
  {
    hide CompareParts, Parse;
    var p, q, r := Parse(a), Parse(b), Parse(c);
    PartsFlip(p, q);
    PartsFlip(q, r);
    PartsFlip(p, r);
    if CompareParts(p, q) <= 0 && CompareParts(q, r) <= 0 {
      PartsTrans(p, q, r);
    }
    if CompareParts(r, q) <= 0 && CompareParts(q, p) <= 0 {
      PartsTrans(r, q, p);
    }
  }

  /** Versions are totally preordered: antisymmetric in sign, transitive, and any two are comparable. */
  lemma VersionsPreordered(u: Version, v: Version, w: Version)
    ensures CompareVersions(v, u) == -CompareVersions(u, v) && -1 <= CompareVersions(u, v) <= 1 && CompareVersions(u, u) == 0
    ensures CompareVersions(u, v) <= 0 && CompareVersions(v, w) <= 0 ==> CompareVersions(u, w) <= 0
    ensures CompareVersions(u, v) <= 0 && CompareVersions(v, w) < 0 ==> CompareVersions(u, w) < 0
    ensures CompareVersions(u, v) < 0 && CompareVersions(v, w) <= 0 ==> CompareVersions(u, w) < 0
  {
    hide Compare;
    CompareOrder(u.upstream, v.upstream, w.upstream);
    CompareOrder(v.upstream, w.upstream, u.upstream);
    CompareOrder(u.upstream, w.upstream, v.upstream);
    CompareOrder(u.revision, v.revision, w.revision);
    CompareOrder(v.revision, w.revision, u.revision);
    CompareOrder(u.revision, w.revision, v.revision);
    CompareOrder(u.upstream, u.upstream, u.upstream);
    CompareOrder(u.revision, u.revision, u.revision);
  }

  lemma VersionAscii(s: seq<Byte>)
    requires Ascii(s)
    ensures Ascii(VersionOf(s).upstream) && Ascii(VersionOf(s).revision)
  {
  }

  method VersionCompareStrings(s1: seq<Byte>, s2: seq<Byte>) returns (result: int)
    requires Ascii(s1) && Ascii(s2)
    ensures Sign(result) == CompareVersions(VersionOf(s1), VersionOf(s2))
  {
    hide Compare, VersionOf;
    VersionAscii(s1);
    VersionAscii(s2);
    CompareOrder(VersionOf(s1).upstream, VersionOf(s2).upstream, []);
    var epoch1, ver1 := SplitEpoch(s1);
    var epoch2, ver2 := SplitEpoch(s2);
    SplitIs(s1);
    SplitIs(s2);
    if epoch1 < epoch2 {
      return -1;
    }
    if epoch1 > epoch2 {
      return 1;
    }
    var upstream1, revision1 := SplitRevision(ver1);
    var upstream2, revision2 := SplitRevision(ver2);
    result := VersionComparePart(upstream1, upstream2);
    if result == 0 {
      result := VersionComparePart(revision1, revision2);
    }
  }

  /** What stands before and behind the first colon. */
  method SplitEpoch(s: seq<Byte>) returns (epoch: nat, rest: seq<Byte>)
    ensures (epoch, rest) == EpochOf(s)
  {
    hide Atoi;
    epoch, rest := 0, s;
    var colon := FirstIndex(s, COLON, 0);
    if colon < |s| {
      epoch := Atoi(s);
      rest := s[colon + 1..];
    }
  }

  /** What stands before and behind the last dash. */
  method SplitRevision(s: seq<Byte>) returns (upstream: seq<Byte>, revision: seq<Byte>)
    ensures (upstream, revision) == RevisionOf(s)
  {
    upstream, revision := s, [];
    var dash := LastIndex(s, DASH, |s|);
    if dash >= 0 {
      upstream, revision := s[..dash], s[dash + 1..];
    }
  }

  lemma SplitIs(s: seq<Byte>)
    ensures VersionOf(s) == Version(EpochOf(s).0, RevisionOf(EpochOf(s).1).0, RevisionOf(EpochOf(s).1).1)
  {
  }

  // ---------- test_version ----------

  const VER_EQUAL: nat := 1
  const VER_LESS: nat := 2
  const VER_LESS_EQUAL: nat := 3
  const VER_MORE: nat := 4
  const VER_MORE_EQUAL: nat := 5
  const VER_ANY: nat := 6

  /** The test on the outcome of a comparison. */
  predicate TestResult(result: int, operator: nat)
  {
    if operator == VER_ANY then true
    else if operator == VER_EQUAL then result == 0
    else if operator == VER_LESS then result < 0
    else if operator == VER_LESS_EQUAL then result <= 0
    else if operator == VER_MORE then result > 0
    else if operator == VER_MORE_EQUAL then result >= 0
    else false
  }

  /** What the operator says about two versions. */
  predicate Test(v: Version, w: Version, operator: nat)
  {
    TestResult(CompareVersions(v, w), operator)
  }

  method TestVersion(s1: seq<Byte>, s2: seq<Byte>, operator: nat) returns (ok: bool)
    requires Ascii(s1) && Ascii(s2)
    ensures ok == Test(VersionOf(s1), VersionOf(s2), operator)
  {
    hide CompareVersions, VersionOf;
    var result := VersionCompareStrings(s1, s2);
    ok := TestResult(result, operator);
  }

  /** The operators agree with one another, with their mirror images, and chain. */
  lemma OperatorsConsistent(u: Version, v: Version, w: Version)
    ensures Test(u, v, VER_EQUAL) <==> Test(u, v, VER_LESS_EQUAL) && Test(u, v, VER_MORE_EQUAL)
    ensures Test(u, v, VER_LESS) <==> !Test(u, v, VER_MORE_EQUAL)
    ensures Test(u, v, VER_MORE) <==> !Test(u, v, VER_LESS_EQUAL)
    ensures Test(u, v, VER_LESS) <==> Test(v, u, VER_MORE)
    ensures Test(u, v, VER_LESS_EQUAL) <==> Test(v, u, VER_MORE_EQUAL)
    ensures Test(u, v, VER_LESS_EQUAL) && Test(v, w, VER_LESS) ==> Test(u, w, VER_LESS)
    ensures Test(u, v, VER_EQUAL) ==> forall op :: Test(v, w, op) ==> Test(u, w, op)
  {
    hide CompareVersions;
    VersionsPreordered(u, v, w);
    VersionsPreordered(v, u, w);
    VersionsPreordered(w, v, u);
    VersionsPreordered(w, u, v);
  }
}
