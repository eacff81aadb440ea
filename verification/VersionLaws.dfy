/** What the ordering of versions means: where characters sort, what decides first, and what the operators ask for. */
module VersionLaws {
  import opened Arith
  import opened VersionOrder
  import opened VersionCompare

  /** The bytes of an ASCII string. */
  function Bytes(s: string): (r: seq<Byte>)
    requires forall i :: 0 <= i < |s| ==> s[i] < 128 as char
    ensures |r| == |s| && forall i :: 0 <= i < |s| ==> r[i] == s[i] as int
  {
    seq(|s|, i requires 0 <= i < |s| => s[i] as int)
  }

  predicate Letter(c: nat)
  {
    'A' as int <= c <= 'Z' as int || 'a' as int <= c <= 'z' as int
  }

  predicate Digit(c: nat)
  {
    '0' as int <= c <= '9' as int
  }

  // ---------- characters ----------

  /** A tilde, then the end of the text, then letters, then all other characters; letters and others in code order. */
  lemma CharacterOrder(c: nat, d: nat)
    requires 0 < c < 128 && 0 < d < 128 && c != '~' as int
    ensures Order('~' as int) < Order(0)
    ensures Digit(c) ==> Order(c) == Order(0)
    ensures !Digit(c) ==> Order(0) < Order(c)
    ensures Letter(c) && !Letter(d) && !Digit(d) && d != '~' as int ==> Order(c) < Order(d)
    ensures Letter(c) && Letter(d) && c < d ==> Order(c) < Order(d)
    ensures !Letter(c) && !Digit(c) && !Letter(d) && !Digit(d) && d != '~' as int && c < d ==> Order(c) < Order(d)
  {
  }

  // ---------- what decides ----------

  lemma TextEnds(s: seq<Byte>, n: nat)
    requires n <= |s| && (forall i :: 0 <= i < n ==> !IsDigit(s[i])) && (n < |s| ==> IsDigit(s[n]))
    ensures TextLen(s) == n
  {
  }

  lemma DigitsEnd(s: seq<Byte>, n: nat)
    requires n <= |s| && (forall i :: 0 <= i < n ==> IsDigit(s[i])) && (n < |s| ==> !IsDigit(s[n]))
    ensures DigitLen(s) == n
  {
  }

  /** What follows a complete first part does not change it. */
  lemma HeadKept(v: seq<Byte>, x: seq<Byte>)
    requires TextLen(v) < |v| && (AfterHead(v) == [] ==> !IsDigit(At(x, 0)))
    ensures HeadText(v + x) == HeadText(v) && HeadDigits(v + x) == HeadDigits(v) && AfterHead(v + x) == AfterHead(v) + x
  {
    hide TextLen, DigitLen, HeadText, HeadDigits, AfterHead;
    var n := TextLen(v);
    HeadIs(v);
    TextKept(v, x);
    HeadIs(v + x);
    NumberKept(v[n..], x);
  }

  lemma HeadIs(s: seq<Byte>)
    ensures var t := s[TextLen(s)..];
            HeadText(s) == s[..TextLen(s)] && HeadDigits(s) == t[..DigitLen(t)] && AfterHead(s) == t[DigitLen(t)..]
  {
  }

  lemma TextKept(v: seq<Byte>, x: seq<Byte>)
    requires TextLen(v) < |v|
    ensures var n := TextLen(v); TextLen(v + x) == n && (v + x)[..n] == v[..n] && (v + x)[n..] == v[n..] + x
  {
    hide TextLen;
    TextEnds(v + x, TextLen(v));
  }

  lemma NumberKept(t: seq<Byte>, x: seq<Byte>)
    requires DigitLen(t) < |t| || !IsDigit(At(x, 0))
    ensures DigitLen(t + x) == DigitLen(t)
    ensures (t + x)[..DigitLen(t)] == t[..DigitLen(t)] && (t + x)[DigitLen(t)..] == t[DigitLen(t)..] + x
  {
    hide DigitLen;
    DigitsEnd(t + x, DigitLen(t));
  }

  lemma SameRun(a: seq<int>)
    ensures Lex(a, a) == 0
  {
    LexFlip(a, a);
  }

  lemma LastKept(v: seq<Byte>)
    requires AfterHead(v) != []
    ensures v != [] && AfterHead(v)[|AfterHead(v)| - 1] == v[|v| - 1] && |AfterHead(v)| < |v|
  {
    hide TextLen, DigitLen;
  }

  lemma AsciiRest(v: seq<Byte>)
    requires Ascii(v)
    ensures Ascii(AfterHead(v))
  {
    hide TextLen, DigitLen;
  }

  /** The first place where two versions differ in their order, unless it is inside a number, decides. */
  lemma {:induction false} FirstDifference(v: seq<Byte>, x: seq<Byte>, y: seq<Byte>)
    requires Ascii(v) && Ascii(x) && Ascii(y) && Order(At(x, 0)) != Order(At(y, 0))
    requires v != [] && IsDigit(v[|v| - 1]) ==> !IsDigit(At(x, 0)) && !IsDigit(At(y, 0))
    ensures Compare(v + x, v + y) == Sign(Order(At(x, 0)) - Order(At(y, 0)))
    decreases |v|
  {
    hide Compare, Order, Orders, Lex, HeadText, HeadDigits, AfterHead, TextLen, Value;
    OneRound(v + x, v + y);
    if TextLen(v) == |v| {
      DifferAt(v, x, y);
    } else {
      Complete(v, x);
      Complete(v, y);
      HeadKept(v, x);
      HeadKept(v, y);
      SameRun(Orders(HeadText(v)));
      AsciiRest(v);
      if AfterHead(v) != [] {
        LastKept(v);
      }
      FirstDifference(AfterHead(v), x, y);
    }
  }

  lemma Complete(v: seq<Byte>, x: seq<Byte>)
    requires TextLen(v) < |v| && (IsDigit(v[|v| - 1]) ==> !IsDigit(At(x, 0)))
    ensures AfterHead(v) == [] ==> !IsDigit(At(x, 0))
    ensures |AfterHead(v)| < |v|
  {
    hide TextLen, DigitLen;
  }

  lemma DifferAt(v: seq<Byte>, x: seq<Byte>, y: seq<Byte>)
    requires Ascii(v) && Ascii(x) && Ascii(y) && Order(At(x, 0)) != Order(At(y, 0)) && TextLen(v) == |v|
    ensures Lex(Orders(HeadText(v + x)), Orders(HeadText(v + y))) == Sign(Order(At(x, 0)) - Order(At(y, 0))) != 0
  {
    hide Order, Orders, Lex, HeadText;
    TextGoesOn(v, x);
    TextGoesOn(v, y);
    assert (v + x)[..|v|] == v == (v + y)[..|v|];
    assert At(v + x, |v|) == At(x, 0) && At(v + y, |v|) == At(y, 0);
    TextDecided(v + x, v + y, |v|);
    DifferentOrder(At(x, 0), At(y, 0));
  }

  lemma TextGoesOn(v: seq<Byte>, x: seq<Byte>)
    requires TextLen(v) == |v|
    ensures TextLen(v + x) >= |v|
  {
    hide TextLen;
    assert forall i :: 0 <= i < |v| ==> (v + x)[i] == v[i];
  }

  /** A tilde sorts before everything, even the end: a release candidate comes before the release. */
  lemma TildeFirst(v: seq<Byte>, w: seq<Byte>)
    requires Ascii(v) && Ascii(w)
    ensures Compare(v + ['~' as int] + w, v) < 0
  {
    hide Compare;
    assert v + ['~' as int] + w == v + (['~' as int] + w) && v + [] == v;
    FirstDifference(v, ['~' as int] + w, []);
  }

  /** Any other text that is appended makes a version later. */
  lemma TextLater(v: seq<Byte>, c: Byte, w: seq<Byte>)
    requires Ascii(v) && Ascii(w) && 0 < c < 128 && !Digit(c) && c != '~' as int
    ensures Compare(v + [c] + w, v) > 0
  {
    hide Compare;
    assert v + [c] + w == v + ([c] + w) && v + [] == v;
    FirstDifference(v, [c] + w, []);
  }

  /** Letters sort before other characters. */
  lemma LettersFirst(v: seq<Byte>, c: Byte, d: Byte, w: seq<Byte>, u: seq<Byte>)
    requires Ascii(v) && Ascii(w) && Ascii(u) && Letter(c) && 0 < d < 128 && !Letter(d) && !Digit(d) && d != '~' as int
    ensures Compare(v + [c] + w, v + [d] + u) < 0
  {
    hide Compare;
    assert v + [c] + w == v + ([c] + w) && v + [d] + u == v + ([d] + u);
    FirstDifference(v, [c] + w, [d] + u);
  }

  /** In the same place the smaller number decides, however it is written. */
  lemma {:induction false} SmallerNumber(v: seq<Byte>, a: seq<Byte>, b: seq<Byte>, x: seq<Byte>, y: seq<Byte>)
    requires AllDigits(a) && AllDigits(b) && a != [] && b != [] && Value(a) < Value(b)
    requires !IsDigit(At(x, 0)) && !IsDigit(At(y, 0)) && (v != [] ==> !IsDigit(v[|v| - 1]))
    ensures Compare(v + (a + x), v + (b + y)) < 0
    decreases |v|
  {
    hide Compare, Orders, Lex, HeadText, HeadDigits, AfterHead, TextLen, Value;
    OneRound(v + (a + x), v + (b + y));
    if TextLen(v) == |v| {
      NumberAt(v, a, x);
      NumberAt(v, b, y);
      SameRun(Orders(v));
    } else {
      EndsInText(v);
      HeadKept(v, a + x);
      HeadKept(v, b + y);
      SameRun(Orders(HeadText(v)));
      LastKept(v);
      SmallerNumber(AfterHead(v), a, b, x, y);
    }
  }

  lemma EndsInText(v: seq<Byte>)
    requires TextLen(v) < |v| && !IsDigit(v[|v| - 1])
    ensures AfterHead(v) != []
  {
    hide TextLen, DigitLen;
  }

  lemma NumberAt(v: seq<Byte>, a: seq<Byte>, x: seq<Byte>)
    requires TextLen(v) == |v| && AllDigits(a) && a != [] && !IsDigit(At(x, 0))
    ensures HeadText(v + (a + x)) == v && HeadDigits(v + (a + x)) == a
  {
    hide TextLen, DigitLen;
    var s := v + (a + x);
    TextEnds(s, |v|);
    assert AfterText(s) == a + x;
    DigitsEnd(a + x, |a|);
  }

  // ---------- whole versions ----------

  predicate Without(s: seq<Byte>, c: nat)
  {
    forall i :: 0 <= i < |s| ==> s[i] != c
  }

  /** Epoch, upstream version and revision are what stands between the first colon and the last dash. */
  lemma VersionParts(e: seq<Byte>, u: seq<Byte>, r: seq<Byte>)
    requires AllDigits(e) && Without(r, '-' as int)
    ensures VersionOf(e + [':' as int] + (u + ['-' as int] + r)) == Version(Value(e) % 0x1_0000_0000, u, r)
    ensures Without(u, '-' as int) ==> VersionOf(e + [':' as int] + u) == Version(Value(e) % 0x1_0000_0000, u, [])
    ensures Without(u, ':' as int) && Without(r, ':' as int) ==> VersionOf(u + ['-' as int] + r) == Version(0, u, r)
    ensures Without(u, ':' as int) && Without(u, '-' as int) ==> VersionOf(u) == Version(0, u, [])
  {
    hide Atoi;
    EpochAt(e, u + ['-' as int] + r);
    EpochAt(e, u);
    RevisionAt(u, r);
    NoRevision(u);
    if Without(u, ':' as int) && Without(r, ':' as int) {
      assert Without(u + ['-' as int] + r, ':' as int);
    }
  }

  lemma EpochAt(e: seq<Byte>, rest: seq<Byte>)
    requires AllDigits(e)
    ensures EpochOf(e + [':' as int] + rest) == (Value(e) % 0x1_0000_0000, rest)
  {
    hide Value;
    var s := e + [':' as int] + rest;
    var k := FirstIndex(s, COLON, 0);
    assert s[|e|] == COLON;
    assert forall i :: 0 <= i < |e| ==> s[i] == e[i] != COLON;
    assert k == |e|;
    assert SkipSpace(s) == s;
    DigitsEnd(s, |e|);
    assert s[..|e|] == e;
    assert s[0] != DASH && s[0] != 43;
    assert s[k + 1..] == rest;
  }

  lemma RevisionAt(u: seq<Byte>, r: seq<Byte>)
    requires Without(r, '-' as int)
    ensures RevisionOf(u + ['-' as int] + r) == (u, r)
  {
    var s := u + ['-' as int] + r;
    var k := LastIndex(s, DASH, |s|);
    assert s[|u|] == DASH;
    assert forall i :: |u| < i < |s| ==> s[i] == r[i - |u| - 1] != DASH;
    assert k == |u|;
    assert s[..k] == u && s[k + 1..] == r;
  }

  lemma NoRevision(u: seq<Byte>)
    ensures Without(u, '-' as int) ==> RevisionOf(u) == (u, [])
  {
  }

  /** A smaller epoch comes first; then the upstream version decides, and then the revision. */
  lemma WhatDecides(v: Version, w: Version)
    ensures v.epoch < w.epoch ==> CompareVersions(v, w) < 0
    ensures v.epoch == w.epoch && Compare(v.upstream, w.upstream) < 0 ==> CompareVersions(v, w) < 0
    ensures v.epoch == w.epoch && v.upstream == w.upstream && Compare(v.revision, w.revision) < 0 ==> CompareVersions(v, w) < 0
  {
    hide Compare;
    CompareOrder(v.upstream, v.upstream, v.upstream);
    CompareOrder(v.upstream, w.upstream, v.upstream);
  }

  // ---------- operators ----------

  /** Each operator by its number, in terms of the comparison. */
  lemma OperatorsMean(v: Version, w: Version)
    ensures Test(v, w, 1) <==> CompareVersions(v, w) == 0
    ensures Test(v, w, 2) <==> CompareVersions(v, w) < 0
    ensures Test(v, w, 3) <==> CompareVersions(v, w) <= 0
    ensures Test(v, w, 4) <==> CompareVersions(v, w) > 0
    ensures Test(v, w, 5) <==> CompareVersions(v, w) >= 0
    ensures Test(v, w, 6)
    ensures forall op: nat :: op < 1 || op > 6 ==> !Test(v, w, op)
  {
    hide CompareVersions;
  }

  /** A version with a smaller epoch is less, whatever follows. */
  lemma EpochIsLess(d: seq<Byte>, e: seq<Byte>, u: seq<Byte>, w: seq<Byte>)
    requires AllDigits(d) && AllDigits(e) && Value(d) < Value(e) < 0x1_0000_0000
    ensures Test(VersionOf(d + [':' as int] + u), VersionOf(e + [':' as int] + w), VER_LESS)
  {
    hide Value, Compare, Atoi, EpochOf, RevisionOf;
    EpochAt(d, u);
    EpochAt(e, w);
    SplitIs(d + [':' as int] + u);
    SplitIs(e + [':' as int] + w);
  }

  /** A version without epoch and revision is less than the same one with a larger number in some place. */
  lemma NumberIsLess(v: seq<Byte>, a: seq<Byte>, b: seq<Byte>, x: seq<Byte>, y: seq<Byte>)
    requires AllDigits(a) && AllDigits(b) && a != [] && b != [] && Value(a) < Value(b)
    requires !IsDigit(At(x, 0)) && !IsDigit(At(y, 0)) && (v != [] ==> !IsDigit(v[|v| - 1]))
    requires forall c :: c in {':' as int, '-' as int} ==> Without(v + (a + x), c) && Without(v + (b + y), c)
    ensures Test(VersionOf(v + (a + x)), VersionOf(v + (b + y)), VER_LESS)
    ensures !Test(VersionOf(v + (a + x)), VersionOf(v + (b + y)), VER_MORE_EQUAL)
  {
    hide Value, Compare, VersionOf;
    SmallerNumber(v, a, b, x, y);
    VersionParts([], v + (a + x), []);
    VersionParts([], v + (b + y), []);
    WhatDecides(VersionOf(v + (a + x)), VersionOf(v + (b + y)));
  }

  /** A release candidate is less than the release. */
  lemma CandidateIsLess(v: seq<Byte>, w: seq<Byte>)
    requires Ascii(v) && Ascii(w) && forall c :: c in {':' as int, '-' as int} ==> Without(v, c) && Without(w, c)
    ensures Test(VersionOf(v + ['~' as int] + w), VersionOf(v), VER_LESS)
  {
    hide Compare, VersionOf;
    TildeFirst(v, w);
    VersionParts([], v, []);
    VersionParts([], v + ['~' as int] + w, []);
    WhatDecides(VersionOf(v + ['~' as int] + w), VersionOf(v));
  }

  lemma CandidateOfOne()
    ensures Test(VersionOf(Bytes("1.0~rc1")), VersionOf(Bytes("1.0")), VER_LESS)
  {
    hide VersionOf;
    var v, w := Bytes("1.0"), Bytes("rc1");
    assert Bytes("1.0~rc1") == v + ['~' as int] + w;
    CandidateIsLess(v, w);
  }
}
