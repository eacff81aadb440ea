/**
 Debian version ordering, section 5.6.12 of the Debian Policy Manual: comparison of
 parsed versions, proved to be a total preorder.
 */
module VersionOrder {
  import opened Arith

  const TILDE: nat := 126
  const ZERO: nat := 48
  const COLON: nat := 58
  const DASH: nat := 45

  predicate IsDigit(c: nat)
  {
    48 <= c <= 57
  }

  predicate IsAlpha(c: nat)
  {
    65 <= c <= 90 || 97 <= c <= 122
  }

  /** Letters sort before other characters, and a tilde before everything, even the end. */
  function Order(c: nat): int
  {
    if c == TILDE then -1 else if c == 0 then 0 else if IsDigit(c) then 0 else if IsAlpha(c) then c else c + 256
  }

  /** A C string of ASCII characters: no byte is 0. */
  predicate Ascii(s: seq<Byte>)
  {
    forall i :: 0 <= i < |s| ==> 0 < s[i] < 128
  }

  function Sign(x: int): int
  {
    if x < 0 then -1 else if x > 0 then 1 else 0
  }

  // ---------- lexical comparison with the end as 0 ----------

  function First(s: seq<int>): int
  {
    if s == [] then 0 else s[0]
  }

  function Tail<T>(s: seq<T>): (r: seq<T>)
    ensures |r| <= |s| && (s != [] ==> |r| < |s|)
  {
    if s == [] then [] else s[1..]
  }

  function Lex(a: seq<int>, b: seq<int>): int
    decreases |a| + |b|
  {
    if a == [] && b == [] then 0
    else if First(a) != First(b) then Sign(First(a) - First(b))
    else Lex(Tail(a), Tail(b))
  }

  lemma {:induction false} LexFlip(a: seq<int>, b: seq<int>)
    ensures Lex(b, a) == -Lex(a, b) && -1 <= Lex(a, b) <= 1
    decreases |a| + |b|
  {
    if a != [] || b != [] {
      LexFlip(Tail(a), Tail(b));
    }
  }

  lemma {:induction false} LexTrans(a: seq<int>, b: seq<int>, c: seq<int>)
    requires Lex(a, b) <= 0 && Lex(b, c) <= 0
    ensures Lex(a, c) <= 0 && (Lex(a, c) == 0 ==> Lex(a, b) == 0 && Lex(b, c) == 0)
    decreases |a| + |b| + |c|
  {
    if a != [] || b != [] || c != [] {
      LexFlip(Tail(a), Tail(b));
      LexFlip(Tail(b), Tail(c));
      if First(a) == First(b) == First(c) {
        EmptyTails(a, b);
        EmptyTails(b, c);
        EmptyTails(a, c);
        LexTrans(Tail(a), Tail(b), Tail(c));
      }
    }
  }

  /** Equal first elements can be dropped, also behind the end. */
  lemma EmptyTails(a: seq<int>, b: seq<int>)
    requires First(a) == First(b)
    ensures Lex(a, b) == Lex(Tail(a), Tail(b))
  {
  }

  // ---------- parsed versions ----------

  /** A run of non-digits and the number behind it. */
  datatype Part = Part(text: seq<Byte>, number: nat)

  function Orders(s: seq<Byte>): (r: seq<int>)
    ensures |r| == |s|
  {
    seq(|s|, i requires 0 <= i < |s| => Order(s[i]))
  }

  function CompareHeads(p: Part, q: Part): int
  {
    var c := Lex(Orders(p.text), Orders(q.text));
    if c != 0 then c else Sign(p.number - q.number)
  }

  function FirstPart(ps: seq<Part>): Part
  {
    if ps == [] then Part([], 0) else ps[0]
  }

  /** Compare part by part; an exhausted list goes on with empty parts. */
  function CompareParts(ps: seq<Part>, qs: seq<Part>): int
    decreases |ps| + |qs|
  {
    if ps == [] && qs == [] then 0
    else
      var c := CompareHeads(FirstPart(ps), FirstPart(qs));
      if c != 0 then c else CompareParts(Tail(ps), Tail(qs))
  }

  lemma HeadsOrder(p: Part, q: Part, r: Part)
    ensures CompareHeads(q, p) == -CompareHeads(p, q) && -1 <= CompareHeads(p, q) <= 1
    ensures CompareHeads(p, q) <= 0 && CompareHeads(q, r) <= 0 ==>
              CompareHeads(p, r) <= 0 && (CompareHeads(p, r) == 0 ==> CompareHeads(p, q) == 0 && CompareHeads(q, r) == 0)
    ensures CompareHeads(p, q) == 0 && CompareHeads(q, r) == 0 ==> CompareHeads(p, r) == 0
  {
    hide Lex, Orders;
    var a, b, c := Orders(p.text), Orders(q.text), Orders(r.text);
    LexFlip(a, b);
    LexFlip(b, c);
    LexFlip(a, c);
    if Lex(a, b) <= 0 && Lex(b, c) <= 0 {
      LexTrans(a, b, c);
    }
    if Lex(c, b) <= 0 && Lex(b, a) <= 0 {
      LexTrans(c, b, a);
    }
  }

  lemma {:induction false} PartsFlip(ps: seq<Part>, qs: seq<Part>)
    ensures CompareParts(qs, ps) == -CompareParts(ps, qs) && -1 <= CompareParts(ps, qs) <= 1
    decreases |ps| + |qs|
  {
    hide CompareHeads;
    if ps != [] || qs != [] {
      HeadsOrder(FirstPart(ps), FirstPart(qs), FirstPart(qs));
      PartsFlip(Tail(ps), Tail(qs));
    }
  }

  lemma PartsTails(ps: seq<Part>, qs: seq<Part>)
    ensures CompareParts(ps, qs)
         == if CompareHeads(FirstPart(ps), FirstPart(qs)) != 0 then CompareHeads(FirstPart(ps), FirstPart(qs))
            else CompareParts(Tail(ps), Tail(qs))
  {
    if ps == [] && qs == [] {
      assert Lex([], []) == 0;
      assert Orders([]) == [];
    }
  }

  lemma {:induction false} PartsTrans(ps: seq<Part>, qs: seq<Part>, rs: seq<Part>)
    requires CompareParts(ps, qs) <= 0 && CompareParts(qs, rs) <= 0
    ensures CompareParts(ps, rs) <= 0 && (CompareParts(ps, rs) == 0 ==> CompareParts(ps, qs) == 0 && CompareParts(qs, rs) == 0)
    decreases |ps| + |qs| + |rs|
  {
    hide CompareHeads, CompareParts;
    PartsTails(ps, qs);
    PartsTails(qs, rs);
    PartsTails(ps, rs);
    HeadsOrder(FirstPart(ps), FirstPart(qs), FirstPart(rs));
    if ps == [] && qs == [] && rs == [] {
    } else if CompareHeads(FirstPart(ps), FirstPart(qs)) == 0 && CompareHeads(FirstPart(qs), FirstPart(rs)) == 0 {
      PartsTrans(Tail(ps), Tail(qs), Tail(rs));
    }
  }

  // ---------- parsing ----------

  function TextLen(s: seq<Byte>): (n: nat)
    ensures n <= |s| && (forall i :: 0 <= i < n ==> !IsDigit(s[i])) && (n < |s| ==> IsDigit(s[n]))
  {
    if s == [] || IsDigit(s[0]) then 0 else 1 + TextLen(s[1..])
  }

  function DigitLen(s: seq<Byte>): (n: nat)
    ensures n <= |s| && (forall i :: 0 <= i < n ==> IsDigit(s[i])) && (n < |s| ==> !IsDigit(s[n]))
  {
    if s == [] || !IsDigit(s[0]) then 0 else 1 + DigitLen(s[1..])
  }

  predicate AllDigits(d: seq<Byte>)
  {
    forall i :: 0 <= i < |d| ==> IsDigit(d[i])
  }

  function Value(d: seq<Byte>): nat
    requires AllDigits(d)
  {
    if d == [] then 0 else 10 * Value(d[..|d| - 1]) + (d[|d| - 1] - 48)
  }

  function HeadText(s: seq<Byte>): seq<Byte>
  {
    s[..TextLen(s)]
  }

  function AfterText(s: seq<Byte>): seq<Byte>
  {
    s[TextLen(s)..]
  }

  function HeadDigits(s: seq<Byte>): (d: seq<Byte>)
    ensures AllDigits(d)
  {
    AfterText(s)[..DigitLen(AfterText(s))]
  }

  function AfterHead(s: seq<Byte>): (r: seq<Byte>)
    ensures |r| <= |s| && (s != [] ==> |r| < |s|)
  {
    AfterText(s)[DigitLen(AfterText(s))..]
  }

  function HeadPart(s: seq<Byte>): Part
  {
    Part(HeadText(s), Value(HeadDigits(s)))
  }

  function Parse(s: seq<Byte>): seq<Part>
    decreases |s|
  {
    if s == [] then [] else [HeadPart(s)] + Parse(AfterHead(s))
  }

  /** The comparison of two version parts. */
  function Compare(v: seq<Byte>, r: seq<Byte>): int
  {
    CompareParts(Parse(v), Parse(r))
  }

  lemma CompareUnfolds(v: seq<Byte>, r: seq<Byte>)
    ensures Compare(v, r)
         == if CompareHeads(HeadPart(v), HeadPart(r)) != 0 then CompareHeads(HeadPart(v), HeadPart(r))
            else Compare(AfterHead(v), AfterHead(r))
  {
    hide CompareHeads, CompareParts, HeadPart, AfterHead;
    ParseHead(v);
    ParseHead(r);
    PartsTails(Parse(v), Parse(r));
  }

  lemma ParseHead(s: seq<Byte>)
    ensures FirstPart(Parse(s)) == HeadPart(s) && Tail(Parse(s)) == Parse(AfterHead(s))
  {
  }
}
