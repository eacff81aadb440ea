/** The three ways in which lzo1x_optimize rewrites the bytes in front of its read pointer. */
module LzoRewrite {
  import opened Arith
  import opened LzoFormat

  /** `data` written over `s` from index `at` on. */
  function Put(s: Bytes, at: nat, data: Bytes): (r: Bytes)
    requires at + |data| <= |s|
    ensures |r| == |s|
  {
    s[..at] + data + s[at + |data|..]
  }

  /** The last instruction in front of the read pointer, as far as it may still be changed. */
  datatype Last =
    | NoLast
    | LastMatch(before: Bytes, st: State, out: Bytes, head: Bytes, off: nat, len: nat, lits: Bytes)
    | LastRun(before: Bytes, out: Bytes, lits: Bytes)
    | LongRun

  predicate EndsWith(list: seq<Instr>, i: Instr)
  {
    list != [] && list[|list| - 1] == i
  }

  /** The bytes `pre` end with the instruction `last`; `litp` and `lit` are where its number of literals stands, and the number. */
  ghost predicate Shape(pre: Bytes, st: State, out: Bytes, last: Last, litp: int, lit: nat)
  {
    match last
    case NoLast => litp == -1 && InstrsOf(pre) == []
    case LongRun => litp >= 0 && lit >= 19 && st == AfterRun && EndsWith(InstrsOf(pre), Run(lit))
    case LastRun(before, out0, lits) =>
      && Leads(before, Top, out0) && 4 <= |lits| <= 18
      && pre == before + ([|lits| - 3] + lits) && out == out0 + lits && st == AfterRun
      && litp == |before| && lit == |lits|
    case LastMatch(before, st0, out0, head, off, len, lits) =>
      && Leads(before, st0, out0) && |head| >= 2 && IsHead(head, st0, off, len) && 1 <= off <= |out0| && |lits| < 4
      && pre == before + (SetCount(head, |lits|) + lits) && out == Copy(out0, off, len) + lits
      && st == (if lits == [] then Top else AfterLiterals)
      && litp == |before| + |head| - 2 && lit == |lits|
  }

  /** The instruction `last`. */
  function LastInstr(last: Last): Instr
    requires last.LastMatch? || last.LastRun?
  {
    if last.LastMatch? then Match(|last.head|, last.off, last.len, |last.lits|) else Run(|last.lits|)
  }

  /** The prefix decodes to the output whatever its last instruction is. */
  lemma ShapeLeads(pre: Bytes, st: State, out: Bytes, last: Last, litp: int, lit: nat)
    requires Shape(pre, st, out, last, litp, lit) && (last.LastMatch? || last.LastRun?)
    ensures Leads(pre, st, out) && InstrsOf(pre) == InstrsOf(last.before) + [LastInstr(last)]
  {
    hide Leads, Steps, IsHead, Copy, SetCount, InstrsOf;
    match last
    case LastMatch(before, st0, out0, head, off, len, lits) =>
      MatchSteps(head, st0, off, len, lits, out0);
      SomethingRead(before, st0, out0);
      SetCountSize(head, |lits|);
      LeadsOn(before, SetCount(head, |lits|) + lits, st0, out0, st, out, LastInstr(last));
    case LastRun(before, out0, lits) =>
      RunSteps(lits, out0);
      LeadsOn(before, [|lits| - 3] + lits, Top, out0, st, out, LastInstr(last));
  }

  lemma CountAgain(head: Bytes, a: nat, b: nat)
    requires |head| >= 2 && a < 4 && b < 4
    ensures SetCount(SetCount(head, a), b) == SetCount(head, b)
  {
    var x := head[|head| - 2];
    CountQuarter(x, a);
    assert SetCount(head, a)[|head| - 2] == x - x % 4 + a;
  }

  /** Changing the number in place. */
  lemma CountInPlace(before: Bytes, head: Bytes, a: nat, b: nat, tail: Bytes)
    requires |head| >= 2 && a < 4 && b < 4
    ensures var s, i := before + (SetCount(head, a) + tail), |before| + |head| - 2;
            && s[i] % 4 == a && s[i := s[i] - s[i] % 4 + b] == before + (SetCount(head, b) + tail)
  {
    var s, i := before + (SetCount(head, a) + tail), |before| + |head| - 2;
    CountOf(head, a);
    CountAgain(head, a, b);
    assert s[i] == SetCount(head, a)[|head| - 2];
    var t := SetCount(head, a);
    var v := t[|head| - 2];
    assert SetCount(t, b) == t[|head| - 2 := v - v % 4 + b];
    assert s[i := v - v % 4 + b] == before + (t[|head| - 2 := v - v % 4 + b] + tail);
  }

  lemma PutBehind(p: Bytes, x: Bytes, rest: Bytes, c: Bytes)
    requires |x| == |c|
    ensures Put(p + (x + rest), |p|, c) == p + (c + rest)
  {
  }

  /** The same match with other literals behind it. */
  function WithLits(last: Last, lits: Bytes): Last
    requires last.LastMatch?
  {
    LastMatch(last.before, last.st, last.out, last.head, last.off, last.len, lits)
  }

  /** The buffer after the first way. */
  function LiteralsBuf(buf: Bytes, p: nat, litp: nat, c: Bytes): Bytes
    requires litp < |buf| && p + |c| <= |buf|
  {
    var v := buf[litp];
    Put(buf[litp := v - v % 4 + 3], p, c)
  }

  /** First way: a short match between matches becomes literals of the previous match. */
  lemma ToLiterals(pre: Bytes, x: Bytes, rest: Bytes, st: State, out: Bytes, last: Last, litp: int, lit: nat, c: Bytes, off: nat)
    requires Shape(pre, st, out, last, litp, lit) && last.LastMatch? && lit + |x| == 3
    requires 1 <= off <= |out| && c == Copied(out, off, |x|)
    ensures 0 <= litp < |pre| && |c| == |x| && |last.head| >= 2
    ensures var pre' := last.before + (SetCount(last.head, 3) + (last.lits + c));
            && LiteralsBuf(pre + (x + rest), |pre|, litp, c) == pre' + rest && |pre'| == |pre| + |x|
            && Shape(pre', AfterLiterals, out + c, WithLits(last, last.lits + c), litp, 3)
  {
    hide Leads, IsHead, Copy, SetCount, Copied, InstrsOf;
    var h, q, lits := last.head, last.before, last.lits;
    SetCountSize(h, |lits|);
    SetCountSize(h, 3);
    CountInPlace(q, h, |lits|, 3, lits + (x + rest));
    Regroup(q, SetCount(h, |lits|), lits, x + rest);
    PutLits(q, SetCount(h, 3), lits, x, rest, c);
    Longer(Copy(last.out, last.off, last.len), lits, c);
  }

  lemma Longer(a: Bytes, b: Bytes, c: Bytes)
    ensures a + b + c == a + (b + c)
  {
  }

  lemma PutLits(q: Bytes, h: Bytes, lits: Bytes, x: Bytes, rest: Bytes, c: Bytes)
    requires |x| == |c|
    ensures Put(q + (h + (lits + (x + rest))), |q| + |h| + |lits|, c) == q + (h + (lits + c)) + rest
  {
    Regroup(q, h, lits, x + rest);
    PutBehind(q + (h + lits), x, rest, c);
    assert q + (h + lits) + (c + rest) == q + (h + (lits + c)) + rest;
  }

  lemma Regroup(a: Bytes, b: Bytes, c: Bytes, d: Bytes)
    ensures a + (b + c) + d == a + (b + (c + d))
  {
  }

  /** The bytes that a literal run takes from the stream. */
  lemma Moved(s: Bytes, a: Bytes, b: Bytes, lits: Bytes, c: Bytes, rest: Bytes, n: Byte)
    requires |b| == |c| + 1 && s == a + (lits + (b + rest))
    ensures var s1 := Put(s, |a| + |lits| + 1, c);
            var s2 := Put(s1, |a| + 1, lits);
            s2[|a| := n] == a + ([n] + (lits + c)) + rest
  {
    var x, y := b[..1], b[1..];
    SplitAt(a, lits, x, y, rest, b);
    PutBehind(a + lits + x, y, rest, c);
    var s1 := Put(s, |a| + |lits| + 1, c);
    var head := lits + x;
    assert head == head[..1] + head[1..];
    Front(a, lits, x, c + rest, head[..1], head[1..]);
    PutBehind(a + head[..1], head[1..], c + rest, lits);
    SetFirst(a, head[..1], lits, c, rest, n);
  }

  lemma SplitAt(a: Bytes, lits: Bytes, x: Bytes, y: Bytes, rest: Bytes, b: Bytes)
    requires b == x + y
    ensures a + (lits + (b + rest)) == (a + lits + x) + (y + rest)
  {
  }

  lemma Front(a: Bytes, lits: Bytes, x: Bytes, tail: Bytes, u: Bytes, v: Bytes)
    requires lits + x == u + v
    ensures (a + lits + x) + tail == (a + u) + (v + tail)
  {
    assert a + lits + x == a + (lits + x);
    assert a + (u + v) == a + u + v;
    assert a + u + v + tail == a + u + (v + tail);
  }

  lemma SetFirst(a: Bytes, u: Bytes, lits: Bytes, c: Bytes, rest: Bytes, n: Byte)
    requires |u| == 1
    ensures (a + u + (lits + (c + rest)))[|a| := n] == a + ([n] + (lits + c)) + rest
  {
  }

  /** The buffer after the second way; `n` is the new length byte. */
  function RunBuf(buf: Bytes, p: nat, litp: nat, lit: nat, c: Bytes, n: Byte): Bytes
    requires litp < |buf| && p + 1 + |c| <= |buf| && litp + 3 + lit <= |buf|
  {
    var v := buf[litp];
    var b2 := Put(buf[litp := v - v % 4], p + 1, c);
    Put(b2, litp + 3, b2[litp + 2..litp + 2 + lit])[litp + 2 := n]
  }

  /**
   Second way: a short match `x` between a match with few literals and a literal run with
   length byte `r` joins the run; the literals of the match move one byte ahead.
   */
  lemma ToRun(pre: Bytes, x: Bytes, r: Byte, rest: Bytes, st: State, out: Bytes, last: Last, litp: int, lit: nat, c: Bytes, off: nat)
    requires Shape(pre, st, out, last, litp, lit) && last.LastMatch?
    requires 1 <= off <= |out| && c == Copied(out, off, |x|) && r + lit + |x| < 16
    ensures 0 <= litp && litp + 2 + lit == |pre| && |c| == |x| && |last.head| >= 2
    ensures var q := last.before + SetCount(last.head, 0);
            && RunBuf(pre + (x + [r] + rest), |pre|, litp, lit, c, lit + |x| + r) == q + ([lit + |x| + r] + (last.lits + c)) + rest
            && Leads(q, Top, Copy(last.out, last.off, last.len)) && |q| == litp + 2
            && InstrsOf(q) == InstrsOf(last.before) + [Match(|last.head|, last.off, last.len, 0)]
  {
    hide Leads, Steps, IsHead, Copy, SetCount, Copied, RunBuf, InstrsOf;
    var h, q0, lits := last.head, last.before, last.lits;
    SetCountSize(h, |lits|);
    SetCountSize(h, 0);
    var q := q0 + SetCount(h, 0);
    CountInPlace(q0, h, |lits|, 0, lits + (x + [r] + rest));
    Regroup(q0, SetCount(h, |lits|), lits, x + [r] + rest);
    InFront(q0, SetCount(h, 0), lits, x + [r], rest);
    RunBufIs(pre + (x + [r] + rest), litp, q, lits, x, r, rest, c, lit + |x| + r);
    BareMatch(h, last.st, last.off, last.len, q0, last.out);
  }

  lemma RunBufIs(b: Bytes, litp: nat, q: Bytes, lits: Bytes, x: Bytes, r: Byte, rest: Bytes, c: Bytes, n: Byte)
    requires |q| == litp + 2 && litp < |b| && |x| == |c|
    requires b[litp := b[litp] - b[litp] % 4] == q + (lits + ((x + [r]) + rest))
    ensures |q| + |lits| + 1 + |c| <= |b| && litp + 3 + |lits| <= |b|
    ensures RunBuf(b, |q| + |lits|, litp, |lits|, c, n) == q + ([n] + (lits + c)) + rest
  {
    hide Put;
    var b1 := q + (lits + ((x + [r]) + rest));
    assert |b| == |b1|;
    Moved(b1, q, x + [r], lits, c, rest, n);
    KeptLits(b1, q, lits, (x + [r]) + rest, c);
  }

  lemma InFront(q: Bytes, h: Bytes, lits: Bytes, x: Bytes, rest: Bytes)
    ensures q + (h + (lits + (x + rest))) == q + h + (lits + (x + rest))
  {
  }

  /** A match whose literals have been taken away. */
  lemma BareMatch(h: Bytes, st: State, off: nat, len: nat, q: Bytes, out: Bytes)
    requires IsHead(h, st, off, len) && 1 <= off <= |out| && Leads(q, st, out) && |h| >= 2
    ensures Leads(q + SetCount(h, 0), Top, Copy(out, off, len))
    ensures InstrsOf(q + SetCount(h, 0)) == InstrsOf(q) + [Match(|h|, off, len, 0)]
  {
    hide Leads, Steps, IsHead, Copy, SetCount, InstrsOf;
    MatchSteps(h, st, off, len, [], out);
    SetCountSize(h, 0);
    assert SetCount(h, 0) + [] == SetCount(h, 0);
    assert Copy(out, off, len) + [] == Copy(out, off, len);
    SomethingRead(q, st, out);
    LeadsOn(q, SetCount(h, 0), st, out, Top, Copy(out, off, len), Match(|h|, off, len, 0));
  }

  lemma KeptLits(s: Bytes, a: Bytes, lits: Bytes, tail: Bytes, c: Bytes)
    requires s == a + (lits + tail) && 1 + |c| <= |tail|
    ensures Put(s, |a| + |lits| + 1, c)[|a|..|a| + |lits|] == lits
  {
    var n := |a| + |lits|;
    var u := Put(s, n + 1, c);
    forall k | 0 <= k < |lits| ensures u[|a|..n][k] == lits[k] {
      assert u[|a| + k] == s[|a| + k];
    }
  }

  /** Third way: a three byte match `x` between two literal runs joins them. */
  lemma JoinRuns(pre: Bytes, x: Bytes, r: Byte, rest: Bytes, st: State, out: Bytes, last: Last, litp: int, lit: nat, c: Bytes, off: nat)
    requires Shape(pre, st, out, last, litp, lit) && last.LastRun?
    requires 1 <= off <= |out| && |x| == 2 && c == Copied(out, off, 3) && r + lit + 3 < 16
    ensures 0 <= litp < |pre|
    ensures var b := pre + (x + [r] + rest);
            var n: Byte := lit + 3 + r;
            Put(b, |pre|, c)[litp := n] == last.before + ([n] + (last.lits + c)) + rest
  {
    hide Leads, Copied, InstrsOf;
    var q, lits := last.before, last.lits;
    var n: Byte := lit + 3 + r;
    var m: Byte := |lits| - 3;
    PutBehind(pre, x + [r], rest, c);
    assert pre + (c + rest) == q + ([m] + lits) + (c + rest);
    assert (q + ([m] + lits) + (c + rest))[|q| := n] == q + ([n] + lits) + (c + rest);
    assert q + ([n] + lits) + (c + rest) == q + ([n] + (lits + c)) + rest;
  }

  /** After the rewriting the literals of the following run complete the joined run. */
  lemma RunComplete(q: Bytes, out0: Bytes, lits: Bytes, more: Bytes)
    requires Leads(q, Top, out0) && 4 <= |lits + more| <= 18
    ensures Shape(q + ([|lits + more| - 3] + (lits + more)), AfterRun, out0 + lits + more, LastRun(q, out0, lits + more), |q|, |lits + more|)
  {
    hide Leads, InstrsOf;
  }
}
