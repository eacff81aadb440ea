/** What holds at every instruction of lzo1x_optimize, and how each kind of instruction keeps it. */
module LzoInvariant {
  import opened Arith
  import opened LzoFormat
  import opened LzoRewrite

  /**
   The rest of the buffer still decodes to the goal from the state in which the original
   stream is; the rewritten prefix leads to the same output, and to a state that makes no
   difference for the next instruction.
   */
  ghost predicate Inv(buf: Bytes, ip: nat, state: State, out: Bytes, st: State, last: Last, litp: int, lit: nat, goal: Result)
  {
    && ip <= |buf| && !goal.Failed? && Decode(buf[ip..], state, out) == goal && (ip == 0 ==> PlainStart(buf))
    && Leads(buf[..ip], st, out) && Shape(buf[..ip], st, out, last, litp, lit)
    && (st == state || (state == Top && st == AfterLiterals && ip < |buf| && buf[ip] >= 16))
  }

  /** So the whole rewritten stream decodes to the goal. */
  lemma InvDecodes(buf: Bytes, ip: nat, state: State, out: Bytes, st: State, last: Last, litp: int, lit: nat, goal: Result)
    requires Inv(buf, ip, state, out, st, last, litp, lit, goal)
    ensures DecodeStream(buf) == goal && InstrsOf(buf) == InstrsOf(buf[..ip]) + Instrs(buf[ip..], state, out)
  {
    hide DecodeStream, Decode, InstrsOf, Instrs, Shape;
    assert buf == buf[..ip] + buf[ip..];
    if st != state {
      MatchAnywhere(buf[ip..], out);
    }
  }

  /** The next instruction of a stream that decodes. */
  lemma NextStep(b: Bytes, state: State, out: Bytes, goal: Result)
    requires Decode(b, state, out) == goal && !goal.Failed?
    ensures b == [] ==> state == Top && goal == Ended(out)
    ensures b != [] ==> !OneStep(b, state, out).Bad?
    ensures var s := OneStep(b, state, out); b != [] && s.Next? ==> Decode(b[s.n..], s.st, s.out) == goal
    ensures var s := OneStep(b, state, out); b != [] && s.Stop? ==> goal == Decoded(out, b[s.n..])
  {
    hide OneStep;
    DecodeUnfolds(b, state, out);
    NothingToDo(state, out);
  }

  lemma NothingToDo(state: State, out: Bytes)
    ensures OneStep([], state, out) == Bad
  {
  }

  lemma SuffixOf(buf: Bytes, i: nat, n: nat)
    requires i + n <= |buf|
    ensures buf[i..][n..] == buf[i + n..] && buf[i..][..n] == buf[i..i + n] && buf[..i] + buf[i..i + n] == buf[..i + n]
  {
  }

  // ---------- literal runs ----------

  lemma RunStepIs(b: Bytes, out: Bytes)
    requires b != [] && RunStep(b, out).Next?
    ensures ReadLen(b, b[0], 15).Ext?
    ensures var e := ReadLen(b, b[0], 15);
            e.n + e.len + 3 <= |b| && RunStep(b, out) == Next(e.n + e.len + 3, AfterRun, out + b[e.n..e.n + e.len + 3])
    ensures b[0] != 0 ==> ReadLen(b, b[0], 15) == Ext(1, b[0])
    ensures b[0] == 0 ==> ReadLen(b, b[0], 15).len >= 16
    ensures b[0] < 16 ==> InstrAt(b, Top) == Run(ReadLen(b, b[0], 15).len + 3)
  {
    hide ReadExt;
  }

  /** The state is the real one whenever the next instruction would tell the difference. */
  lemma SameState(buf: Bytes, ip: nat, state: State, out: Bytes, st: State, last: Last, litp: int, lit: nat, goal: Result)
    requires Inv(buf, ip, state, out, st, last, litp, lit, goal)
    ensures ip <= |buf| && (ip < |buf| ==> st == state || buf[ip] >= 16) && Leads(buf[..ip], st, out)
    ensures Decode(buf[ip..], state, out) == goal && !goal.Failed?
    ensures st == state || (state == Top && st == AfterLiterals)
    ensures Shape(buf[..ip], st, out, last, litp, lit)
  {
    hide Leads, Shape, Decode;
    NextStep(buf[ip..], state, out, goal);
  }

  lemma InvIntro(buf: Bytes, ip: nat, state: State, out: Bytes, last: Last, litp: int, lit: nat, goal: Result)
    requires ip <= |buf| && !goal.Failed? && Decode(buf[ip..], state, out) == goal && ip > 0
    requires Leads(buf[..ip], state, out) && Shape(buf[..ip], state, out, last, litp, lit)
    ensures Inv(buf, ip, state, out, state, last, litp, lit, goal)
  {
    hide Leads, Shape, Decode;
  }

  /** What the prefix looks like after a literal run. */
  ghost function RunLast(buf: Bytes, ip: nat, n: nat, out: Bytes): Last
    requires ip + n <= |buf| && n >= 1
  {
    if buf[ip] != 0 then LastRun(buf[..ip], out, buf[ip + 1..ip + n]) else LongRun
  }

  lemma RunShape(buf: Bytes, ip: nat, n: nat, out: Bytes, len: nat, o: Bytes)
    requires ip + n <= |buf| && n >= 1 && Leads(buf[..ip], Top, out) && buf[ip] < 16
    requires buf[ip] != 0 ==> n == 1 + buf[ip] + 3 && len == buf[ip] + 3 && o == out + buf[ip + 1..ip + n]
    requires buf[ip] == 0 ==> len >= 19 && EndsWith(InstrsOf(buf[..ip + n]), Run(len))
    ensures Shape(buf[..ip + n], AfterRun, o, RunLast(buf, ip, n, out), ip, len)
  {
    hide Leads, InstrsOf;
    if buf[ip] != 0 {
      assert buf[..ip + n] == buf[..ip] + ([buf[ip]] + buf[ip + 1..ip + n]);
    }
  }

  /** A literal run that starts at `ip`, with its length in the first byte or continued. */
  lemma RunInv(buf: Bytes, ip: nat, out: Bytes, st: State, last: Last, litp: int, lit: nat, goal: Result)
    requires Inv(buf, ip, Top, out, st, last, litp, lit, goal) && ip < |buf| && buf[ip] < 16
    ensures ReadLen(buf[ip..], buf[ip], 15).Ext?
    ensures var e := ReadLen(buf[ip..], buf[ip], 15);
            var n := e.n + e.len + 3;
            && ip + n <= |buf|
            && Inv(buf, ip + n, AfterRun, out + buf[ip + e.n..ip + n], AfterRun, RunLast(buf, ip, n, out), ip, e.len + 3, goal)
            && InstrsOf(buf[..ip + n]) == InstrsOf(buf[..ip]) + [Run(e.len + 3)]
  {
    hide Leads, Decode, Steps, RunStep, ReadLen, Inv, RunLast, Shape, InstrsOf, InstrAt;
    SameState(buf, ip, Top, out, st, last, litp, lit, goal);
    var b := buf[ip..];
    assert b[0] == buf[ip];
    NextStep(b, Top, out, goal);
    RunStepIs(b, out);
    var r, e := RunStep(b, out), ReadLen(b, b[0], 15);
    RunRead(b, out);
    SuffixOf(buf, ip, r.n);
    LeadsOn(buf[..ip], b[..r.n], Top, out, AfterRun, r.out, InstrAt(b, Top));
    assert b[e.n..r.n] == buf[ip + e.n..ip + r.n];
    RunShape(buf, ip, r.n, out, e.len + 3, r.out);
    InvIntro(buf, ip + r.n, AfterRun, r.out, RunLast(buf, ip, r.n, out), ip, e.len + 3, goal);
  }

  // ---------- matches ----------

  /** The head of a match has been read from `p` up to `ip`. */
  ghost predicate AtHead(buf: Bytes, p: nat, ip: nat, state: State, off: nat, len: nat)
  {
    p + 2 <= ip <= |buf| && ReadHead(buf[p..], state) == Head(ip - p, off, len) && (state == Top ==> buf[p] >= 16)
  }

  lemma HeadState(b: Bytes, state: State)
    requires b != [] && b[0] >= 16
    ensures ReadHead(b, Top) == ReadHead(b, AfterLiterals)
  {
    hide ReadLen, FarHead;
  }

  /** What the original stream does with the match: a valid distance, some literals, and then the rest. */
  lemma HeadFacts(buf: Bytes, p: nat, ip: nat, state: State, out: Bytes, st: State, last: Last, litp: int, lit: nat, goal: Result,
                  off: nat, len: nat)
    requires Inv(buf, p, state, out, st, last, litp, lit, goal) && AtHead(buf, p, ip, state, off, len)
    ensures 1 <= off <= |out| && !goal.Failed?
    ensures var k := buf[ip - 2] % 4;
            ip + k <= |buf| && Decode(buf[ip + k..], if k == 0 then Top else AfterLiterals, Copy(out, off, len) + buf[ip..ip + k]) == goal
    ensures IsHead(buf[p..ip], st, off, len) && Leads(buf[..p], st, out) && Shape(buf[..p], st, out, last, litp, lit)
  {
    hide Leads, InstrsOf, Decode, Inv, Shape, ReadHead, IsHead, Copy;
    SameState(buf, p, state, out, st, last, litp, lit, goal);
    var b, n := buf[p..], ip - p;
    assert b[0] == buf[p] && b[n - 2] == buf[ip - 2];
    NextStep(b, state, out, goal);
    MatchNext(b, state, out, n, off, len);
    var k := buf[ip - 2] % 4;
    SuffixOf(buf, p, n + k);
    assert b[n..n + k] == buf[ip..ip + k];
    if st != state {
      HeadState(b, state);
    }
    HeadRead(b, st);
    assert b[..n] == buf[p..ip];
  }

  lemma MatchNext(b: Bytes, st: State, out: Bytes, n: nat, off: nat, len: nat)
    requires b != [] && ReadHead(b, st) == Head(n, off, len) && (st == Top ==> b[0] >= 16) && !OneStep(b, st, out).Bad?
    ensures 2 <= n <= |b| && 1 <= off <= |out| && n + b[n - 2] % 4 <= |b|
    ensures var k := b[n - 2] % 4;
            && OneStep(b, st, out) == Next(n + k, if k == 0 then Top else AfterLiterals, Copy(out, off, len) + b[n..n + k])
            && InstrAt(b, st) == Match(n, off, len, k)
  {
    hide RunStep, Copy, ReadHead;
    assert OneStep(b, st, out) == MatchStep(b, st, out);
    HeadBounds(b, st);
  }

  lemma HeadBounds(b: Bytes, st: State)
    requires ReadHead(b, st).Head?
    ensures 2 <= ReadHead(b, st).n <= |b| && ReadHead(b, st).off >= 1
  {
  }

  /** The number of literals that stands in a head already. */
  lemma CountStands(head: Bytes)
    requires |head| >= 2
    ensures SetCount(head, head[|head| - 2] % 4) == head
  {
  }

  lemma PlainShape(buf: Bytes, p: nat, ip: nat, st: State, out: Bytes, off: nat, len: nat)
    requires p + 2 <= ip <= |buf| && ip + buf[ip - 2] % 4 <= |buf|
    requires IsHead(buf[p..ip], st, off, len) && Leads(buf[..p], st, out) && 1 <= off <= |out|
    ensures var k := buf[ip - 2] % 4;
            var lits := buf[ip..ip + k];
            Shape(buf[..ip + k], if k == 0 then Top else AfterLiterals, Copy(out, off, len) + lits,
                  LastMatch(buf[..p], st, out, buf[p..ip], off, len, lits), ip - 2, k)
  {
    hide Leads, IsHead, Copy, SetCount;
    var k, head := buf[ip - 2] % 4, buf[p..ip];
    assert head[|head| - 2] == buf[ip - 2];
    CountStands(head);
    assert buf[..ip + k] == buf[..p] + (head + buf[ip..ip + k]);
  }

  /** The match and its literals have been read as they stand. */
  ghost predicate ReadPlain(buf: Bytes, p: nat, ip: nat, out: Bytes, st: State, goal: Result, off: nat, len: nat)
    requires p + 2 <= ip <= |buf| && 1 <= off <= |out|
  {
    var k: nat := buf[ip - 2] % 4;
    && ip + k <= |buf|
    && var lits := buf[ip..ip + k];
       var state' := if k == 0 then Top else AfterLiterals;
       && Inv(buf, ip + k, state', Copy(out, off, len) + lits, state',
              LastMatch(buf[..p], st, out, buf[p..ip], off, len, lits), ip - 2, k, goal)
       && InstrsOf(buf[..ip + k]) == InstrsOf(buf[..p]) + [Match(ip - p, off, len, k)]
  }

  /** A match that is left as it is. */
  lemma PlainInv(buf: Bytes, p: nat, ip: nat, state: State, out: Bytes, st: State, last: Last, litp: int, lit: nat, goal: Result,
                 off: nat, len: nat)
    requires Inv(buf, p, state, out, st, last, litp, lit, goal) && AtHead(buf, p, ip, state, off, len) && p + 2 <= ip <= |buf|
    ensures 1 <= off <= |out| && ReadPlain(buf, p, ip, out, st, goal, off, len)
  {
    hide Leads, InstrsOf, Decode, Inv, Shape, AtHead, ReadHead, IsHead, Copy, SetCount;
    HeadFacts(buf, p, ip, state, out, st, last, litp, lit, goal, off, len);
    var k, head := buf[ip - 2] % 4, buf[p..ip];
    var lits := buf[ip..ip + k];
    var state' := if k == 0 then Top else AfterLiterals;
    var out', last' := Copy(out, off, len) + lits, LastMatch(buf[..p], st, out, head, off, len, lits);
    PlainShape(buf, p, ip, st, out, off, len);
    ShapeLeads(buf[..ip + k], state', out', last', ip - 2, k);
    InvIntro(buf, ip + k, state', out', last', ip - 2, k, goal);
  }

  // ---------- matches that are rewritten ----------

  lemma LastKind(pre: Bytes, st: State, out: Bytes, last: Last, litp: int, lit: nat)
    requires Shape(pre, st, out, last, litp, lit) && litp != -1 && lit <= 18
    ensures if lit <= 3 then last.LastMatch? && |last.head| >= 2 else last.LastRun?
    ensures lit == |last.lits|
  {
    hide Leads, IsHead, Copy;
  }

  /** A match without literals in front of more: the original goes on at the top. */
  lemma NoLiterals(buf: Bytes, ip: nat, out: Bytes)
    requires ip <= |buf|
    ensures out + buf[ip..ip + 0] == out
  {
  }

  lemma Parts(buf: Bytes, p: nat, ip: nat)
    requires p <= ip <= |buf|
    ensures buf == buf[..p] + (buf[p..ip] + buf[ip..])
    ensures ip < |buf| ==> buf == buf[..p] + (buf[p..ip] + [buf[ip]] + buf[ip + 1..])
  {
  }

  lemma SuffixAfter(a: Bytes, b: Bytes)
    ensures (a + b)[..|a|] == a && (a + b)[|a|..] == b
  {
  }

  lemma LiteralsBytes(buf: Bytes, p: nat, ip: nat, st: State, out: Bytes, last: Last, litp: int, lit: nat, c: Bytes, off: nat)
    requires p <= ip <= |buf| && Shape(buf[..p], st, out, last, litp, lit) && last.LastMatch? && lit + (ip - p) == 3
    requires 1 <= off <= |out| && c == Copied(out, off, ip - p)
    ensures 0 <= litp < p && |c| == ip - p
    ensures var buf' := LiteralsBuf(buf, p, litp, c);
            && |buf'| == |buf| && buf'[ip..] == buf[ip..]
            && Shape(buf'[..ip], AfterLiterals, out + c, WithLits(last, last.lits + c), litp, 3)
  {
    hide Shape, Copied;
    Parts(buf, p, ip);
    ToLiterals(buf[..p], buf[p..ip], buf[ip..], st, out, last, litp, lit, c, off);
    CopyIs(out, off, ip - p);
    HeadLong(buf[..p], st, out, last, litp, lit);
    SuffixAfter(last.before + (SetCount(last.head, 3) + (last.lits + c)), buf[ip..]);
  }

  lemma HeadLong(pre: Bytes, st: State, out: Bytes, last: Last, litp: int, lit: nat)
    requires Shape(pre, st, out, last, litp, lit) && last.LastMatch?
    ensures |last.head| >= 2
  {
    hide Leads, IsHead, Copy;
  }

  /** First way: the match becomes literals of the previous match, and another match follows. */
  lemma LiteralsInv(buf: Bytes, p: nat, ip: nat, state: State, out: Bytes, st: State, last: Last, litp: int, lit: nat, goal: Result,
                    off: nat, len: nat)
    requires Inv(buf, p, state, out, st, last, litp, lit, goal) && AtHead(buf, p, ip, state, off, len)
    requires litp != -1 && ip - p == len && lit + len == 3 && buf[ip - 2] % 4 == 0 && ip < |buf| && buf[ip] >= 16
    ensures 1 <= off <= |out| && 0 <= litp < p && last.LastMatch? && |Copied(out, off, len)| == len
    ensures Inv(LiteralsBuf(buf, p, litp, Copied(out, off, len)), ip, Top, Copy(out, off, len),
                AfterLiterals, WithLits(last, last.lits + Copied(out, off, len)), litp, 3, goal)
    ensures ip <= |LiteralsBuf(buf, p, litp, Copied(out, off, len))|
    ensures LiteralsBuf(buf, p, litp, Copied(out, off, len))[ip..] == buf[ip..]
  {
    hide Leads, InstrsOf, Decode, Inv, Shape, ReadHead, IsHead, Copy, Copied, LiteralsBuf;
    HeadFacts(buf, p, ip, state, out, st, last, litp, lit, goal, off, len);
    LastKind(buf[..p], st, out, last, litp, lit);
    CopyIs(out, off, len);
    var c := Copied(out, off, len);
    NoLiterals(buf, ip, out + c);
    LiteralsBytes(buf, p, ip, st, out, last, litp, lit, c, off);
    var buf' := LiteralsBuf(buf, p, litp, c);
    assert buf'[ip] == buf'[ip..][0] == buf[ip..][0] == buf[ip];
    ShapeLeads(buf'[..ip], AfterLiterals, out + c, WithLits(last, last.lits + c), litp, 3);
    LaterInv(buf', ip, out + c, WithLits(last, last.lits + c), litp, 3, goal);
  }

  lemma CopyIs(out: Bytes, off: nat, len: nat)
    requires 1 <= off <= |out|
    ensures Copy(out, off, len) == out + Copied(out, off, len) && |Copied(out, off, len)| == len
  {
  }

  lemma LaterInv(buf: Bytes, ip: nat, out: Bytes, last: Last, litp: int, lit: nat, goal: Result)
    requires 0 < ip < |buf| && !goal.Failed? && Decode(buf[ip..], Top, out) == goal && buf[ip] >= 16
    requires Leads(buf[..ip], AfterLiterals, out) && Shape(buf[..ip], AfterLiterals, out, last, litp, lit)
    ensures Inv(buf, ip, Top, out, AfterLiterals, last, litp, lit, goal)
  {
    hide Leads, Shape, Decode;
  }

  /** The short literal run that follows a match without literals. */
  lemma RunFollows(buf: Bytes, ip: nat, out: Bytes, goal: Result)
    requires ip < |buf| && 0 < buf[ip] < 16 && !goal.Failed? && Decode(buf[ip..], Top, out) == goal
    ensures ip + 4 + buf[ip] <= |buf|
    ensures Decode(buf[ip + 4 + buf[ip]..], AfterRun, out + buf[ip + 1..ip + 4 + buf[ip]]) == goal
  {
    hide Decode, ReadLen;
    var b := buf[ip..];
    NextStep(b, Top, out, goal);
    RunStepIs(b, out);
    SuffixOf(buf, ip, 4 + buf[ip]);
    assert b[1..4 + buf[ip]] == buf[ip + 1..ip + 4 + buf[ip]];
  }

  /** The buffer after a rewriting that ends in a joined run, and after its remaining literals. */
  lemma JoinedInv(buf: Bytes, buf': Bytes, ip: nat, q: Bytes, out0: Bytes, lits: Bytes, out: Bytes, goal: Result)
    requires ip < |buf| && 0 < buf[ip] < 16 && !goal.Failed? && Decode(buf[ip..], Top, out) == goal
    requires Leads(q, Top, out0) && out == out0 + lits && 1 <= |lits| && |lits| + buf[ip] < 16 && |buf'| == |buf|
    requires buf' == q + ([|lits| + buf[ip]] + lits) + buf[ip + 1..]
    ensures ip + 4 + buf[ip] <= |buf|
    ensures var more := buf[ip + 1..ip + 4 + buf[ip]];
            && buf'[ip + 1..ip + 4 + buf[ip]] == more && buf'[ip + 4 + buf[ip]..] == buf[ip + 4 + buf[ip]..]
            && Inv(buf', ip + 4 + buf[ip], AfterRun, out + more, AfterRun, LastRun(q, out0, lits + more), |q|, |lits + more|, goal)
  {
    hide Leads, InstrsOf, Decode, Inv, Shape;
    RunFollows(buf, ip, out, goal);
    var r := buf[ip];
    var more := buf[ip + 1..ip + 4 + r];
    var pre := q + ([|lits + more| - 3] + (lits + more));
    RunComplete(q, out0, lits, more);
    ShapeLeads(pre, AfterRun, out0 + lits + more, LastRun(q, out0, lits + more), |q|, |lits + more|);
    JoinedBytes(buf, buf', ip, q, lits, more);
    InvIntro(buf', ip + 4 + r, AfterRun, out + more, LastRun(q, out0, lits + more), |q|, |lits + more|, goal);
  }

  lemma JoinedBytes(buf: Bytes, buf': Bytes, ip: nat, q: Bytes, lits: Bytes, more: Bytes)
    requires ip < |buf| == |buf'| && ip + 4 + buf[ip] <= |buf| && |lits| + buf[ip] < 16 && more == buf[ip + 1..ip + 4 + buf[ip]]
    requires buf' == q + ([|lits| + buf[ip]] + lits) + buf[ip + 1..]
    ensures var n := ip + 4 + buf[ip];
            && buf'[..n] == q + ([|lits + more| - 3] + (lits + more)) && buf'[n..] == buf[n..]
            && buf'[ip + 1..n] == more
  {
    var r, n := buf[ip], ip + 4 + buf[ip];
    var tail := buf[ip + 1..];
    assert tail == more + buf[n..];
    var h: Byte := |lits| + r;
    assert buf' == q + ([h] + (lits + more)) + buf[n..];
  }

  /** The last match without its literals. */
  function LastMatchBare(last: Last): Instr
    requires last.LastMatch?
  {
    Match(|last.head|, last.off, last.len, 0)
  }

  lemma RunBytes(buf: Bytes, p: nat, ip: nat, st: State, out: Bytes, last: Last, litp: int, lit: nat, c: Bytes, off: nat)
    returns (q: Bytes, out0: Bytes)
    requires p <= ip < |buf| && Shape(buf[..p], st, out, last, litp, lit) && last.LastMatch?
    requires 1 <= off <= |out| && c == Copied(out, off, ip - p) && buf[ip] + lit + (ip - p) < 16
    ensures 0 <= litp && litp + 2 + lit == p && |q| == litp + 2 && |c| == ip - p && Leads(q, Top, out0)
    ensures out == out0 + last.lits && lit == |last.lits| && |last.head| >= 2
    ensures InstrsOf(q) == InstrsOf(last.before) + [LastMatchBare(last)]
    ensures RunBuf(buf, p, litp, lit, c, lit + (ip - p) + buf[ip]) == q + ([lit + (ip - p) + buf[ip]] + (last.lits + c)) + buf[ip + 1..]
  {
    hide Leads, Copied, IsHead, SetCount, Copy, InstrsOf;
    Parts(buf, p, ip);
    ToRun(buf[..p], buf[p..ip], buf[ip], buf[ip + 1..], st, out, last, litp, lit, c, off);
    CopyIs(out, off, ip - p);
    q, out0 := last.before + SetCount(last.head, 0), Copy(last.out, last.off, last.len);
  }

  /** Second way: the match joins the literals of the previous match and the following run in one run. */
  lemma ToRunInv(buf: Bytes, p: nat, ip: nat, state: State, out: Bytes, st: State, last: Last, litp: int, lit: nat, goal: Result,
                 off: nat, len: nat)
    returns (q: Bytes, out0: Bytes)
    requires Inv(buf, p, state, out, st, last, litp, lit, goal) && AtHead(buf, p, ip, state, off, len)
    requires litp != -1 && ip - p == len && lit <= 3 && buf[ip - 2] % 4 == 0 && ip < |buf| && 0 < buf[ip] && lit + len + buf[ip] < 16
    ensures 1 <= off <= |out| && 0 <= litp && litp + 2 + lit == p && ip + 4 + buf[ip] <= |buf| && |q| == litp + 2
    ensures last.LastMatch? && |Copied(out, off, len)| == len && |last.lits| == lit
    ensures var buf' := RunBuf(buf, p, litp, lit, Copied(out, off, len), lit + len + buf[ip]);
            var more := buf[ip + 1..ip + 4 + buf[ip]];
            && |buf'| == |buf| && buf'[ip + 1..ip + 4 + buf[ip]] == more && buf'[ip + 4 + buf[ip]..] == buf[ip + 4 + buf[ip]..]
            && InstrsOf(q) == InstrsOf(last.before) + [LastMatchBare(last)]
            && Inv(buf', ip + 4 + buf[ip], AfterRun, Copy(out, off, len) + more, AfterRun,
                   LastRun(q, out0, last.lits + Copied(out, off, len) + more), litp + 2, lit + len + buf[ip] + 3, goal)
  {
    hide Leads, InstrsOf, Decode, Inv, Shape, ReadHead, IsHead, Copy, Copied, RunBuf;
    HeadFacts(buf, p, ip, state, out, st, last, litp, lit, goal, off, len);
    LastKind(buf[..p], st, out, last, litp, lit);
    var c := Copied(out, off, len);
    CopyIs(out, off, len);
    NoLiterals(buf, ip, Copy(out, off, len));
    q, out0 := RunBytes(buf, p, ip, st, out, last, litp, lit, c, off);
    Longer(out0, last.lits, c);
    JoinedInv(buf, RunBuf(buf, p, litp, lit, c, lit + len + buf[ip]), ip, q, out0, last.lits + c, out + c, goal);
  }

  /** Third way: a match of three bytes between two literal runs joins them. */
  lemma JoinInv(buf: Bytes, p: nat, ip: nat, state: State, out: Bytes, st: State, last: Last, litp: int, lit: nat, goal: Result,
                off: nat)
    requires Inv(buf, p, state, out, st, last, litp, lit, goal) && AtHead(buf, p, ip, state, off, 3)
    requires litp != -1 && ip - p == 2 && lit > 3 && buf[ip - 2] % 4 == 0 && ip < |buf| && 0 < buf[ip] && lit + 3 + buf[ip] < 16
    ensures 1 <= off <= |out| && 0 <= litp < p && ip + 4 + buf[ip] <= |buf| && last.LastRun?
    ensures var buf' := Put(buf, p, Copied(out, off, 3))[litp := lit + 3 + buf[ip]];
            var more := buf[ip + 1..ip + 4 + buf[ip]];
            && buf'[ip + 1..ip + 4 + buf[ip]] == more && buf'[ip + 4 + buf[ip]..] == buf[ip + 4 + buf[ip]..]
            && Inv(buf', ip + 4 + buf[ip], AfterRun, Copy(out, off, 3) + more, AfterRun,
                   LastRun(last.before, last.out, last.lits + Copied(out, off, 3) + more), litp, lit + 3 + buf[ip] + 3, goal)
  {
    hide Leads, InstrsOf, Decode, Inv, Shape, ReadHead, IsHead, Copy, Copied, SetCount, Put;
    HeadFacts(buf, p, ip, state, out, st, last, litp, lit, goal, off, 3);
    LastKind(buf[..p], st, out, last, litp, lit);
    var c := Copied(out, off, 3);
    CopyIs(out, off, 3);
    NoLiterals(buf, ip, Copy(out, off, 3));
    JoinBytes(buf, p, ip, st, out, last, litp, lit, c, off);
    Longer(last.out, last.lits, c);
    JoinedInv(buf, Put(buf, p, c)[litp := lit + 3 + buf[ip]], ip, last.before, last.out, last.lits + c, out + c, goal);
  }

  lemma JoinBytes(buf: Bytes, p: nat, ip: nat, st: State, out: Bytes, last: Last, litp: int, lit: nat, c: Bytes, off: nat)
    requires p + 2 == ip < |buf| && Shape(buf[..p], st, out, last, litp, lit) && last.LastRun?
    requires 1 <= off <= |out| && c == Copied(out, off, 3) && lit + 3 + buf[ip] < 16
    ensures 0 <= litp < p && |c| == 3 && |last.before| == litp && lit == |last.lits|
    ensures Leads(last.before, Top, last.out) && out == last.out + last.lits
    ensures Put(buf, p, c)[litp := lit + 3 + buf[ip]]
         == last.before + ([lit + 3 + buf[ip]] + (last.lits + c)) + buf[ip + 1..]
  {
    hide Leads, Copied, IsHead, SetCount, Copy, Put;
    Parts(buf, p, ip);
    JoinRuns(buf[..p], buf[p..ip], buf[ip], buf[ip + 1..], st, out, last, litp, lit, c, off);
    CopyIs(out, off, 3);
  }
}
