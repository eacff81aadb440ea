/** How the walk over the instructions follows lzo1x_optimize through the buffer. */
module LzoProgress {
  import opened Arith
  import opened LzoFormat
  import opened LzoWalk
  import opened LzoRewrite
  import opened LzoInvariant

  /** The pieces are the instructions in front of `ip`, and with the rest of the stream the walk goes on to its target. */
  ghost predicate Walked(buf: Bytes, ip: nat, state: State, out: Bytes, pieces: seq<Piece>, target: seq<Piece>)
  {
    ip <= |buf| && What(pieces) == InstrsOf(buf[..ip]) && Walk(pieces, Instrs(buf[ip..], state, out)) == target
  }

  /** The byte at `i`; behind a stream that has no end marker stands a zero byte. */
  function Ahead(buf: Bytes, i: nat): Byte
  {
    if i < |buf| then buf[i] else 0
  }

  // ---------- the instructions around a match ----------

  /** The last instruction, by where the number of its literals stands, and the number. */
  lemma LastInFront(pre: Bytes, st: State, out: Bytes, last: Last, litp: int, lit: nat, pieces: seq<Piece>)
    requires Shape(pre, st, out, last, litp, lit) && What(pieces) == InstrsOf(pre)
    ensures if litp == -1 then pieces == []
            else pieces != [] && var a := pieces[|pieces| - 1].what; if lit <= 3 then a.Match? && a.lits == lit else a == Run(lit)
    ensures litp != -1 && lit <= 18 ==>
              (last.LastMatch? || last.LastRun?) && InstrsOf(last.before) == What(pieces[..|pieces| - 1])
              && pieces[|pieces| - 1].what == LastInstr(last)
  {
    hide Leads, IsHead, Copy, SetCount, InstrsOf;
    if last.LastMatch? || last.LastRun? {
      ShapeLeads(pre, st, out, last, litp, lit);
      LastWhat(pieces, InstrsOf(last.before), LastInstr(last));
    } else if last.LongRun? {
      assert What(pieces)[|pieces| - 1] == Run(lit);
    } else {
      assert |What(pieces)| == 0;
    }
  }

  lemma LastWhat(pieces: seq<Piece>, front: seq<Instr>, i: Instr)
    requires What(pieces) == front + [i]
    ensures pieces != [] && What(pieces[..|pieces| - 1]) == front && pieces[|pieces| - 1].what == i
  {
    assert |pieces| == |front| + 1;
    assert What(pieces)[|front|] == i;
    forall k | 0 <= k < |front| ensures What(pieces[..|front|])[k] == front[k] {
      assert What(pieces)[k] == front[k];
    }
  }

  lemma WhatMore(pieces: seq<Piece>, more: seq<Piece>)
    ensures What(pieces + more) == What(pieces) + What(more)
  {
  }

  /** The match itself, and what comes after its literals. */
  lemma HeadInstrs(buf: Bytes, p: nat, ip: nat, state: State, out: Bytes, goal: Result, off: nat, len: nat)
    requires AtHead(buf, p, ip, state, off, len) && Decode(buf[p..], state, out) == goal && !goal.Failed?
    ensures 1 <= off <= |out|
    ensures var k := buf[ip - 2] % 4;
            && ip + k <= |buf|
            && Instrs(buf[p..], state, out)
            == [Match(ip - p, off, len, k)]
               + Instrs(buf[ip + k..], if k == 0 then Top else AfterLiterals, Copy(out, off, len) + buf[ip..ip + k])
  {
    hide Decode, Instrs, ReadHead, Copy;
    var b, n := buf[p..], ip - p;
    assert b[0] == buf[p] && b[n - 2] == buf[ip - 2];
    FirstInstr(b, state, out, goal, n, off, len);
    var k: nat := buf[ip - 2] % 4;
    SliceOf(buf, p, n, k);
  }

  lemma SliceOf(buf: Bytes, p: nat, n: nat, k: nat)
    requires p + n + k <= |buf|
    ensures buf[p..][n..n + k] == buf[p + n..p + n + k] && buf[p..][n + k..] == buf[p + n + k..]
  {
  }

  lemma FirstInstr(b: Bytes, state: State, out: Bytes, goal: Result, n: nat, off: nat, len: nat)
    requires b != [] && ReadHead(b, state) == Head(n, off, len) && (state == Top ==> b[0] >= 16)
    requires Decode(b, state, out) == goal && !goal.Failed?
    ensures 2 <= n <= |b| && 1 <= off <= |out| && n + b[n - 2] % 4 <= |b|
    ensures var k := b[n - 2] % 4;
            Instrs(b, state, out)
            == [Match(n, off, len, k)] + Instrs(b[n + k..], if k == 0 then Top else AfterLiterals, Copy(out, off, len) + b[n..n + k])
  {
    hide Decode, Instrs, ReadHead, Copy, OneStep, InstrAt;
    NextStep(b, state, out, goal);
    MatchNext(b, state, out, n, off, len);
    InstrsUnfolds(b, state, out);
  }

  /** The instruction behind a match without literals, by its first byte. */
  lemma NextInstr(buf: Bytes, ip: nat, out: Bytes, goal: Result)
    requires ip <= |buf| && Decode(buf[ip..], Top, out) == goal && !goal.Failed?
    ensures var rest, r := Instrs(buf[ip..], Top, out), Ahead(buf, ip);
            && (r >= 16 ==> rest != [] && !rest[0].Run?)
            && (r == 0 && rest != [] ==> rest[0].Run? && rest[0].n >= 19)
            && (0 < r < 16 ==>
                  && ip + 4 + r <= |buf|
                  && rest == [Run(r + 3)] + Instrs(buf[ip + 4 + r..], AfterRun, out + buf[ip + 1..ip + 4 + r]))
  {
    hide Decode, Instrs, ReadHead, ReadLen;
    var b := buf[ip..];
    NextStep(b, Top, out, goal);
    InstrsUnfolds(b, Top, out);
    NothingToDo(Top, out);
    if b != [] {
      assert b[0] == buf[ip];
      if b[0] < 16 {
        RunStepIs(b, out);
        if b[0] != 0 {
          SuffixOf(buf, ip, 4 + b[0]);
          assert b[1..4 + b[0]] == buf[ip + 1..ip + 4 + b[0]];
        }
      } else {
        MatchInstr(b, out);
      }
    }
  }

  lemma MatchInstr(b: Bytes, out: Bytes)
    requires b != [] && b[0] >= 16
    ensures !InstrAt(b, Top).Run?
  {
    hide ReadHead;
  }

  // ---------- the choice, as the bytes show it ----------

  /** Another match follows, and the literals of the match in front become three. */
  predicate GivesLiterals(buf: Bytes, p: nat, ip: nat, litp: int, lit: nat, len: nat)
    requires p + 2 <= ip <= |buf|
  {
    litp != -1 && buf[ip - 2] % 4 == 0 && ip - p == len && lit + len == 3 && Ahead(buf, ip) >= 16
  }

  /** A literal run follows that is short enough. */
  predicate GoesToRun(buf: Bytes, p: nat, ip: nat, litp: int, lit: nat, len: nat)
    requires p + 2 <= ip <= |buf|
  {
    litp != -1 && buf[ip - 2] % 4 == 0 && ip - p == len <= 3 && lit <= 3 && 0 < Ahead(buf, ip) && lit + len + Ahead(buf, ip) < 16
  }

  /** A near match of three bytes between literal runs that are short enough. */
  predicate JoinsRuns(buf: Bytes, p: nat, ip: nat, litp: int, lit: nat, off: nat, len: nat)
    requires p + 2 <= ip <= |buf|
  {
    && litp != -1 && buf[ip - 2] % 4 == 0 && ip - p == 2 && len == 3 && off <= 0x800 && lit > 3
    && 0 < Ahead(buf, ip) && lit + 3 + Ahead(buf, ip) < 16
  }

  lemma WalkKeeps(done: seq<Piece>, x: Instr, rest: seq<Instr>)
    requires done != [] && rest != [] ==> !Removable(done[|done| - 1].what, x, rest[0])
    ensures Walk(done, [x] + rest) == Walk(done + [Piece(x, 1)], rest)
  {
    assert ([x] + rest)[1..] == rest;
  }

  lemma WalkTakes(done: seq<Piece>, x: Instr, b: Instr, rest: seq<Instr>)
    requires done != []
    ensures var k := |done| - 1;
            var a, n := done[k].what, done[k].count;
            && (BetweenMatches(a, x, b) ==> Walk(done, [x] + ([b] + rest)) == Walk(done[..k] + [Piece(a.(lits := 3), n + 1)], [b] + rest))
            && (BeforeRun(a, x, b) ==>
                  Walk(done, [x] + ([b] + rest)) == Walk(done[..k] + [Piece(a.(lits := 0), n), Piece(Run(a.lits + x.len + b.n), 2)], rest))
            && (BetweenRuns(a, x, b) ==> Walk(done, [x] + ([b] + rest)) == Walk(done[..k] + [Piece(Run(a.n + 3 + b.n), n + 2)], rest))
  {
    hide BetweenMatches, BeforeRun, BetweenRuns;
    MatchShape(done[|done| - 1].what, x, b);
    assert ([x] + ([b] + rest))[1..] == [b] + rest;
    assert ([x] + ([b] + rest))[2..] == rest;
  }

  /** The three shapes in the bytes are the three shapes in the instructions. */
  lemma ShapesMeet(buf: Bytes, p: nat, ip: nat, litp: int, lit: nat, off: nat, len: nat, a: Instr, b: Instr)
    requires p + 2 <= ip <= |buf| && litp != -1
    requires if lit <= 3 then a.Match? && a.lits == lit else a == Run(lit)
    requires var r := Ahead(buf, ip);
             if r >= 16 then !b.Run? else if r == 0 then b.Run? && b.n >= 19 else b == Run(r + 3)
    ensures var x := Match(ip - p, off, len, buf[ip - 2] % 4);
            && (GivesLiterals(buf, p, ip, litp, lit, len) <==> BetweenMatches(a, x, b))
            && (GoesToRun(buf, p, ip, litp, lit, len) <==> BeforeRun(a, x, b))
            && (JoinsRuns(buf, p, ip, litp, lit, off, len) <==> BetweenRuns(a, x, b))
  {
  }

  /** A match that the walk leaves alone. */
  lemma {:induction false} WalkLeaves(buf: Bytes, p: nat, ip: nat, state: State, out: Bytes, st: State, last: Last, litp: int, lit: nat, goal: Result,
                   off: nat, len: nat, pieces: seq<Piece>, target: seq<Piece>)
    requires Inv(buf, p, state, out, st, last, litp, lit, goal) && AtHead(buf, p, ip, state, off, len)
    requires Walked(buf, p, state, out, pieces, target) && p + 2 <= ip <= |buf|
    requires !GivesLiterals(buf, p, ip, litp, lit, len) && !GoesToRun(buf, p, ip, litp, lit, len) && !JoinsRuns(buf, p, ip, litp, lit, off, len)
    ensures var k := buf[ip - 2] % 4;
            && ip + k <= |buf| && 1 <= off <= |out|
            && Walk(pieces + [Piece(Match(ip - p, off, len, k), 1)],
                    Instrs(buf[ip + k..], if k == 0 then Top else AfterLiterals, Copy(out, off, len) + buf[ip..ip + k])) == target
  {
    hide Inv, AtHead, Shape, Instrs, Copy, Decode, Walk, Leads, What, Ahead, GivesLiterals, GoesToRun, JoinsRuns, Removable;
    SameState(buf, p, state, out, st, last, litp, lit, goal);
    LastInFront(buf[..p], st, out, last, litp, lit, pieces);
    HeadInstrs(buf, p, ip, state, out, goal, off, len);
    HeadFacts(buf, p, ip, state, out, st, last, litp, lit, goal, off, len);
    var k := buf[ip - 2] % 4;
    var out' := Copy(out, off, len) + buf[ip..ip + k];
    var rest := Instrs(buf[ip + k..], if k == 0 then Top else AfterLiterals, out');
    var x := Match(ip - p, off, len, k);
    if pieces != [] && rest != [] {
      if k == 0 {
        NextInstr(buf, ip, out', goal);
        ShapesMeet(buf, p, ip, litp, lit, off, len, pieces[|pieces| - 1].what, rest[0]);
        NotRemovable(pieces[|pieces| - 1].what, x, rest[0]);
      } else {
        WithLiterals(pieces[|pieces| - 1].what, x, rest[0]);
      }
    }
    WalkKeeps(pieces, x, rest);
  }

  lemma NotRemovable(a: Instr, x: Instr, b: Instr)
    ensures Removable(a, x, b) <==> BetweenMatches(a, x, b) || BeforeRun(a, x, b) || BetweenRuns(a, x, b)
  {
  }

  lemma WithLiterals(a: Instr, x: Instr, b: Instr)
    requires x.Match? && x.lits != 0
    ensures !Removable(a, x, b)
  {
  }

  /** Walks over the instruction behind, when there is one. */
  lemma {:induction false} WalkShape(buf: Bytes, p: nat, ip: nat, state: State, out: Bytes, st: State, last: Last, litp: int, lit: nat, goal: Result,
                   off: nat, len: nat, pieces: seq<Piece>, target: seq<Piece>)
    requires Inv(buf, p, state, out, st, last, litp, lit, goal) && AtHead(buf, p, ip, state, off, len)
    requires Walked(buf, p, state, out, pieces, target) && p + 2 <= ip <= |buf|
    requires GivesLiterals(buf, p, ip, litp, lit, len) || GoesToRun(buf, p, ip, litp, lit, len) || JoinsRuns(buf, p, ip, litp, lit, off, len)
    ensures 1 <= off <= |out| && pieces != []
    ensures What(pieces) == InstrsOf(buf[..p])
    ensures var a := pieces[|pieces| - 1].what; if lit <= 3 then a.Match? && a.lits == lit else a == Run(lit)
    ensures var rest, r := Instrs(buf[ip..], Top, Copy(out, off, len)), Ahead(buf, ip);
            && rest != [] && Walk(pieces, [Match(ip - p, off, len, 0)] + rest) == target
            && (if r >= 16 then !rest[0].Run? else rest[0] == Run(r + 3))
            && (r < 16 ==>
                  && ip + 4 + r <= |buf|
                  && rest == [Run(r + 3)] + Instrs(buf[ip + 4 + r..], AfterRun, Copy(out, off, len) + buf[ip + 1..ip + 4 + r]))
  {
    hide Inv, AtHead, Shape, Instrs, Copy, Decode, Walk, Leads, What, Ahead;
    SameState(buf, p, state, out, st, last, litp, lit, goal);
    LastInFront(buf[..p], st, out, last, litp, lit, pieces);
    HeadInstrs(buf, p, ip, state, out, goal, off, len);
    HeadFacts(buf, p, ip, state, out, st, last, litp, lit, goal, off, len);
    NoLiterals(buf, ip, Copy(out, off, len));
    NextInstr(buf, ip, Copy(out, off, len), goal);
    if Ahead(buf, ip) >= 16 {
      AheadThere(buf, ip);
    }
  }

  lemma AheadThere(buf: Bytes, ip: nat)
    requires Ahead(buf, ip) > 0
    ensures ip < |buf| && buf[ip] == Ahead(buf, ip)
  {
  }

  /** A match that becomes literals. */
  lemma {:induction false} WalkLiterals(buf: Bytes, p: nat, ip: nat, state: State, out: Bytes, st: State, last: Last, litp: int, lit: nat, goal: Result,
                     off: nat, len: nat, pieces: seq<Piece>, target: seq<Piece>)
    requires Inv(buf, p, state, out, st, last, litp, lit, goal) && AtHead(buf, p, ip, state, off, len)
    requires Walked(buf, p, state, out, pieces, target) && p + 2 <= ip <= |buf| && GivesLiterals(buf, p, ip, litp, lit, len)
    ensures 1 <= off <= |out| && pieces != []
    ensures var m, a := |pieces| - 1, pieces[|pieces| - 1];
            a.what.Match? && Walk(pieces[..m] + [Piece(a.what.(lits := 3), a.count + 1)], Instrs(buf[ip..], Top, Copy(out, off, len))) == target
  {
    hide Inv, AtHead, Shape, Instrs, Copy, Walk, What, Ahead, Walked, InstrsOf;
    WalkShape(buf, p, ip, state, out, st, last, litp, lit, goal, off, len, pieces, target);
    var rest := Instrs(buf[ip..], Top, Copy(out, off, len));
    assert [rest[0]] + rest[1..] == rest;
    WalkTakes(pieces, Match(ip - p, off, len, 0), rest[0], rest[1..]);
  }

  /** A match that goes to the run behind it. */
  lemma {:induction false} WalkRun(buf: Bytes, p: nat, ip: nat, state: State, out: Bytes, st: State, last: Last, litp: int, lit: nat, goal: Result,
                off: nat, len: nat, pieces: seq<Piece>, target: seq<Piece>)
    requires Inv(buf, p, state, out, st, last, litp, lit, goal) && AtHead(buf, p, ip, state, off, len)
    requires Walked(buf, p, state, out, pieces, target) && p + 2 <= ip <= |buf| && GoesToRun(buf, p, ip, litp, lit, len)
    ensures 1 <= off <= |out| && pieces != [] && ip + 4 + Ahead(buf, ip) <= |buf|
    ensures var m, a, r := |pieces| - 1, pieces[|pieces| - 1], Ahead(buf, ip);
            && a.what.Match?
            && Walk(pieces[..m] + [Piece(a.what.(lits := 0), a.count), Piece(Run(lit + len + r + 3), 2)],
                    Instrs(buf[ip + 4 + r..], AfterRun, Copy(out, off, len) + buf[ip + 1..ip + 4 + r])) == target
  {
    hide Inv, AtHead, Shape, Instrs, Copy, Walk, What, Ahead, Walked, InstrsOf;
    WalkShape(buf, p, ip, state, out, st, last, litp, lit, goal, off, len, pieces, target);
    var r := Ahead(buf, ip);
    WalkTakes(pieces, Match(ip - p, off, len, 0), Run(r + 3), Instrs(buf[ip + 4 + r..], AfterRun, Copy(out, off, len) + buf[ip + 1..ip + 4 + r]));
  }

  /** A match that joins two runs. */
  lemma {:induction false} WalkJoin(buf: Bytes, p: nat, ip: nat, state: State, out: Bytes, st: State, last: Last, litp: int, lit: nat, goal: Result,
                 off: nat, pieces: seq<Piece>, target: seq<Piece>)
    requires Inv(buf, p, state, out, st, last, litp, lit, goal) && AtHead(buf, p, ip, state, off, 3)
    requires Walked(buf, p, state, out, pieces, target) && p + 2 <= ip <= |buf| && JoinsRuns(buf, p, ip, litp, lit, off, 3)
    ensures 1 <= off <= |out| && pieces != [] && ip + 4 + Ahead(buf, ip) <= |buf|
    ensures var m, a, r := |pieces| - 1, pieces[|pieces| - 1], Ahead(buf, ip);
            Walk(pieces[..m] + [Piece(Run(lit + 3 + r + 3), a.count + 2)],
                 Instrs(buf[ip + 4 + r..], AfterRun, Copy(out, off, 3) + buf[ip + 1..ip + 4 + r])) == target
  {
    hide Inv, AtHead, Shape, Instrs, Copy, Walk, What, Ahead, Walked, InstrsOf;
    WalkShape(buf, p, ip, state, out, st, last, litp, lit, goal, off, 3, pieces, target);
    var r := Ahead(buf, ip);
    WalkTakes(pieces, Match(2, off, 3, 0), Run(r + 3), Instrs(buf[ip + 4 + r..], AfterRun, Copy(out, off, 3) + buf[ip + 1..ip + 4 + r]));
  }

  // ---------- each kind of instruction keeps the walk ----------

  lemma {:induction false} WalkedAgain(buf: Bytes, ip: nat, state: State, out: Bytes, st: State, last: Last, litp: int, lit: nat, goal: Result,
                    pieces: seq<Piece>, target: seq<Piece>, rest: Bytes)
    requires Inv(buf, ip, state, out, st, last, litp, lit, goal) && (last.LastMatch? || last.LastRun?)
    requires What(pieces) == InstrsOf(last.before) + [LastInstr(last)]
    requires ip <= |buf| && buf[ip..] == rest && Walk(pieces, Instrs(rest, state, out)) == target
    ensures Walked(buf, ip, state, out, pieces, target)
  {
    hide Inv, Shape, Instrs, Walk, What, InstrsOf, Leads;
    SameState(buf, ip, state, out, st, last, litp, lit, goal);
    ShapeLeads(buf[..ip], st, out, last, litp, lit);
  }

  lemma {:induction false} RunWalked(buf: Bytes, ip: nat, out: Bytes, st: State, last: Last, litp: int, lit: nat, goal: Result,
                  pieces: seq<Piece>, target: seq<Piece>)
    requires Inv(buf, ip, Top, out, st, last, litp, lit, goal) && Walked(buf, ip, Top, out, pieces, target) && ip < |buf| && buf[ip] < 16
    ensures ReadLen(buf[ip..], buf[ip], 15).Ext?
    ensures var e := ReadLen(buf[ip..], buf[ip], 15);
            var n := e.n + e.len + 3;
            && ip + n <= |buf|
            && Walked(buf, ip + n, AfterRun, out + buf[ip + e.n..ip + n], pieces + [Piece(Run(e.len + 3), 1)], target)
  {
    hide Inv, Shape, Instrs, Walk, What, InstrsOf, Leads, Decode, ReadLen, RunStep, InstrAt;
    RunInv(buf, ip, out, st, last, litp, lit, goal);
    SameState(buf, ip, Top, out, st, last, litp, lit, goal);
    var b := buf[ip..];
    assert b[0] == buf[ip];
    NextStep(b, Top, out, goal);
    RunStepIs(b, out);
    InstrsUnfolds(b, Top, out);
    var e := ReadLen(b, b[0], 15);
    SuffixOf(buf, ip, e.n + e.len + 3);
    assert b[e.n..e.n + e.len + 3] == buf[ip + e.n..ip + e.n + e.len + 3];
    RunStays(pieces, e.len + 3, Instrs(buf[ip + e.n + e.len + 3..], AfterRun, out + b[e.n..e.n + e.len + 3]));
    WhatMore(pieces, [Piece(Run(e.len + 3), 1)]);
    WhatOne(Piece(Run(e.len + 3), 1));
  }

  lemma RunStays(done: seq<Piece>, n: nat, rest: seq<Instr>)
    ensures Walk(done, [Run(n)] + rest) == Walk(done + [Piece(Run(n), 1)], rest)
  {
    WalkKeeps(done, Run(n), rest);
  }

  lemma WhatOne(p: Piece)
    ensures What([p]) == [p.what]
  {
  }

  lemma {:induction false} PlainWalked(buf: Bytes, p: nat, ip: nat, state: State, out: Bytes, st: State, last: Last, litp: int, lit: nat, goal: Result,
                    off: nat, len: nat, pieces: seq<Piece>, target: seq<Piece>)
    requires Inv(buf, p, state, out, st, last, litp, lit, goal) && AtHead(buf, p, ip, state, off, len)
    requires Walked(buf, p, state, out, pieces, target) && p + 2 <= ip <= |buf|
    requires !GivesLiterals(buf, p, ip, litp, lit, len) && !GoesToRun(buf, p, ip, litp, lit, len) && !JoinsRuns(buf, p, ip, litp, lit, off, len)
    ensures var k := buf[ip - 2] % 4;
            && ip + k <= |buf| && 1 <= off <= |out|
            && Walked(buf, ip + k, if k == 0 then Top else AfterLiterals, Copy(out, off, len) + buf[ip..ip + k],
                      pieces + [Piece(Match(ip - p, off, len, k), 1)], target)
  {
    hide Inv, AtHead, Shape, Instrs, Copy, Walk, What, InstrsOf, GivesLiterals, GoesToRun, JoinsRuns;
    PlainInv(buf, p, ip, state, out, st, last, litp, lit, goal, off, len);
    WalkLeaves(buf, p, ip, state, out, st, last, litp, lit, goal, off, len, pieces, target);
    var m := Piece(Match(ip - p, off, len, buf[ip - 2] % 4), 1);
    WhatMore(pieces, [m]);
    WhatOne(m);
  }

  lemma {:induction false} LiteralsWalked(buf: Bytes, p: nat, ip: nat, state: State, out: Bytes, st: State, last: Last, litp: int, lit: nat, goal: Result,
                       off: nat, len: nat, pieces: seq<Piece>, target: seq<Piece>)
    requires Inv(buf, p, state, out, st, last, litp, lit, goal) && AtHead(buf, p, ip, state, off, len)
    requires Walked(buf, p, state, out, pieces, target) && p + 2 <= ip <= |buf| && GivesLiterals(buf, p, ip, litp, lit, len)
    ensures 1 <= off <= |out| && pieces != [] && 0 <= litp < p && |Copied(out, off, len)| == len
    ensures var m, a := |pieces| - 1, pieces[|pieces| - 1];
            && a.what.Match?
            && Walked(LiteralsBuf(buf, p, litp, Copied(out, off, len)), ip, Top, Copy(out, off, len),
                      pieces[..m] + [Piece(a.what.(lits := 3), a.count + 1)], target)
  {
    hide Inv, AtHead, Shape, Instrs, Copy, Copied, Walk, What, InstrsOf, Leads, Ahead, LiteralsBuf;
    AheadThere(buf, ip);
    WalkLiterals(buf, p, ip, state, out, st, last, litp, lit, goal, off, len, pieces, target);
    LiteralsInv(buf, p, ip, state, out, st, last, litp, lit, goal, off, len);
    SameState(buf, p, state, out, st, last, litp, lit, goal);
    LastInFront(buf[..p], st, out, last, litp, lit, pieces);
    var m, a := |pieces| - 1, pieces[|pieces| - 1];
    var c := Copied(out, off, len);
    var a' := Piece(a.what.(lits := 3), a.count + 1);
    WhatMore(pieces[..m], [a']);
    WhatOne(a');
    WalkedAgain(LiteralsBuf(buf, p, litp, c), ip, Top, Copy(out, off, len), AfterLiterals, WithLits(last, last.lits + c), litp, 3, goal,
                pieces[..m] + [a'], target, buf[ip..]);
  }

  /** The walk after ToRunInv, which names the prefix and its output. */
  lemma {:induction false} ToRunWalked(buf: Bytes, p: nat, ip: nat, state: State, out: Bytes, st: State, last: Last, litp: int, lit: nat, goal: Result,
                    off: nat, len: nat, pieces: seq<Piece>, target: seq<Piece>, q: Bytes, out0: Bytes, buf': Bytes, lits: Bytes)
    requires Inv(buf, p, state, out, st, last, litp, lit, goal) && AtHead(buf, p, ip, state, off, len)
    requires Walked(buf, p, state, out, pieces, target) && p + 2 <= ip <= |buf| && GoesToRun(buf, p, ip, litp, lit, len)
    requires last.LastMatch? && InstrsOf(q) == InstrsOf(last.before) + [LastMatchBare(last)] && 1 <= off <= |out|
    requires var r := Ahead(buf, ip);
             && ip + 4 + r <= |buf| == |buf'| && buf'[ip + 4 + r..] == buf[ip + 4 + r..] && |lits| == lit + len + r + 3
             && Inv(buf', ip + 4 + r, AfterRun, Copy(out, off, len) + buf[ip + 1..ip + 4 + r], AfterRun, LastRun(q, out0, lits),
                    litp + 2, lit + len + r + 3, goal)
    ensures pieces != []
    ensures var m, a, r := |pieces| - 1, pieces[|pieces| - 1], Ahead(buf, ip);
            && a.what.Match?
            && Walked(buf', ip + 4 + r, AfterRun, Copy(out, off, len) + buf[ip + 1..ip + 4 + r],
                      pieces[..m] + [Piece(a.what.(lits := 0), a.count), Piece(Run(lit + len + r + 3), 2)], target)
  {
    hide Inv, AtHead, Shape, Instrs, Copy, Walk, What, InstrsOf, Leads, Ahead;
    WalkRun(buf, p, ip, state, out, st, last, litp, lit, goal, off, len, pieces, target);
    SameState(buf, p, state, out, st, last, litp, lit, goal);
    LastInFront(buf[..p], st, out, last, litp, lit, pieces);
    var m, a, r := |pieces| - 1, pieces[|pieces| - 1], Ahead(buf, ip);
    var bare, run := Piece(a.what.(lits := 0), a.count), Piece(Run(lit + len + r + 3), 2);
    WhatMore(pieces[..m] + [bare], [run]);
    WhatMore(pieces[..m], [bare]);
    WhatOne(bare);
    WhatOne(run);
    assert pieces[..m] + [bare] + [run] == pieces[..m] + [bare, run];
    WalkedAgain(buf', ip + 4 + r, AfterRun, Copy(out, off, len) + buf[ip + 1..ip + 4 + r], AfterRun, LastRun(q, out0, lits),
                litp + 2, lit + len + r + 3, goal, pieces[..m] + [bare, run], target, buf[ip + 4 + r..]);
  }

  lemma {:induction false} JoinWalked(buf: Bytes, p: nat, ip: nat, state: State, out: Bytes, st: State, last: Last, litp: int, lit: nat, goal: Result,
                   off: nat, pieces: seq<Piece>, target: seq<Piece>)
    requires Inv(buf, p, state, out, st, last, litp, lit, goal) && AtHead(buf, p, ip, state, off, 3)
    requires Walked(buf, p, state, out, pieces, target) && p + 2 <= ip <= |buf| && JoinsRuns(buf, p, ip, litp, lit, off, 3)
    ensures 1 <= off <= |out| && pieces != [] && 0 <= litp < p && |Copied(out, off, 3)| == 3 && ip < |buf| && ip + 4 + buf[ip] <= |buf|
    ensures var m, a := |pieces| - 1, pieces[|pieces| - 1];
            Walked(Put(buf, p, Copied(out, off, 3))[litp := lit + 3 + buf[ip]], ip + 4 + buf[ip], AfterRun,
                   Copy(out, off, 3) + buf[ip + 1..ip + 4 + buf[ip]], pieces[..m] + [Piece(Run(lit + 3 + buf[ip] + 3), a.count + 2)], target)
  {
    hide Inv, AtHead, Shape, Instrs, Copy, Copied, Walk, What, InstrsOf, Leads, Ahead, Put;
    AheadThere(buf, ip);
    WalkJoin(buf, p, ip, state, out, st, last, litp, lit, goal, off, pieces, target);
    JoinInv(buf, p, ip, state, out, st, last, litp, lit, goal, off);
    CopyIs(out, off, 3);
    SameState(buf, p, state, out, st, last, litp, lit, goal);
    LastInFront(buf[..p], st, out, last, litp, lit, pieces);
    var m, a, r := |pieces| - 1, pieces[|pieces| - 1], buf[ip];
    var run := Piece(Run(lit + 3 + r + 3), a.count + 2);
    WhatMore(pieces[..m], [run]);
    WhatOne(run);
    var more := buf[ip + 1..ip + 4 + r];
    WalkedAgain(Put(buf, p, Copied(out, off, 3))[litp := lit + 3 + r], ip + 4 + r, AfterRun, Copy(out, off, 3) + more, AfterRun,
                LastRun(last.before, last.out, last.lits + Copied(out, off, 3) + more), litp, lit + 3 + r + 3, goal,
                pieces[..m] + [run], target, buf[ip + 4 + r..]);
  }

  // ---------- the start and the end ----------

  lemma {:induction false} StartWalked(buf: Bytes, ip: nat, state: State, out: Bytes, goal: Result)
    requires Inv(buf, ip, state, out, state, NoLast, -1, 0, goal)
    ensures Walked(buf, ip, state, out, [], Walk([], InstrsOf(buf)))
  {
    hide Inv, Walk, Instrs, InstrsOf, Leads, Decode, DecodeStream;
    SameState(buf, ip, state, out, state, NoLast, -1, 0, goal);
    InvDecodes(buf, ip, state, out, state, NoLast, -1, 0, goal);
    assert What([]) == [];
    assert [] + Instrs(buf[ip..], state, out) == Instrs(buf[ip..], state, out);
  }

  /** Behind the last instruction the walk is complete. */
  lemma {:induction false} WalkEnds(buf: Bytes, ip: nat, state: State, out: Bytes, st: State, last: Last, litp: int, lit: nat, goal: Result,
                 pieces: seq<Piece>, target: seq<Piece>)
    requires Inv(buf, ip, state, out, st, last, litp, lit, goal) && Walked(buf, ip, state, out, pieces, target) && ip == |buf|
    ensures InstrsOf(buf) == What(target)
  {
    hide Inv, InstrsOf, Leads, Decode, DecodeStream, What;
    InvDecodes(buf, ip, state, out, st, last, litp, lit, goal);
    NoInstrs(state, out);
  }

  /** So it is at the end marker, which stays. */
  lemma {:induction false} WalkStops(buf: Bytes, p: nat, state: State, out: Bytes, st: State, last: Last, litp: int, lit: nat, goal: Result,
                  pieces: seq<Piece>, target: seq<Piece>)
    requires Inv(buf, p, state, out, st, last, litp, lit, goal) && Walked(buf, p, state, out, pieces, target)
    requires p < |buf| && buf[p] >= 16 && ReadHead(buf[p..], state).EndMark?
    ensures InstrsOf(buf) == What(target)
  {
    hide Inv, InstrsOf, Leads, Decode, DecodeStream, What, Walk, Instrs, ReadHead;
    InvDecodes(buf, p, state, out, st, last, litp, lit, goal);
    InstrsUnfolds(buf[p..], state, out);
    assert Instrs(buf[p..], state, out) == [End];
    EndStays(pieces);
    WhatMore(pieces, [Piece(End, 1)]);
    WhatOne(Piece(End, 1));
  }

  lemma EndStays(pieces: seq<Piece>)
    ensures Walk(pieces, [End]) == pieces + [Piece(End, 1)]
  {
    assert [End][1..] == [];
  }

  // ---------- a short stream ----------

  /** A run of four literals, a match of three bytes at distance 1, a run of four literals, the end marker. */
  const TWO_RUNS: Bytes := [1, 97, 98, 99, 100, 64, 0, 1, 101, 102, 103, 104, 17, 0, 0]

  lemma ShortRunAt(b: Bytes, out: Bytes, lits: Bytes, rest: Bytes)
    requires 4 <= |lits| <= 18 && b == [|lits| - 3] + lits + rest
    ensures Instrs(b, Top, out) == [Run(|lits|)] + Instrs(rest, AfterRun, out + lits)
  {
    hide Instrs, OneStep, InstrAt;
    RunSteps(lits, out);
    StepInstrs([|lits| - 3] + lits, rest, Top, out, AfterRun, out + lits, Run(|lits|));
  }

  lemma MiddleAt(b: Bytes, out: Bytes, rest: Bytes)
    requires b == [64, 0] + rest && out != []
    ensures Instrs(b, AfterRun, out) == [Match(2, 1, 3, 0)] + Instrs(rest, Top, Copy(out, 1, 3))
  {
    hide Instrs, Copy;
    InstrsUnfolds(b, AfterRun, out);
    assert b[2..] == rest && b[2..2] == [];
    assert Copy(out, 1, 3) + [] == Copy(out, 1, 3);
  }

  lemma EndAt(out: Bytes)
    ensures Instrs([17, 0, 0], AfterRun, out) == [End]
  {
  }

  /** The match joins the two runs. */
  lemma TwoRunsJoin()
    ensures InstrsOf(TWO_RUNS) == [Run(4), Match(2, 1, 3, 0), Run(4), End]
    ensures What(Walk([], InstrsOf(TWO_RUNS))) == [Run(11), End]
  {
    hide Instrs, Copy;
    var r1, r2, r3 := TWO_RUNS[5..], TWO_RUNS[7..], TWO_RUNS[12..];
    var o1: Bytes := [97, 98, 99, 100];
    assert TWO_RUNS == [1] + o1 + r1 && r1 == [64, 0] + r2 && r2 == [1] + [101, 102, 103, 104] + r3 && r3 == [17, 0, 0];
    ShortRunAt(TWO_RUNS, [], o1, r1);
    assert [] + o1 == o1;
    MiddleAt(r1, o1, r2);
    ShortRunAt(r2, Copy(o1, 1, 3), [101, 102, 103, 104], r3);
    EndAt(Copy(o1, 1, 3) + [101, 102, 103, 104]);
    var l := [Run(4), Match(2, 1, 3, 0), Run(4), End];
    assert InstrsOf(TWO_RUNS) == l;
    TwoRunsWalk();
  }

  lemma TwoRunsWalk()
    ensures What(Walk([], [Run(4), Match(2, 1, 3, 0), Run(4), End])) == [Run(11), End]
  {
    hide Walk, What;
    var m, first := Match(2, 1, 3, 0), [Piece(Run(4), 1)];
    assert [Run(4)] + [m, Run(4), End] == [Run(4), m, Run(4), End] && [] + first == first;
    RunStays([], 4, [m, Run(4), End]);
    TwoRunsTaken(first, m);
    EndStays([Piece(Run(11), 3)]);
    WhatMore([Piece(Run(11), 3)], [Piece(End, 1)]);
    WhatOne(Piece(Run(11), 3));
    WhatOne(Piece(End, 1));
  }

  lemma TwoRunsTaken(first: seq<Piece>, m: Instr)
    requires first == [Piece(Run(4), 1)] && m == Match(2, 1, 3, 0)
    ensures Walk(first, [m, Run(4), End]) == Walk([Piece(Run(11), 3)], [End])
  {
    hide Walk;
    WalkTakes(first, m, Run(4), [End]);
    assert [m] + ([Run(4)] + [End]) == [m, Run(4), End];
    assert first[..0] + [Piece(Run(11), 3)] == [Piece(Run(11), 3)];
  }
}
