/**
 lzo1x_optimize: decode a stream and at the same time rewrite it in place.  Its jumps
 become the field `state`, and each pass of the loop is one instruction.
 */
module LzoOptimize {
  import opened Arith
  import opened LzoFormat
  import opened LzoRewrite
  import opened LzoInvariant
  import opened LzoWalk
  import opened LzoProgress

  // ---------- heads of matches ----------

  /** Where the stream has a match, its head can be read. */
  lemma HeadThere(buf: Bytes, p: nat, state: State, out: Bytes, st: State, last: Last, litp: int, lit: nat, goal: Result)
    requires Inv(buf, p, state, out, st, last, litp, lit, goal) && p < |buf| && (state == Top ==> buf[p] >= 16)
    ensures !ReadHead(buf[p..], state).NoHead? && p + 2 <= |buf|
    ensures var h := ReadHead(buf[p..], state);
            h.EndMark? ==> p + h.n <= |buf| && goal == Decoded(out, buf[p + h.n..])
  {
    hide Leads, Decode, Shape, ReadHead, Copy, RunStep, Inv;
    SameState(buf, p, state, out, st, last, litp, lit, goal);
    var b := buf[p..];
    assert b[0] == buf[p];
    NextStep(b, state, out, goal);
    assert OneStep(b, state, out) == MatchStep(b, state, out);
    HeadRoom(b, state);
    if ReadHead(b, state).EndMark? {
      SuffixOf(buf, p, ReadHead(b, state).n);
    }
  }

  lemma HeadRoom(b: Bytes, st: State)
    ensures !ReadHead(b, st).NoHead? ==> |b| >= 2
    ensures ReadHead(b, st).EndMark? ==> ReadHead(b, st).n <= |b|
  {
    hide ReadLen, FarHead;
  }

  lemma NearHead(b: Bytes, st: State)
    requires |b| >= 2 && (b[0] < 16 || b[0] >= 64)
    ensures ReadHead(b, st)
         == if b[0] >= 64 then Head(2, 1 + b[0] / 4 % 8 + 8 * (b[1] as int), b[0] / 32 + 1)
            else if st == AfterRun then Head(2, 0x801 + b[0] / 4 + 4 * (b[1] as int), 3)
            else Head(2, 1 + b[0] / 4 + 4 * (b[1] as int), 2)
  {
    hide ReadLen, FarHead;
  }

  /** What remains to be read of a long head. */
  lemma FarHeadIs(b: Bytes, st: State)
    requires |b| >= 2 && 16 <= b[0] < 64 && !ReadHead(b, st).NoHead?
    ensures var t: nat := b[0];
            var e := if t >= 32 then ReadLen(b, t % 32, 31) else ReadLen(b, t % 8, 7);
            && e.Ext? && e.n + 2 <= |b|
            && var lo: nat, hi: nat := b[e.n], b[e.n + 1];
               var d := (if t >= 32 then 1 else t / 8 % 2 * 0x4000) + lo / 4 + 64 * hi;
               ReadHead(b, st) == if d == 0 then EndMark(e.n + 2) else Head(e.n + 2, if t >= 32 then d else d + 0x4000, e.len + 2)
  {
    hide ReadLen;
  }

  lemma ShortLen(b: Bytes, t: nat, base: nat)
    requires ReadLen(b, t, base).Ext? && ReadLen(b, t, base).len == 1 && base > 0
    ensures ReadLen(b, t, base).n == 1
  {
    hide ReadExt;
  }

  // ---------- what becomes of the buffer ----------

  /** Where the number of the last literals is, relative to the match at `p` whose head has `n` bytes. */
  predicate Placed(buf: Bytes, p: nat, n: nat, litp: int, lit: nat)
  {
    && 2 <= n && p + n <= |buf|
    && (litp != -1 && lit < 16 ==> 0 <= litp < p && (lit <= 3 ==> litp + 2 + lit == p))
  }

  /**
   The buffer after a match at distance `off` with `n` bytes of head that stands for the bytes `c`:
   it is given up for literals of the match in front, for a part of the following run, or as the
   joint between two runs.
   */
  function Rewritten(buf: Bytes, p: nat, n: nat, litp: int, lit: nat, off: nat, c: Bytes): Bytes
    requires Placed(buf, p, n, litp, lit)
  {
    var r := Ahead(buf, p + n);
    if GivesLiterals(buf, p, p + n, litp, lit, |c|) then LiteralsBuf(buf, p, litp, c)
    else if GoesToRun(buf, p, p + n, litp, lit, |c|) then RunBuf(buf, p, litp, lit, c, lit + n + r)
    else if JoinsRuns(buf, p, p + n, litp, lit, off, |c|) then Put(buf, p, c)[litp := lit + 3 + r]
    else buf
  }

  /** The buffer has become what the match at `p` asks for. */
  ghost predicate Rewrites(buf: Bytes, buf': Bytes, p: nat, state: State, litp: int, lit: nat, out: Bytes)
    requires p <= |buf|
  {
    var h := ReadHead(buf[p..], state);
    && h.Head? && h.off <= |out| && Placed(buf, p, h.n, litp, lit)
    && buf' == Rewritten(buf, p, h.n, litp, lit, h.off, Copied(out, h.off, h.len))
  }

  // ---------- the optimiser ----------

  class Optimizer {
    const input: array<Byte>
    var ip: nat
    /** The output so far; `op` in lzo1x_optimize is its length. */
    var out: Bytes
    /** Index of the byte with the number of the last literals, or -1. */
    var litp: int
    var lit: nat
    var state: State
    ghost var st: State
    ghost var last: Last
    ghost var goal: Result
    /** The instructions in front of `ip`, and those that the whole stream becomes. */
    ghost var pieces: seq<Piece>
    ghost var target: seq<Piece>

    ghost predicate Valid()
      reads this, input
    {
      && ip <= input.Length && Inv(input[..], ip, state, out, st, last, litp, lit, goal)
      && Walked(input[..], ip, state, out, pieces, target)
    }

    /** A match whose head has been read from `p` up to `ip`. */
    ghost predicate ReadFrom(p: nat, off: nat, len: nat)
      reads this, input
    {
      && p + 2 <= ip <= input.Length && Inv(input[..], p, state, out, st, last, litp, lit, goal) && AtHead(input[..], p, ip, state, off, len)
      && Walked(input[..], p, state, out, pieces, target)
    }

    constructor (input: array<Byte>)
      ensures this.input == input && ip == 0 && out == [] && litp == -1 && lit == 0 && state == Top
    {
      this.input := input;
      ip, out, litp, lit, state := 0, [], -1, 0, Top;
    }

    // ---------- reading and copying ----------

    /** The length of an instruction whose first byte has been read; `t` is its length field. */
    method ReadLength(t: nat, base: nat) returns (len: nat)
      requires 1 <= ip <= input.Length && ReadLen(input[ip - 1..], t, base).Ext?
      modifies this`ip
      ensures var e := ReadLen(input[old(ip) - 1..], t, base);
              ip == old(ip) - 1 + e.n && len == e.len && ip <= input.Length
    {
      hide ReadExt;
      ghost var b := input[ip - 1..];
      len := t;
      if len == 0 {
        len := base;
        ghost var i := 1;
        ExtBounds(b, 1);
        while input[ip] == 0
          invariant 1 <= i && ip == old(ip) - 1 + i && i < |b|
          invariant len >= base && ReadExt(b, i).Ext? && ReadExt(b, 1) == Ext(ReadExt(b, i).n, ReadExt(b, i).len + len - base)
          decreases |b| - i
        {
          ExtNext(b, i);
          ExtBounds(b, i + 1);
          len := len + 255;
          ip := ip + 1;
          i := i + 1;
        }
        ExtNext(b, i);
        len := len + input[ip];
        ip := ip + 1;
      }
    }

    method CopyLiterals(n: nat)
      requires ip + n <= input.Length
      modifies this`ip, this`out
      ensures ip == old(ip) + n && out == old(out) + input[..][old(ip)..old(ip) + n]
    {
      var t := 0;
      while t < n
        invariant 0 <= t <= n && ip == old(ip) + t && out == old(out) + input[..][old(ip)..ip]
      {
        out := out + [input[ip]];
        ip := ip + 1;
        t := t + 1;
      }
    }

    /** A match and the literals behind it. */
    method CopyBoth(off: nat, len: nat, n: nat)
      requires 1 <= off <= |out| && ip + n <= input.Length
      modifies this`ip, this`out
      ensures ip == old(ip) + n && out == Copy(old(out), off, len) + input[..][old(ip)..old(ip) + n]
    {
      hide Copy;
      CopyMatch(off, len);
      CopyLiterals(n);
    }

    method CopyMatch(off: nat, len: nat)
      requires 1 <= off <= |out|
      modifies this`out
      ensures out == Copy(old(out), off, len)
    {
      var t := len;
      while t > 0
        invariant 0 <= t <= len && |out| >= |old(out)| && Copy(out, off, t) == Copy(old(out), off, len)
      {
        out := out + [out[|out| - off]];
        t := t - 1;
      }
    }

    /** copy2 and copy3: the bytes that a match of two or three bytes stands for, written into the input. */
    method CopyInto(at: nat, off: nat, len: nat)
      requires 2 <= len <= 3 && at + len <= input.Length && 1 <= off <= |out|
      modifies input
      ensures |Copied(out, off, len)| == len && input[..] == Put(old(input[..]), at, Copied(out, off, len))
    {
      hide Copied, Copy;
      CopiedBytes(out, off);
      CopyIs(out, off, len);
      var m := |out| - off;
      ghost var before := input[..];
      input[at] := out[m];
      if len == 2 {
        input[at + 1] := if off == 1 then out[m] else out[m + 1];
      } else if off == 1 {
        input[at + 1], input[at + 2] := out[m], out[m];
      } else if off == 2 {
        input[at + 1], input[at + 2] := out[m + 1], out[m];
      } else {
        input[at + 1], input[at + 2] := out[m + 1], out[m + 2];
      }
      PutFew(before, at, Copied(out, off, len));
    }

    /** memmove of the literals by one byte. */
    method MoveAhead(at: nat, n: nat)
      requires at + 1 + n <= input.Length
      modifies input
      ensures input[..] == Put(old(input[..]), at + 1, old(input[at..at + n]))
    {
      var i := n;
      while i > 0
        invariant 0 <= i <= n
        invariant forall k :: 0 <= k < input.Length ==> input[k] == if at + i < k <= at + n then old(input[k - 1]) else old(input[k])
      {
        input[at + i] := input[at + i - 1];
        i := i - 1;
      }
      ghost var b := old(input[..]);
      forall k | 0 <= k < |b| ensures input[k] == Put(b, at + 1, b[at..at + n])[k] {
        PutAt(b, at + 1, b[at..at + n], k);
      }
    }

    // ---------- instructions ----------

    /** A literal run; its first byte is at `ip`. */
    method LiteralRun()
      requires Valid() && state == Top && ip < input.Length && input[ip] < 16
      modifies this
      ensures Valid() && ip > old(ip) && goal == old(goal) && target == old(target)
    {
      hide Inv, ReadLen, RunLast, Walked, InstrsOf;
      RunInv(input[..], ip, out, st, last, litp, lit, goal);
      RunWalked(input[..], ip, out, st, last, litp, lit, goal, pieces, target);
      assert input[ip..] == input[..][ip..];
      ghost var p, out0 := ip, out;
      var t := input[ip];
      ip := ip + 1;
      litp := ip - 1;
      assert input[ip - 1..] == input[..][p..];
      var len := ReadLength(t, 15);
      lit := len + 3;
      CopyLiterals(lit);
      state, st := AfterRun, AfterRun;
      last := RunLast(input[..], p, ip - p, out0);
      pieces := pieces + [Piece(Run(lit), 1)];
    }

    /** A match that is copied and left alone; its head has been read. */
    method Plain(off: nat, len: nat, ghost p: nat)
      requires ReadFrom(p, off, len)
      requires !GivesLiterals(input[..], p, ip, litp, lit, len) && !GoesToRun(input[..], p, ip, litp, lit, len)
      requires !JoinsRuns(input[..], p, ip, litp, lit, off, len)
      modifies this
      ensures 1 <= off <= |old(out)|
      ensures Valid() && ip >= old(ip) && goal == old(goal) && target == old(target)
    {
      hide Inv, ReadHead, Copy, AtHead, Walked, InstrsOf, GivesLiterals, GoesToRun, JoinsRuns;
      PlainInv(input[..], p, ip, state, out, st, last, litp, lit, goal, off, len);
      PlainWalked(input[..], p, ip, state, out, st, last, litp, lit, goal, off, len, pieces, target);
      pieces := pieces + [Piece(Instr.Match(ip - p, off, len, input[ip - 2] % 4), 1)];
      var t := input[ip - 2] % 4;
      last := LastMatch(input[..][..p], st, out, input[..][p..ip], off, len, input[..][ip..ip + t]);
      lit := t;
      litp := ip - 2;
      state := Top;
      CopyBoth(off, len, t);
      if t != 0 {
        state := AfterLiterals;
      }
      st := state;
    }

    /** The match turns into literals of the previous match, because another match follows. */
    method AsLiterals(off: nat, len: nat, ghost p: nat)
      requires ReadFrom(p, off, len)
      requires len >= 2 && GivesLiterals(input[..], p, ip, litp, lit, len)
      modifies this, input
      ensures 1 <= off <= |old(out)| && 0 <= old(litp) < p && |Copied(old(out), off, len)| == len
      ensures input[..] == LiteralsBuf(old(input[..]), p, old(litp), Copied(old(out), off, len))
      ensures Valid() && ip == old(ip) && goal == old(goal) && target == old(target)
    {
      hide Inv, ReadHead, Copy, Copied, Put, AtHead, Walked, What, InstrsOf;
      ghost var b := input[..];
      LiteralsInv(b, p, ip, state, out, st, last, litp, lit, goal, off, len);
      LiteralsWalked(b, p, ip, state, out, st, last, litp, lit, goal, off, len, pieces, target);
      ghost var a := pieces[|pieces| - 1];
      pieces := pieces[..|pieces| - 1] + [Piece(a.what.(lits := 3), a.count + 1)];
      lit := lit + len;
      input[litp] := input[litp] - input[litp] % 4 + lit;
      CopyInto(ip - len, off, len);
      ghost var c := Copied(out, off, len);
      last := WithLits(last, last.lits + c);
      CopyMatch(off, len);
      state, st := Top, AfterLiterals;
    }

    /** The bytes of a match and of the literals in front of it become part of a literal run whose length byte was `t`. */
    method MergeRuns(off: nat, len: nat, t: Byte, ghost p: nat)
      requires 2 <= len <= 3 && 1 <= off <= |out| && ip == p + len + 1 <= input.Length
      requires 0 <= litp && litp + 2 + lit == p && lit + len + t < 16
      modifies this`litp, this`lit, input
      ensures |Copied(out, off, len)| == len && litp == old(litp) + 2 && lit == old(lit) + len + t + 3
      ensures input[..] == RunBuf(old(input[..]), p, old(litp), old(lit), Copied(out, off, len), lit - 3)
    {
      hide Copied, Put;
      input[litp] := input[litp] - input[litp] % 4;
      CopyInto(ip - len, off, len);
      litp := litp + 2;
      ghost var b := input[..];
      PutNothing(b, litp + 1);
      if lit > 0 {
        MoveAhead(litp, lit);
      }
      assert input[..] == Put(b, litp + 1, b[litp..litp + lit]);
      lit := lit + len + t + 3;
      input[litp] := lit - 3;
    }

    /** The match and the literals before it join the literal run behind it; the literals move one byte ahead. */
    method IntoRun(off: nat, len: nat, ghost p: nat)
      requires ReadFrom(p, off, len)
      requires len >= 2 && GoesToRun(input[..], p, ip, litp, lit, len)
      modifies this, input
      ensures 1 <= off <= |old(out)| && 0 <= old(litp) && old(litp + 2 + lit) == p && |Copied(old(out), off, len)| == len
      ensures var r := old(input[ip]);
              input[..] == RunBuf(old(input[..]), p, old(litp), old(lit), Copied(old(out), off, len), old(lit) + len + r)
      ensures Valid() && ip > old(ip) && goal == old(goal) && target == old(target)
    {
      hide Inv, ReadHead, Copy, Copied, Put, RunBuf, AtHead, Walked, What, InstrsOf;
      ghost var b := input[..];
      ghost var q, out0 := ToRunInv(b, p, ip, state, out, st, last, litp, lit, goal, off, len);
      ghost var c := Copied(out, off, len);
      ToRunWalked(b, p, ip, state, out, st, last, litp, lit, goal, off, len, pieces, target, q, out0,
                  RunBuf(b, p, litp, lit, c, lit + len + b[ip]), last.lits + c + b[ip + 1..ip + 4 + b[ip]]);
      ghost var a := pieces[|pieces| - 1];
      pieces := pieces[..|pieces| - 1] + [Piece(a.what.(lits := 0), a.count), Piece(Run(lit + len + b[ip] + 3), 2)];
      var t := input[ip];
      ip := ip + 1;
      MergeRuns(off, len, t, p);
      CopyBoth(off, len, t + 3);
      last := LastRun(q, out0, last.lits + c + b[ip - t - 3..ip]);
      state, st := AfterRun, AfterRun;
    }

    /** The bytes of a match follow those of the run in front, whose length byte changes; `t` was that of the run behind. */
    method LengthenRun(off: nat, t: Byte, ghost p: nat)
      requires 1 <= off <= |out| && ip == p + 3 <= input.Length && 0 <= litp < p && lit + 3 + t < 16
      modifies this`lit, input
      ensures |Copied(out, off, 3)| == 3 && lit == old(lit) + 3 + t + 3
      ensures input[..] == Put(old(input[..]), p, Copied(out, off, 3))[litp := lit - 3]
    {
      hide Copied, Put;
      CopyInto(ip - 1 - 2, off, 3);
      lit := lit + 3 + t + 3;
      input[litp] := lit - 3;
    }

    /** A match of three bytes between two literal runs joins them. */
    method BetweenRuns(off: nat, ghost p: nat)
      requires ReadFrom(p, off, 3)
      requires JoinsRuns(input[..], p, ip, litp, lit, off, 3)
      modifies this, input
      ensures 1 <= off <= |old(out)| && 0 <= old(litp) < p && |Copied(old(out), off, 3)| == 3
      ensures input[..] == Put(old(input[..]), p, Copied(old(out), off, 3))[old(litp) := old(lit + 3 + input[ip])]
      ensures Valid() && ip > old(ip) && goal == old(goal) && target == old(target)
    {
      hide Inv, ReadHead, Copy, Copied, Put, AtHead, Walked, What, InstrsOf;
      ghost var b := input[..];
      JoinInv(b, p, ip, state, out, st, last, litp, lit, goal, off);
      JoinWalked(b, p, ip, state, out, st, last, litp, lit, goal, off, pieces, target);
      pieces := pieces[..|pieces| - 1] + [Piece(Run(lit + 3 + input[ip] + 3), pieces[|pieces| - 1].count + 2)];
      ghost var c := Copied(out, off, 3);
      var t := input[ip];
      ip := ip + 1;
      LengthenRun(off, t, p);
      CopyBoth(off, 3, t + 3);
      last := LastRun(last.before, last.out, last.lits + c + b[ip - t - 3..ip]);
      state, st := AfterRun, AfterRun;
    }

    // ---------- matches ----------

    /** A first byte below 16: after a literal run three bytes from afar, otherwise (M1) two bytes from nearby. */
    method ShortMatch(t: nat, ghost p: nat)
      requires ip == p + 1 < input.Length && Inv(input[..], p, state, out, st, last, litp, lit, goal)
      requires Walked(input[..], p, state, out, pieces, target)
      requires input[p] == t < 16 && state != Top
      modifies this, input
      ensures Rewrites(old(input[..]), input[..], p, old(state), old(litp), old(lit), old(out))
      ensures Valid() && ip > p && goal == old(goal) && target == old(target)
    {
      hide Inv, ReadHead, AtHead, Copied, LiteralsBuf, RunBuf, Put, Walked;
      NearAt(input[..], p, state);
      var x: nat := input[ip];
      ip := ip + 1;
      if state == AfterRun {
        MatchPlace(input[..], p, ip, state, out, st, last, litp, lit, goal, 0x801 + t / 4 + 4 * x, 3);
        Plain(0x801 + t / 4 + 4 * x, 3, p);
      } else {
        var off := 1 + t / 4 + 4 * x;
        if litp != -1 {
          FewLiterals(input[..], p, out, st, last, litp, lit, goal);
        }
        MatchPlace(input[..], p, ip, state, out, st, last, litp, lit, goal, off, 2);
        var next := if ip < input.Length then input[ip] else 0;
        if litp != -1 && input[ip - 2] % 4 == 0 && lit == 1 && next >= 16 {
          AsLiterals(off, 2, p);
        } else if litp != -1 && input[ip - 2] % 4 == 0 && next < 16 && next != 0 && lit + 2 + next < 16 {
          IntoRun(off, 2, p);
        } else {
          Plain(off, 2, p);
        }
      }
    }

    /** A first byte of 64 or more (M2): up to eight bytes. */
    method MiddleMatch(t: nat, ghost p: nat)
      requires ip == p + 1 < input.Length && Inv(input[..], p, state, out, st, last, litp, lit, goal)
      requires Walked(input[..], p, state, out, pieces, target)
      requires input[p] == t >= 64
      modifies this, input
      ensures Rewrites(old(input[..]), input[..], p, old(state), old(litp), old(lit), old(out))
      ensures Valid() && ip > p && goal == old(goal) && target == old(target)
    {
      hide Inv, ReadHead, AtHead, Copied, LiteralsBuf, RunBuf, Put, Walked;
      NearAt(input[..], p, state);
      var x: nat := input[ip];
      ip := ip + 1;
      var off, len := 1 + t / 4 % 8 + 8 * x, t / 32 + 1;
      MatchPlace(input[..], p, ip, state, out, st, last, litp, lit, goal, off, len);
      var next := if ip < input.Length then input[ip] else 0;
      if litp != -1 && len == 3 && lit > 3 && input[ip - 2] % 4 == 0
         && next < 16 && next != 0 && lit + 3 + next < 16 {
        BetweenRuns(off, p);
      } else {
        Plain(off, len, p);
      }
    }

    /** The length and the distance of such a match; a distance of 0 is the end marker. */
    method ReadFar(t: nat, ghost p: nat) returns (off: nat, len: nat)
      requires ip == p + 1 < input.Length && Inv(input[..], p, state, out, st, last, litp, lit, goal)
      requires input[p] == t && 16 <= t < 64
      modifies this`ip
      ensures p + 3 <= ip <= input.Length
      ensures off == 0 ==> DecodeStream(input[..]) == goal == Decoded(out, input[ip..]) && ReadHead(input[..][p..], state).EndMark?
      ensures off > 0 ==> AtHead(input[..], p, ip, state, off, len + 2) && len >= 1 && (len == 1 ==> ip == p + 3)
    {
      hide Inv, ReadHead, AtHead, ReadLen, DecodeStream;
      FarAt(input[..], p, state, out, st, last, litp, lit, goal);
      assert input[p..] == input[..][p..];
      if t >= 32 {
        len := ReadLength(t % 32, 31);
        off := 1;
      } else {
        off := t / 8 % 2 * 0x4000;
        len := ReadLength(t % 8, 7);
      }
      var lo: nat, hi: nat := input[ip], input[ip + 1];
      off := off + lo / 4 + 64 * hi;
      ip := ip + 2;
      if off != 0 && t < 32 {
        off := off + 0x4000;
      }
    }

    /** Other first bytes (M3 and M4): the length may be continued, and the end marker is one of them. */
    method FarMatch(t: nat, ghost p: nat) returns (done: bool)
      requires ip == p + 1 < input.Length && Inv(input[..], p, state, out, st, last, litp, lit, goal)
      requires Walked(input[..], p, state, out, pieces, target)
      requires input[p] == t && 16 <= t < 64
      modifies this, input
      ensures ip > p && goal == old(goal) && target == old(target)
      ensures !done ==> Valid()
      ensures !done ==> Rewrites(old(input[..]), input[..], p, old(state), old(litp), old(lit), old(out))
      ensures done ==> input[..] == old(input[..]) && out == old(out)
      ensures done ==> ip <= input.Length && DecodeStream(input[..]) == goal == Decoded(out, input[ip..]) && InstrsOf(input[..]) == What(target)
    {
      hide Inv, ReadHead, AtHead, DecodeStream, Copied, LiteralsBuf, RunBuf, Put, Walked, What, InstrsOf;
      var off, len := ReadFar(t, p);
      done := off == 0;
      if done {
        WalkStops(input[..], p, state, out, st, last, litp, lit, goal, pieces, target);
        return;
      }
      MatchPlace(input[..], p, ip, state, out, st, last, litp, lit, goal, off, len + 2);
      var next := if ip < input.Length then input[ip] else 0;
      if litp != -1 && len == 1 && lit == 0 && input[ip - 2] % 4 == 0 && next >= 16 {
        AsLiterals(off, 3, p);
      } else if litp != -1 && len == 1 && lit <= 3 && input[ip - 2] % 4 == 0
                && next < 16 && next != 0 && lit + 3 + next < 16 {
        IntoRun(off, 3, p);
      } else {
        Plain(off, len + 2, p);
      }
    }

    method Match() returns (done: bool)
      requires Valid() && ip < input.Length && (state == Top ==> input[ip] >= 16)
      modifies this, input
      ensures ip > old(ip) && goal == old(goal) && target == old(target)
      ensures !done ==> Valid()
      ensures !done ==> Rewrites(old(input[..]), input[..], old(ip), old(state), old(litp), old(lit), old(out))
      ensures done ==> input[..] == old(input[..]) && out == old(out)
      ensures done ==> ip <= input.Length && DecodeStream(input[..]) == goal == Decoded(out, input[ip..]) && InstrsOf(input[..]) == What(target)
    {
      hide Inv, DecodeStream, ReadHead, Rewrites, Walked, What, InstrsOf;
      HeadThere(input[..], ip, state, out, st, last, litp, lit, goal);
      ghost var p := ip;
      var t: nat := input[ip];
      ip := ip + 1;
      done := false;
      if t < 16 {
        ShortMatch(t, p);
      } else if t >= 64 {
        MiddleMatch(t, p);
      } else {
        done := FarMatch(t, p);
      }
    }

    // ---------- the whole stream ----------

    /** A first byte above 17 stands for literals. */
    method Start()
      requires DecodeStream(input[..]) == goal && !goal.Failed?
      requires ip == 0 && out == [] && litp == -1 && lit == 0 && state == Top
      modifies this
      ensures Valid() && goal == old(goal) && target == Walk([], InstrsOf(input[..]))
    {
      hide Inv, DecodeStream, Walked, Walk, InstrsOf;
      StartInv(input[..], goal);
      st, last := Top, NoLast;
      pieces, target := [], Walk([], InstrsOf(input[..]));
      if input[0] > 17 {
        var t := input[0] - 17;
        ip := 1;
        CopyLiterals(t);
        assert out == input[..][1..1 + t];
        state := if t < 4 then AfterLiterals else AfterRun;
        st := state;
      }
      StartWalked(input[..], ip, state, out, goal);
    }

    /**
     The rewritten stream decodes to the same output, in front of the same remaining bytes or
     without an end marker as before; and that output is produced on the way.  Its instructions
     are what the walk makes of those of the stream: no match that can be removed stays.
     */
    method Optimize() returns (status: Status)
      requires !DecodeStream(input[..]).Failed?
      requires ip == 0 && out == [] && litp == -1 && lit == 0 && state == Top
      modifies this, input
      ensures ip <= input.Length && DecodeStream(input[..]) == old(DecodeStream(input[..]))
      ensures DecodeStream(input[..]) == if status.EofNotFound? then Ended(out) else Decoded(out, input[ip..])
      ensures InstrsOf(input[..]) == What(Walk([], old(InstrsOf(input[..]))))
      ensures status == if old(DecodeStream(input[..])).Ended? then EofNotFound else if ip == input.Length then Ok else InputNotConsumed
    {
      hide Inv, DecodeStream, Walked, Walk, What, InstrsOf;
      goal := DecodeStream(input[..]);
      Start();
      var done := false;
      while ip < input.Length && !done
        invariant goal == old(DecodeStream(input[..])) && ip <= input.Length && target == Walk([], old(InstrsOf(input[..])))
        invariant !done ==> Valid()
        invariant done ==> DecodeStream(input[..]) == goal == Decoded(out, input[ip..]) && InstrsOf(input[..]) == What(target)
        decreases !done, input.Length - ip
      {
        if state == Top && input[ip] < 16 {
          LiteralRun();
        } else {
          done := Match();
        }
      }
      if !done {
        AtEnd(input[..], ip, state, out, st, last, litp, lit, goal);
        WalkEnds(input[..], ip, state, out, st, last, litp, lit, goal, pieces, target);
      }
      status := if !done then EofNotFound else if ip == input.Length then Ok else InputNotConsumed;
    }
  }

  datatype Status = Ok | InputNotConsumed | EofNotFound

  lemma PutFew(s: Bytes, at: nat, data: Bytes)
    requires 2 <= |data| <= 3 && at + |data| <= |s|
    ensures Put(s, at, data) == if |data| == 2 then s[at := data[0]][at + 1 := data[1]]
                                else s[at := data[0]][at + 1 := data[1]][at + 2 := data[2]]
  {
  }

  lemma PutNothing(s: Bytes, at: nat)
    requires at <= |s|
    ensures Put(s, at, []) == s
  {
  }

  lemma NearAt(buf: Bytes, p: nat, state: State)
    requires p + 2 <= |buf| && (buf[p] < 16 || buf[p] >= 64) && (state == Top ==> buf[p] >= 16)
    ensures var t: nat, x: nat := buf[p], buf[p + 1];
            if t >= 64 then AtHead(buf, p, p + 2, state, 1 + t / 4 % 8 + 8 * x, t / 32 + 1)
            else if state == AfterRun then AtHead(buf, p, p + 2, state, 0x801 + t / 4 + 4 * x, 3)
            else AtHead(buf, p, p + 2, state, 1 + t / 4 + 4 * x, 2)
  {
    hide ReadHead;
    NearHead(buf[p..], state);
  }

  /** A long head in place: its length field, its distance, and whether it is the end marker. */
  lemma FarAt(buf: Bytes, p: nat, state: State, out: Bytes, st: State, last: Last, litp: int, lit: nat, goal: Result)
    requires Inv(buf, p, state, out, st, last, litp, lit, goal) && p < |buf| && 16 <= buf[p] < 64
    ensures var t: nat := buf[p];
            var e := if t >= 32 then ReadLen(buf[p..], t % 32, 31) else ReadLen(buf[p..], t % 8, 7);
            && e.Ext? && p + e.n + 2 <= |buf|
            && var lo: nat, hi: nat := buf[p + e.n], buf[p + e.n + 1];
               var d := (if t >= 32 then 1 else t / 8 % 2 * 0x4000) + lo / 4 + 64 * hi;
               && (e.len == 1 ==> e.n == 1)
               && if d == 0 then DecodeStream(buf) == goal == Decoded(out, buf[p + e.n + 2..]) && ReadHead(buf[p..], state).EndMark?
                  else AtHead(buf, p, p + e.n + 2, state, if t >= 32 then d else d + 0x4000, e.len + 2)
  {
    hide Inv, ReadHead, ReadLen, DecodeStream, InstrsOf, Instrs, Decode;
    HeadThere(buf, p, state, out, st, last, litp, lit, goal);
    InvDecodes(buf, p, state, out, st, last, litp, lit, goal);
    var b, t: nat := buf[p..], buf[p];
    FarHeadIs(b, state);
    var e := if t >= 32 then ReadLen(b, t % 32, 31) else ReadLen(b, t % 8, 7);
    if e.len == 1 {
      if t >= 32 {
        ShortLen(b, t % 32, 31);
      } else {
        ShortLen(b, t % 8, 7);
      }
    }
  }

  /** Right after a few literals their number is in the head of the previous match. */
  lemma FewLiterals(buf: Bytes, p: nat, out: Bytes, st: State, last: Last, litp: int, lit: nat, goal: Result)
    requires Inv(buf, p, AfterLiterals, out, st, last, litp, lit, goal) && litp != -1
    ensures lit <= 3
  {
    hide Leads, Decode, IsHead, Copy;
  }

  lemma WhereLits(pre: Bytes, st: State, out: Bytes, last: Last, litp: int, lit: nat)
    requires Shape(pre, st, out, last, litp, lit) && litp != -1 && lit < 16
    ensures 0 <= litp < |pre| && (lit <= 3 ==> litp + 2 + lit == |pre|)
  {
    hide Leads, IsHead, Copy;
  }

  lemma MatchPlace(buf: Bytes, p: nat, ip: nat, state: State, out: Bytes, st: State, last: Last, litp: int, lit: nat, goal: Result,
                    off: nat, len: nat)
    requires Inv(buf, p, state, out, st, last, litp, lit, goal) && AtHead(buf, p, ip, state, off, len)
    ensures p + 2 <= ip <= |buf| && 1 <= off <= |out| && Placed(buf, p, ip - p, litp, lit)
    ensures ReadHead(buf[p..], state) == Head(ip - p, off, len) && |Copied(out, off, len)| == len
  {
    hide Inv, ReadHead, Decode, Copy, IsHead, Leads, Shape, Copied;
    HeadFacts(buf, p, ip, state, out, st, last, litp, lit, goal, off, len);
    CopyIs(out, off, len);
    if litp != -1 && lit < 16 {
      WhereLits(buf[..p], st, out, last, litp, lit);
    }
  }

  /** Behind the last instruction of a stream without an end marker everything has been decoded. */
  lemma AtEnd(buf: Bytes, ip: nat, state: State, out: Bytes, st: State, last: Last, litp: int, lit: nat, goal: Result)
    requires Inv(buf, ip, state, out, st, last, litp, lit, goal) && ip == |buf|
    ensures DecodeStream(buf) == goal == Ended(out)
  {
    hide Leads, Shape, Decode, DecodeStream;
    InvDecodes(buf, ip, state, out, st, last, litp, lit, goal);
    NextStep(buf[ip..], state, out, goal);
  }

  /** The invariant at the first instruction. */
  lemma StartInv(buf: Bytes, goal: Result)
    requires DecodeStream(buf) == goal && !goal.Failed?
    ensures buf != []
    ensures buf[0] <= 17 ==> Inv(buf, 0, Top, [], Top, NoLast, -1, 0, goal)
    ensures buf[0] > 17 ==>
              var t := buf[0] - 17;
              var state := if t < 4 then AfterLiterals else AfterRun;
              1 + t <= |buf| && Inv(buf, 1 + t, state, buf[1..1 + t], state, NoLast, -1, 0, goal)
  {
    hide Decode, Leads;
    if buf[0] <= 17 {
      NothingRead();
      assert buf[..0] == [] && buf[0..] == buf;
    } else {
      var t := buf[0] - 17;
      LiteralStart(buf[..1 + t], if t < 4 then AfterLiterals else AfterRun);
      assert buf[..1 + t][1..] == buf[1..1 + t];
    }
  }

  lemma LiteralStart(pre: Bytes, st: State)
    requires pre != [] && pre[0] > 17 && |pre| + 16 == pre[0] && st == (if |pre| < 5 then AfterLiterals else AfterRun)
    ensures Leads(pre, st, pre[1..])
  {
    hide Decode;
    forall rest: Bytes ensures DecodeStream(pre + rest) == Decode(rest, st, pre[1..]) {
      var b := pre + rest;
      assert b[|pre|..] == rest && b[1..|pre|] == pre[1..] && b[0] == pre[0];
    }
  }

  lemma PutAt(s: Bytes, at: nat, data: Bytes, k: nat)
    requires at + |data| <= |s| && k < |s|
    ensures Put(s, at, data)[k] == if at <= k < at + |data| then data[k - at] else s[k]
  {
  }

  lemma {:induction false} ExtBounds(b: Bytes, i: nat)
    ensures ReadExt(b, i).Ext? ==> i < |b|
  {
  }

  lemma ExtNext(b: Bytes, i: nat)
    requires i < |b| && ReadExt(b, i).Ext?
    ensures if b[i] == 0 then ReadExt(b, i + 1).Ext? && ReadExt(b, i) == Ext(ReadExt(b, i + 1).n, ReadExt(b, i + 1).len + 255)
            else ReadExt(b, i) == Ext(i + 1, b[i])
  {
  }
}
