/** A reference decoder for LZO1X streams, one instruction at a time. */
module LzoFormat {
  import opened Arith

  type Bytes = seq<Byte>

  /** What the next instruction byte below 16 means: a literal run, a match after a run, or a match after a few literals. */
  datatype State = Top | AfterRun | AfterLiterals

  /** Repeat, byte by byte, what stands `off` bytes back. */
  function Copy(out: Bytes, off: nat, len: nat): (r: Bytes)
    requires 1 <= off <= |out|
    ensures |r| == |out| + len
    decreases len
  {
    if len == 0 then out else Copy(out + [out[|out| - off]], off, len - 1)
  }

  // ---------- lengths ----------

  /** A length that is continued behind a zero: zero bytes count 255 each, and the first other byte ends it. */
  datatype Ext = NoExt | Ext(n: nat, len: nat)

  function ReadExt(b: Bytes, i: nat): (r: Ext)
    ensures r.Ext? ==> i < r.n <= |b| && r.len > 0
    decreases |b| - i
  {
    if i >= |b| then NoExt
    else if b[i] != 0 then Ext(i + 1, b[i])
    else match ReadExt(b, i + 1) case NoExt => NoExt case Ext(n, len) => Ext(n, len + 255)
  }

  /** The length field of an instruction: `t` itself unless it is 0. */
  function ReadLen(b: Bytes, t: nat, base: nat): (r: Ext)
    ensures r.Ext? ==> 1 <= r.n <= |b| + 1 && r.len > 0
    ensures r.Ext? && t == 0 ==> r.n <= |b|
  {
    if t != 0 then Ext(1, t)
    else match ReadExt(b, 1) case NoExt => NoExt case Ext(n, len) => Ext(n, len + base)
  }

  // ---------- matches ----------

  /** The head of a match: its length in bytes, the distance and the length of the match; or the end marker. */
  datatype Head = NoHead | Head(n: nat, off: nat, len: nat) | EndMark(n: nat)

  function FarHead(b: Bytes, n: nat, base: nat, len: nat): (h: Head)
    ensures h.Head? ==> h.n == n + 2 <= |b| && h.off >= 1
    ensures h.EndMark? ==> h.n == n + 2 <= |b| && base == 0
  {
    if n + 2 > |b| then NoHead
    else
      var lo: nat, hi: nat := b[n], b[n + 1];
      var d := base + lo / 4 + 64 * hi;
      if d == 0 then EndMark(n + 2) else Head(n + 2, d, len)
  }

  function ReadHead(b: Bytes, st: State): (h: Head)
    ensures h.Head? ==> 2 <= h.n <= |b| && h.off >= 1 && h.len >= 2
    ensures h.EndMark? ==> 2 <= h.n <= |b|
  {
    if |b| < 2 then NoHead
    else
      var t: nat, x: nat := b[0], b[1];
      if t < 16 then
        if st == AfterRun then Head(2, 0x801 + t / 4 + 4 * x, 3) else Head(2, 1 + t / 4 + 4 * x, 2)
      else if t >= 64 then Head(2, 1 + t / 4 % 8 + 8 * x, t / 32 + 1)
      else if t >= 32 then
        match ReadLen(b, t % 32, 31) case NoExt => NoHead case Ext(n, len) => FarHead(b, n, 1, len + 2)
      else
        match ReadLen(b, t % 8, 7) case NoExt => NoHead
        case Ext(n, len) =>
          match FarHead(b, n, t / 8 % 2 * 0x4000, len + 2)
          case NoHead => NoHead
          case EndMark(m) => EndMark(m)
          case Head(m, off, l) => Head(m, off + 0x4000, l)
  }

  // ---------- instructions ----------

  datatype Step = Bad | Next(n: nat, st: State, out: Bytes) | Stop(n: nat)

  function RunStep(b: Bytes, out: Bytes): (r: Step)
    requires b != []
    ensures r.Next? ==> 0 < r.n <= |b|
    ensures !r.Stop?
  {
    match ReadLen(b, b[0], 15)
    case NoExt => Bad
    case Ext(n, len) =>
      if n + len + 3 <= |b| then Next(n + len + 3, AfterRun, out + b[n..n + len + 3]) else Bad
  }

  /** A match and the up to three literals that follow it; their number is in the last byte but one of the head. */
  function MatchStep(b: Bytes, st: State, out: Bytes): (r: Step)
    ensures r.Next? ==> 0 < r.n <= |b|
    ensures r.Stop? ==> r.n <= |b|
  {
    match ReadHead(b, st)
    case NoHead => Bad
    case EndMark(n) => Stop(n)
    case Head(n, off, len) =>
      var k := b[n - 2] % 4;
      if off <= |out| && n + k <= |b| then
        Next(n + k, if k == 0 then Top else AfterLiterals, Copy(out, off, len) + b[n..n + k])
      else Bad
  }

  function OneStep(b: Bytes, st: State, out: Bytes): (r: Step)
    ensures r.Next? ==> 0 < r.n <= |b|
    ensures r.Stop? ==> r.n <= |b|
  {
    if b == [] then Bad
    else if b[0] < 16 && st == Top then RunStep(b, out)
    else MatchStep(b, st, out)
  }

  /** The output and the bytes behind the end marker; or the output of a stream that stops after an instruction, without one. */
  datatype Result = Failed | Decoded(out: Bytes, left: Bytes) | Ended(out: Bytes)

  function Decode(b: Bytes, st: State, out: Bytes): Result
    decreases |b|
  {
    if b == [] && st == Top then Ended(out)
    else
      match OneStep(b, st, out)
      case Bad => Failed
      case Stop(n) => Decoded(out, b[n..])
      case Next(n, st', out') => Decode(b[n..], st', out')
  }

  /** An instruction as the decoder takes it: a match has the length of its head and is followed by some literals. */
  datatype Instr = Run(n: nat) | Match(head: nat, off: nat, len: nat, lits: nat) | End

  function InstrAt(b: Bytes, st: State): Instr
    requires b != []
  {
    if b[0] < 16 && st == Top then
      match ReadLen(b, b[0], 15) case NoExt => End case Ext(n, len) => Run(len + 3)
    else
      match ReadHead(b, st)
      case NoHead => End
      case EndMark(n) => End
      case Head(n, off, len) => Match(n, off, len, b[n - 2] % 4)
  }

  /** The instructions that Decode takes. */
  function Instrs(b: Bytes, st: State, out: Bytes): seq<Instr>
    decreases |b|
  {
    match OneStep(b, st, out)
    case Bad => []
    case Stop(n) => [End]
    case Next(n, st', out') => [InstrAt(b, st)] + Instrs(b[n..], st', out')
  }

  /** The literals at the start of a stream are no instruction. */
  function InstrsOf(b: Bytes): seq<Instr>
  {
    if b == [] then []
    else if b[0] <= 17 then Instrs(b, Top, [])
    else
      var t := b[0] - 17;
      if 1 + t > |b| then []
      else Instrs(b[1 + t..], if t < 4 then AfterLiterals else AfterRun, b[1..1 + t])
  }

  /** A first byte above 17 stands for some literals. */
  function DecodeStream(b: Bytes): Result
  {
    if b == [] then Failed
    else if b[0] <= 17 then Decode(b, Top, [])
    else
      var t := b[0] - 17;
      if 1 + t > |b| then Failed
      else Decode(b[1 + t..], if t < 4 then AfterLiterals else AfterRun, b[1..1 + t])
  }

  // ---------- prefixes of streams ----------

  /** A stream with a first byte, which is special when it is above 17. */
  predicate PlainStart(b: Bytes)
  {
    b != [] && b[0] <= 17
  }

  /** Decoding the prefix leads to the state `st` with the output `out`, whatever follows. */
  ghost predicate Leads(pre: Bytes, st: State, out: Bytes)
  {
    && (pre == [] ==> out == [])
    && forall rest: Bytes :: (pre == [] ==> PlainStart(rest)) ==>
         && DecodeStream(pre + rest) == Decode(rest, st, out)
         && InstrsOf(pre + rest) == InstrsOf(pre) + Instrs(rest, st, out)
  }

  lemma NothingRead()
    ensures Leads([], Top, [])
  {
    forall rest: Bytes | PlainStart(rest)
      ensures DecodeStream([] + rest) == Decode(rest, Top, []) && InstrsOf([] + rest) == InstrsOf([]) + Instrs(rest, Top, [])
    {
      assert [] + rest == rest;
    }
  }

  lemma SomethingRead(pre: Bytes, st: State, out: Bytes)
    requires Leads(pre, st, out) && out != []
    ensures pre != []
  {
    hide DecodeStream, Decode, InstrsOf, Instrs;
  }

  /** The bytes `e` are the instruction `i`, whatever follows. */
  ghost predicate Steps(e: Bytes, st: State, out: Bytes, st': State, out': Bytes, i: Instr)
  {
    e != [] && forall rest: Bytes :: OneStep(e + rest, st, out) == Next(|e|, st', out') && InstrAt(e + rest, st) == i
  }

  lemma LeadsOn(pre: Bytes, e: Bytes, st: State, out: Bytes, st': State, out': Bytes, i: Instr)
    requires Leads(pre, st, out) && Steps(e, st, out, st', out', i) && (pre != [] || e[0] <= 17)
    ensures Leads(pre + e, st', out') && InstrsOf(pre + e) == InstrsOf(pre) + [i]
  {
    hide OneStep, InstrAt, DecodeStream, InstrsOf;
    StepInstrs(e, [], st, out, st', out', i);
    assert e + [] == e && pre + e == pre + (e + []);
    NoInstrs(st', out');
    forall rest: Bytes
      ensures DecodeStream(pre + e + rest) == Decode(rest, st', out')
      ensures InstrsOf(pre + e + rest) == InstrsOf(pre + e) + Instrs(rest, st', out')
    {
      assert pre + e + rest == pre + (e + rest);
      assert OneStep(e + rest, st, out) == Next(|e|, st', out');
      assert (e + rest)[|e|..] == rest;
      StepInstrs(e, rest, st, out, st', out', i);
    }
  }

  lemma StepInstrs(e: Bytes, rest: Bytes, st: State, out: Bytes, st': State, out': Bytes, i: Instr)
    requires Steps(e, st, out, st', out', i)
    ensures Instrs(e + rest, st, out) == [i] + Instrs(rest, st', out')
  {
    hide OneStep, InstrAt;
    assert OneStep(e + rest, st, out) == Next(|e|, st', out');
    assert (e + rest)[|e|..] == rest;
  }

  lemma NoInstrs(st: State, out: Bytes)
    ensures Instrs([], st, out) == []
  {
  }

  /** A match means the same after a match without literals and after some literals. */
  lemma MatchAnywhere(b: Bytes, out: Bytes)
    requires b != [] && b[0] >= 16
    ensures Decode(b, Top, out) == Decode(b, AfterLiterals, out)
    ensures Instrs(b, Top, out) == Instrs(b, AfterLiterals, out)
  {
    hide Decode, Instrs;
    DecodeUnfolds(b, Top, out);
    DecodeUnfolds(b, AfterLiterals, out);
    InstrsUnfolds(b, Top, out);
    InstrsUnfolds(b, AfterLiterals, out);
  }

  lemma InstrsUnfolds(b: Bytes, st: State, out: Bytes)
    ensures Instrs(b, st, out)
         == match OneStep(b, st, out)
            case Bad => []
            case Stop(n) => [End]
            case Next(n, st', out') => [InstrAt(b, st)] + Instrs(b[n..], st', out')
  {
    hide OneStep, InstrAt;
  }

  lemma DecodeUnfolds(b: Bytes, st: State, out: Bytes)
    ensures Decode(b, st, out)
         == if b == [] && st == Top then Ended(out)
            else match OneStep(b, st, out)
                 case Bad => Failed
                 case Stop(n) => Decoded(out, b[n..])
                 case Next(n, st', out') => Decode(b[n..], st', out')
  {
    hide OneStep;
  }

  // ---------- heads do not depend on what follows, nor on the number of literals ----------

  /** The same head with another number of literals. */
  function SetCount(head: Bytes, k: nat): (r: Bytes)
    requires |head| >= 2 && k < 4
    ensures |r| == |head|
  {
    head[|head| - 2 := head[|head| - 2] - head[|head| - 2] % 4 + k]
  }

  /** The bytes `head` are the head of a match with this distance and length, whatever follows and however many literals. */
  ghost predicate IsHead(head: Bytes, st: State, off: nat, len: nat)
  {
    |head| >= 2 && forall k: nat, rest: Bytes :: k < 4 ==> HeadWith(head, st, off, len, k, rest)
  }

  ghost predicate HeadWith(head: Bytes, st: State, off: nat, len: nat, k: nat, rest: Bytes)
    requires |head| >= 2 && k < 4
  {
    (st == Top ==> SetCount(head, k)[0] >= 16) && ReadHead(SetCount(head, k) + rest, st) == Head(|head|, off, len)
  }

  lemma {:induction false} ExtLocal(b: Bytes, c: Bytes, i: nat)
    requires ReadExt(b, i).Ext? && ReadExt(b, i).n <= |c| && forall j :: 0 <= j < ReadExt(b, i).n ==> c[j] == b[j]
    ensures ReadExt(c, i) == ReadExt(b, i)
    decreases |b| - i
  {
    if b[i] == 0 {
      ExtLocal(b, c, i + 1);
    }
  }

  lemma LenLocal(b: Bytes, c: Bytes, t: nat, base: nat)
    requires ReadLen(b, t, base).Ext? && ReadLen(b, t, base).n <= |c| && forall j :: 0 <= j < ReadLen(b, t, base).n && j < |b| ==> c[j] == b[j]
    ensures ReadLen(c, t, base) == ReadLen(b, t, base)
  {
    if t == 0 {
      ExtLocal(b, c, 1);
    }
  }

  /** `c` agrees with `b` in its first `n` bytes, except for the number of literals in the last but one. */
  ghost predicate SameHead(b: Bytes, c: Bytes, n: nat)
  {
    && 2 <= n <= |b| && n <= |c| && b[n - 2] / 4 == c[n - 2] / 4
    && forall j :: 0 <= j < n && j != n - 2 ==> c[j] == b[j]
  }

  lemma SameQuarter(t: nat, u: nat)
    requires t / 4 == u / 4
    ensures (t < 16 <==> u < 16) && (t >= 64 <==> u >= 64) && (t >= 32 <==> u >= 32) && t / 32 == u / 32
  {
    DivDiv(t, 4, 8);
    DivDiv(u, 4, 8);
  }

  lemma HeadLocal(b: Bytes, c: Bytes, st: State)
    requires ReadHead(b, st).Head? && SameHead(b, c, ReadHead(b, st).n)
    ensures ReadHead(c, st) == ReadHead(b, st)
  {
    var n, t := ReadHead(b, st).n, b[0];
    if 16 <= t < 64 {
      hide FarHead;
      LongHead(b, st);
      LongLocal(b, c, st);
    } else {
      hide ReadLen, FarHead;
      SameQuarter(t, c[0]);
    }
  }

  lemma FarLocal(b: Bytes, c: Bytes, n: nat, base: nat, len: nat)
    requires n + 2 <= |b| && n + 2 <= |c| && b[n] / 4 == c[n] / 4 && b[n + 1] == c[n + 1]
    ensures FarHead(c, n, base, len) == FarHead(b, n, base, len)
  {
  }

  lemma LongLocal(b: Bytes, c: Bytes, st: State)
    requires ReadHead(b, st).Head? && SameHead(b, c, ReadHead(b, st).n) && 16 <= b[0] < 64 && ReadHead(b, st).n >= 3
    ensures ReadHead(c, st) == ReadHead(b, st)
  {
    hide FarHead, ReadLen;
    LongHead(b, st);
    var t: nat := b[0];
    var e := if t >= 32 then ReadLen(b, t % 32, 31) else ReadLen(b, t % 8, 7);
    if t >= 32 {
      LenLocal(b, c, t % 32, 31);
      FarLocal(b, c, e.n, 1, e.len + 2);
    } else {
      LenLocal(b, c, t % 8, 7);
      FarLocal(b, c, e.n, t / 8 % 2 * 0x4000, e.len + 2);
    }
  }

  lemma LongHead(b: Bytes, st: State)
    requires ReadHead(b, st).Head? && 16 <= b[0] < 64
    ensures ReadHead(b, st).n >= 3
    ensures var e := if b[0] >= 32 then ReadLen(b, b[0] % 32, 31) else ReadLen(b, b[0] % 8, 7);
            e.Ext? && ReadHead(b, st).n == e.n + 2
  {
  }

  /** A head that has been read is one whatever follows, with any number of literals. */
  lemma HeadRead(b: Bytes, st: State)
    requires ReadHead(b, st).Head? && (st == Top ==> b[0] >= 16)
    ensures var h := ReadHead(b, st); IsHead(b[..h.n], st, h.off, h.len)
  {
    hide ReadHead;
    var h := ReadHead(b, st);
    var head := b[..h.n];
    forall k: nat, rest: Bytes | k < 4 ensures HeadWith(head, st, h.off, h.len, k, rest) {
      var c := SetCount(head, k) + rest;
      CountQuarter(head[h.n - 2], k);
      SameQuarter(head[h.n - 2], c[h.n - 2]);
      HeadLocal(b, c, st);
    }
  }

  lemma CountQuarter(t: nat, k: nat)
    requires k < 4
    ensures (t - t % 4 + k) / 4 == t / 4 && (t - t % 4 + k) % 4 == k
  {
    DivMod(t, 4);
    DivUnique(t - t % 4 + k, 4, t / 4, k);
  }

  lemma CountOf(head: Bytes, k: nat)
    requires |head| >= 2 && k < 4
    ensures SetCount(head, k)[|head| - 2] % 4 == k
  {
    CountQuarter(head[|head| - 2], k);
  }

  lemma MatchStepIs(b: Bytes, st: State, n: nat, off: nat, len: nat, k: nat, out: Bytes)
    requires ReadHead(b, st) == Head(n, off, len) && (st == Top ==> b[0] >= 16) && off <= |out|
    requires n + k <= |b| && b[n - 2] % 4 == k
    ensures OneStep(b, st, out) == Next(n + k, if k == 0 then Top else AfterLiterals, Copy(out, off, len) + b[n..n + k])
    ensures InstrAt(b, st) == Match(n, off, len, k)
  {
    hide ReadHead, Copy, RunStep;
  }

  lemma Middle(a: Bytes, b: Bytes, c: Bytes)
    ensures (a + b + c)[|a|..|a| + |b|] == b && a + b + c == a + (b + c)
    ensures forall i :: 0 <= i < |a| ==> (a + b + c)[i] == a[i]
  {
  }

  /** A head with its literals is one instruction. */
  lemma MatchSteps(head: Bytes, st: State, off: nat, len: nat, lits: Bytes, out: Bytes)
    requires IsHead(head, st, off, len) && 1 <= off <= |out| && |lits| < 4
    ensures Steps(SetCount(head, |lits|) + lits, st, out, if lits == [] then Top else AfterLiterals, Copy(out, off, len) + lits,
                  Match(|head|, off, len, |lits|))
  {
    hide ReadHead, Copy, OneStep, InstrAt, SetCount;
    SetCountSize(head, |lits|);
    var h, n := SetCount(head, |lits|), |head|;
    forall rest: Bytes
      ensures OneStep(h + lits + rest, st, out)
           == Next(|h + lits|, if lits == [] then Top else AfterLiterals, Copy(out, off, len) + lits)
      ensures InstrAt(h + lits + rest, st) == Match(n, off, len, |lits|)
    {
      Middle(h, lits, rest);
      assert HeadWith(head, st, off, len, |lits|, lits + rest);
      SetCountSize(head, |lits|);
      CountOf(head, |lits|);
      MatchStepIs(h + lits + rest, st, n, off, len, |lits|, out);
    }
  }

  lemma SetCountSize(head: Bytes, k: nat)
    requires |head| >= 2 && k < 4
    ensures |SetCount(head, k)| == |head|
  {
  }

  /** A short literal run is one instruction. */
  lemma RunSteps(lits: Bytes, out: Bytes)
    requires 4 <= |lits| <= 18
    ensures Steps([|lits| - 3] + lits, Top, out, AfterRun, out + lits, Run(|lits|))
  {
    var t: Byte := |lits| - 3;
    forall rest: Bytes
      ensures OneStep([t] + lits + rest, Top, out) == Next(1 + |lits|, AfterRun, out + lits) && InstrAt([t] + lits + rest, Top) == Run(|lits|)
    {
      var b := [t] + lits + rest;
      assert b[0] == t && b[1..1 + |lits|] == lits;
    }
  }

  /** A literal run that has been read is one instruction. */
  lemma RunRead(b: Bytes, out: Bytes)
    requires b != [] && b[0] < 16 && RunStep(b, out).Next?
    ensures var r := RunStep(b, out); Steps(b[..r.n], Top, out, AfterRun, r.out, InstrAt(b, Top))
  {
    hide ReadExt;
    var r := RunStep(b, out);
    forall rest: Bytes
      ensures OneStep(b[..r.n] + rest, Top, out) == Next(r.n, AfterRun, r.out) && InstrAt(b[..r.n] + rest, Top) == InstrAt(b, Top)
    {
      var c := b[..r.n] + rest;
      RunLocal(b, c, out);
    }
  }

  lemma RunLocal(b: Bytes, c: Bytes, out: Bytes)
    requires b != [] && RunStep(b, out).Next? && RunStep(b, out).n <= |c| && c[..RunStep(b, out).n] == b[..RunStep(b, out).n]
    ensures RunStep(c, out) == RunStep(b, out) && ReadLen(c, b[0], 15) == ReadLen(b, b[0], 15)
  {
    hide ReadExt;
    var e, n := ReadLen(b, b[0], 15), RunStep(b, out).n;
    forall j | 0 <= j < n ensures c[j] == b[j] {
      assert c[..n][j] == b[..n][j];
    }
    LenLocal(b, c, b[0], 15);
    assert c[e.n..n] == c[..n][e.n..] == b[..n][e.n..] == b[e.n..n];
  }

  // ---------- the bytes of a short match ----------

  function Copied(out: Bytes, off: nat, len: nat): (r: Bytes)
    requires 1 <= off <= |out|
    ensures |r| == len && Copy(out, off, len) == out + r
  {
    CopyExtends(out, off, len);
    Copy(out, off, len)[|out|..]
  }

  lemma {:induction false} CopyExtends(out: Bytes, off: nat, len: nat)
    requires 1 <= off <= |out|
    ensures Copy(out, off, len) == out + Copy(out, off, len)[|out|..]
    decreases len
  {
    if len > 0 {
      CopyExtends(out + [out[|out| - off]], off, len - 1);
    } else {
      assert out[|out|..] == [];
    }
  }

  /** Source and target may overlap: with a distance of 1 or 2 bytes that were just written are read again. */
  lemma CopiedBytes(out: Bytes, off: nat)
    requires 1 <= off <= |out|
    ensures var m := |out| - off;
            && Copied(out, off, 2) == [out[m], if off == 1 then out[m] else out[m + 1]]
            && Copied(out, off, 3) == if off == 1 then [out[m], out[m], out[m]]
                                      else if off == 2 then [out[m], out[m + 1], out[m]]
                                      else [out[m], out[m + 1], out[m + 2]]
  {
    var m := |out| - off;
    var o1 := out + [out[m]];
    var o2 := o1 + [o1[m + 1]];
    var o3 := o2 + [o2[m + 2]];
    assert Copy(out, off, 2) == o2;
    assert Copy(out, off, 3) == o3;
    assert o2[|out|..] == [out[m], o1[m + 1]];
    assert o3[|out|..] == [out[m], o1[m + 1], o2[m + 2]];
  }
}
