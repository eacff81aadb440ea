/** scan_tree, send_tree and the header of a dynamic block. */
module TreeSender {
  import opened Arith
  import opened Bits
  import opened Canonical
  import opened Inflate
  import opened CodeTables
  import opened RunLengths
  import opened BitWriter

  const BL_CODES: nat := 19
  const MAX_BL_BITS: nat := 7

  // ---------- counting symbols ----------

  predicate Coded(syms: seq<ClSym>)
  {
    forall i :: 0 <= i < |syms| ==> syms[i].code < BL_CODES
  }

  /** `freq` with one more count for each symbol. */
  function Tally(freq: seq<nat>, syms: seq<ClSym>): (r: seq<nat>)
    requires |freq| == BL_CODES && Coded(syms)
    ensures |r| == BL_CODES
    decreases |syms|
  {
    if syms == [] then freq
    else Tally(freq[syms[0].code := freq[syms[0].code] + 1], syms[1..])
  }

  lemma {:induction false} TallyConcat(freq: seq<nat>, a: seq<ClSym>, b: seq<ClSym>)
    requires |freq| == BL_CODES && Coded(a) && Coded(b)
    ensures Coded(a + b)
    ensures Tally(freq, a + b) == Tally(Tally(freq, a), b)
    decreases |a|
  {
    if a == [] {
      assert a + b == b;
    } else {
      assert (a + b)[1..] == a[1..] + b;
      TallyConcat(freq[a[0].code := freq[a[0].code] + 1], a[1..], b);
    }
  }

  lemma {:induction false} TallyTimes(freq: seq<nat>, n: nat, x: ClSym)
    requires |freq| == BL_CODES && x.code < BL_CODES
    ensures Coded(Times(n, x))
    ensures Tally(freq, Times(n, x)) == freq[x.code := freq[x.code] + n]
  {
    TimesAll(n, x);
    if n > 0 {
      TallyTimes(freq, n - 1, x);
      TimesAll(n - 1, x);
      TallyConcat(freq, Times(n - 1, x), [x]);
      TallyOne(freq[x.code := freq[x.code] + (n - 1)], x);
    }
  }

  lemma TallyOne(freq: seq<nat>, x: ClSym)
    requires |freq| == BL_CODES && x.code < BL_CODES
    ensures Coded([x])
    ensures Tally(freq, [x]) == freq[x.code := freq[x.code] + 1]
  {
    assert [x][1..] == [];
    assert Tally(freq[x.code := freq[x.code] + 1], []) == freq[x.code := freq[x.code] + 1];
  }

  lemma TallyTwo(freq: seq<nat>, x: ClSym, y: ClSym)
    requires |freq| == BL_CODES && x.code < BL_CODES && y.code < BL_CODES
    ensures Coded([x] + [y])
    ensures var f := freq[x.code := freq[x.code] + 1]; Tally(freq, [x] + [y]) == f[y.code := f[y.code] + 1]
  {
    hide Tally, Coded;
    TallyOne(freq, x);
    TallyOne(Tally(freq, [x]), y);
    TallyConcat(freq, [x], [y]);
  }

  /** What scan_tree adds for one run. */
  function RunTally(freq: seq<nat>, prev: int, cur: nat, count: nat): (r: seq<nat>)
    requires |freq| == BL_CODES && cur < 16
    ensures |r| == BL_CODES
  {
    if count < MinCount(prev, cur) then freq[cur := freq[cur] + count]
    else if cur != 0 then
      var f := if cur != prev then freq[cur := freq[cur] + 1] else freq;
      f[REP_3_6 := f[REP_3_6] + 1]
    else if count <= 10 then freq[REPZ_3_10 := freq[REPZ_3_10] + 1]
    else freq[REPZ_11_138 := freq[REPZ_11_138] + 1]
  }

  lemma TallyEmit(freq: seq<nat>, prev: int, cur: nat, count: nat)
    requires |freq| == BL_CODES && cur < 16 && 1 <= count <= MaxCount(prev, cur)
    ensures Coded(Emit(prev, cur, count))
    ensures Tally(freq, Emit(prev, cur, count)) == RunTally(freq, prev, cur, count)
  {
    hide Tally, Coded, Times, MaxCount, MinCount, RunTally;
    if count < MinCount(prev, cur) {
      TallyTimes(freq, count, ClSym(cur, 0));
      TallyShort(freq, prev, cur, count);
    } else {
      TallyLong(freq, prev, cur, count);
    }
  }

  lemma TallyShort(freq: seq<nat>, prev: int, cur: nat, count: nat)
    requires |freq| == BL_CODES && cur < 16 && 1 <= count < MinCount(prev, cur)
    ensures Emit(prev, cur, count) == Times(count, ClSym(cur, 0))
    ensures RunTally(freq, prev, cur, count) == freq[cur := freq[cur] + count]
  {
  }

  lemma TallyLong(freq: seq<nat>, prev: int, cur: nat, count: nat)
    requires |freq| == BL_CODES && cur < 16 && 1 <= count && MinCount(prev, cur) <= count
    ensures Coded(Emit(prev, cur, count))
    ensures Tally(freq, Emit(prev, cur, count)) == RunTally(freq, prev, cur, count)
  {
    hide Tally, Coded, Emit, RunTally;
    EmitLong(prev, cur, count);
    RunLong(freq, prev, cur, count);
    if cur != 0 && cur != prev {
      TallyTwo(freq, ClSym(cur, 0), ClSym(REP_3_6, count - 4));
    } else if cur != 0 {
      TallyOne(freq, ClSym(REP_3_6, count - 3));
    } else if count <= 10 {
      TallyOne(freq, ClSym(REPZ_3_10, count - 3));
    } else {
      TallyOne(freq, ClSym(REPZ_11_138, count - 11));
    }
  }

  lemma EmitLong(prev: int, cur: nat, count: nat)
    requires 1 <= count && MinCount(prev, cur) <= count
    ensures cur != 0 && cur != prev ==> count >= 4 && Emit(prev, cur, count) == [ClSym(cur, 0)] + [ClSym(REP_3_6, count - 4)]
    ensures cur != 0 && cur == prev ==> count >= 3 && Emit(prev, cur, count) == [ClSym(REP_3_6, count - 3)]
    ensures cur == 0 && count <= 10 ==> count >= 3 && Emit(prev, cur, count) == [ClSym(REPZ_3_10, count - 3)]
    ensures cur == 0 && count > 10 ==> Emit(prev, cur, count) == [ClSym(REPZ_11_138, count - 11)]
  {
  }

  lemma RunLong(freq: seq<nat>, prev: int, cur: nat, count: nat)
    requires |freq| == BL_CODES && cur < 16 && MinCount(prev, cur) <= count
    ensures cur != 0 && cur != prev ==>
              var f := freq[cur := freq[cur] + 1]; RunTally(freq, prev, cur, count) == f[REP_3_6 := f[REP_3_6] + 1]
    ensures cur != 0 && cur == prev ==> RunTally(freq, prev, cur, count) == freq[REP_3_6 := freq[REP_3_6] + 1]
    ensures cur == 0 && count <= 10 ==> RunTally(freq, prev, cur, count) == freq[REPZ_3_10 := freq[REPZ_3_10] + 1]
    ensures cur == 0 && count > 10 ==> RunTally(freq, prev, cur, count) == freq[REPZ_11_138 := freq[REPZ_11_138] + 1]
  {
  }

  lemma RunsCoded(lens: Lengths, n: nat, prev: int, count: nat)
    requires n <= |lens| && Bounded(lens, 15) && (n < |lens| ==> count < MaxCount(prev, lens[n]))
    ensures Coded(Runs(lens, n, prev, count))
  {
    RunsFit(lens, n, prev, count);
    var r := Runs(lens, n, prev, count);
    forall i | 0 <= i < |r| ensures r[i].code < BL_CODES {
      assert Fits(r[i]);
    }
  }

  lemma RunsStep(freq: seq<nat>, lens: Lengths, n: nat, prev: int, count: nat)
    requires n < |lens| && Bounded(lens, 15) && count < MaxCount(prev, lens[n]) && |freq| == BL_CODES
    requires !(count + 1 < MaxCount(prev, lens[n]) && lens[n] == Next(lens, n + 1))
    ensures lens[n] < 16 && Coded(Runs(lens, n, prev, count)) && Coded(Runs(lens, n + 1, lens[n], 0))
    ensures Tally(freq, Runs(lens, n, prev, count))
         == Tally(RunTally(freq, prev, lens[n], count + 1), Runs(lens, n + 1, lens[n], 0))
  {
    hide Tally, Emit, RunTally, Coded;
    RunsCoded(lens, n, prev, count);
    RunsCoded(lens, n + 1, lens[n], 0);
    TallyEmit(freq, prev, lens[n], count + 1);
    TallyConcat(freq, Emit(prev, lens[n], count + 1), Runs(lens, n + 1, lens[n], 0));
  }

  // ---------- scan_tree ----------

  /** The table of the bit length code holds the frequencies `freq`. */
  ghost predicate HoldsFreqs(t: seq<CtData>, freq: seq<nat>)
  {
    |freq| <= |t| && forall i :: 0 <= i < |freq| ==> t[i].fc == freq[i]
  }

  /** The loop of scan_tree is about to look at length `n` of `lens`. */
  ghost predicate Scanning(lens: Lengths, n: nat, prev: int, count: nat, maxCount: nat, minCount: nat)
  {
    && n <= |lens| && Bounded(lens, 15)
    && (n < |lens| ==> maxCount == MaxCount(prev, lens[n]) && minCount == MinCount(prev, lens[n]) && count < maxCount)
  }

  lemma ScanStart(lens: Lengths)
    requires lens != [] && Bounded(lens, 15)
    ensures Scanning(lens, 0, -1, 0, if lens[0] == 0 then 138 else 7, if lens[0] == 0 then 3 else 4)
  {
  }

  lemma ScanNext(lens: Lengths, n: nat)
    requires n < |lens| && Bounded(lens, 15)
    ensures var next := Next(lens, n + 1);
            Scanning(lens, n + 1, lens[n], 0,
                     if next == 0 then 138 else if lens[n] == next then 6 else 7,
                     if next == 0 then 3 else if lens[n] == next then 3 else 4)
  {
  }

  lemma ScanContinue(lens: Lengths, n: nat, prev: int, count: nat, maxCount: nat, minCount: nat)
    requires n < |lens| && Scanning(lens, n, prev, count, maxCount, minCount)
    requires count + 1 < maxCount && lens[n] == Next(lens, n + 1)
    ensures Scanning(lens, n + 1, prev, count + 1, maxCount, minCount)
    ensures Runs(lens, n, prev, count) == Runs(lens, n + 1, prev, count + 1)
  {
  }

  lemma ScanFacts(lens: Lengths, n: nat, prev: int, count: nat, maxCount: nat, minCount: nat)
    requires n < |lens| && Scanning(lens, n, prev, count, maxCount, minCount)
    ensures Bounded(lens, 15) && lens[n] <= 15
    ensures maxCount == MaxCount(prev, lens[n]) && minCount == MinCount(prev, lens[n]) && count < maxCount
  {
  }

  /** Count the symbols of one run. */
  method CountRun(blTree: array<CtData>, prevlen: int, curlen: nat, count: nat, minCount: nat, ghost freq: seq<nat>)
    requires BL_CODES <= blTree.Length && |freq| == BL_CODES && HoldsFreqs(blTree[..], freq)
    requires curlen < 16 && minCount == MinCount(prevlen, curlen)
    modifies blTree
    ensures HoldsFreqs(blTree[..], RunTally(freq, prevlen, curlen, count))
  {
    if count < minCount {
      blTree[curlen] := blTree[curlen].(fc := blTree[curlen].fc + count);
    } else if curlen != 0 {
      if curlen != prevlen {
        blTree[curlen] := blTree[curlen].(fc := blTree[curlen].fc + 1);
      }
      blTree[REP_3_6] := blTree[REP_3_6].(fc := blTree[REP_3_6].fc + 1);
    } else if count <= 10 {
      blTree[REPZ_3_10] := blTree[REPZ_3_10].(fc := blTree[REPZ_3_10].fc + 1);
    } else {
      blTree[REPZ_11_138] := blTree[REPZ_11_138].(fc := blTree[REPZ_11_138].fc + 1);
    }
  }

  method ScanTree(tree: array<CtData>, maxCode: nat, blTree: array<CtData>, ghost freq0: seq<nat>)
    returns (ghost freq: seq<nat>)
    requires tree != blTree && maxCode + 1 < tree.Length && BL_CODES <= blTree.Length
    requires Bounded(Lens(tree[..], maxCode + 1), 15)
    requires |freq0| == BL_CODES && HoldsFreqs(blTree[..], freq0)
    modifies tree, blTree
    ensures tree[..] == old(tree[..])[maxCode + 1 := old(tree[maxCode + 1]).(dl := GUARD)]
    ensures |freq| == BL_CODES && HoldsFreqs(blTree[..], freq)
    ensures Coded(Packed(Lens(tree[..], maxCode + 1)))
    ensures freq == Tally(freq0, Packed(Lens(tree[..], maxCode + 1)))
  {
    hide Tally, RunTally, Runs, Bounded, Scanning, Coded, HoldsFreqs, MaxCount, MinCount;
    ghost var lens := Lens(tree[..], maxCode + 1);
    ghost var t0 := tree[..];
    ScanStart(lens);
    var prevlen: int, nextlen := -1, tree[0].dl;
    var count, maxCount, minCount := 0, 7, 4;
    if nextlen == 0 {
      maxCount, minCount := 138, 3;
    }
    tree[maxCode + 1] := tree[maxCode + 1].(dl := GUARD);
    assert Lens(tree[..], maxCode + 1) == lens;
    freq := freq0;
    ScanFacts(lens, 0, -1, 0, maxCount, minCount);
    RunsCoded(lens, 0, -1, 0);
    var n := 0;
    while n <= maxCode
      invariant 0 <= n <= maxCode + 1 && |freq| == BL_CODES
      invariant tree[..] == t0[maxCode + 1 := t0[maxCode + 1].(dl := GUARD)]
      invariant nextlen == tree[n].dl
      invariant Scanning(lens, n, prevlen, count, maxCount, minCount)
      invariant HoldsFreqs(blTree[..], freq)
      invariant Coded(Runs(lens, n, prevlen, count)) && Coded(Packed(lens))
      invariant Tally(freq, Runs(lens, n, prevlen, count)) == Tally(freq0, Packed(lens))
    {
      var curlen := nextlen;
      nextlen := tree[n + 1].dl;
      assert curlen == lens[n] && nextlen == Next(lens, n + 1);
      ScanFacts(lens, n, prevlen, count, maxCount, minCount);
      count := count + 1;
      if count < maxCount && curlen == nextlen {
        ScanContinue(lens, n, prevlen, count - 1, maxCount, minCount);
        n := n + 1;
        continue;
      }
      RunsStep(freq, lens, n, prevlen, count - 1);
      CountRun(blTree, prevlen, curlen, count, minCount, freq);
      freq := RunTally(freq, prevlen, curlen, count);
      count := 0;
      prevlen := curlen;
      ScanNext(lens, n);
      maxCount, minCount := 7, 4;
      if nextlen == 0 {
        maxCount, minCount := 138, 3;
      } else if curlen == nextlen {
        maxCount, minCount := 6, 3;
      }
      n := n + 1;
    }
    RunsEnd(lens, prevlen, count);
    NoTally(freq);
  }

  lemma RunsEnd(lens: Lengths, prev: int, count: nat)
    ensures Runs(lens, |lens|, prev, count) == []
  {
  }

  lemma NoTally(freq: seq<nat>)
    requires |freq| == BL_CODES
    ensures Coded([]) && Tally(freq, []) == freq
  {
  }

  // ---------- send_tree ----------

  method SendCode(w: Writer, t: array<CtData>, c: nat, ghost lens: Lengths)
    requires w.Valid() && c < |lens| <= t.Length && HoldsCode(t[..], lens, c) && lens[c] <= MAX_BITS
    modifies w, w.outbuf
    ensures w.Valid() && w.Sent() == old(w.Sent()) + CodeBits(lens, c)
    ensures t[..] == old(t[..])
  {
    hide LsbBits, CodeBits, Pow2;
    w.SendBits(t[c].fc, t[c].dl);
  }

  lemma SymsOne(cl: Lengths, s: ClSym)
    requires Sendable(cl, [s])
    ensures s.code < |cl| && SymsBits(cl, [s]) == SymBits(cl, s)
  {
    assert [s][0] == s && [s][1..] == [];
    assert SymsBits(cl, []) == [];
    assert SymBits(cl, s) + [] == SymBits(cl, s);
  }

  lemma SendableParts(cl: Lengths, a: seq<ClSym>, b: seq<ClSym>)
    requires Sendable(cl, a + b)
    ensures Sendable(cl, a) && Sendable(cl, b) && SymsBits(cl, a + b) == SymsBits(cl, a) + SymsBits(cl, b)
  {
    SymsBitsConcat(cl, a, b);
  }

  /** Send a code length symbol with its argument. */
  method SendSym(w: Writer, blTree: array<CtData>, code: nat, arg: nat, extra: nat, ghost cl: Lengths)
    requires w.Valid() && |cl| <= blTree.Length && HoldsCodes(blTree[..], cl) && Bounded(cl, MAX_BITS)
    requires extra == ClExtra(code) && Sendable(cl, [ClSym(code, arg)])
    modifies w, w.outbuf
    ensures w.Valid() && w.Sent() == old(w.Sent()) + SymsBits(cl, [ClSym(code, arg)])
    ensures blTree[..] == old(blTree[..])
  {
    hide LsbBits, CodeBits, SymsBits, Pow2, HoldsCode;
    SymsOne(cl, ClSym(code, arg));
    assert Fits([ClSym(code, arg)][0]);
    ghost var s := w.Sent();
    SendCode(w, blTree, code, cl);
    if extra != 0 {
      w.SendBits(arg, extra);
    } else {
      NoExtra(arg);
    }
    assert w.Sent() == s + (CodeBits(cl, code) + LsbBits(arg, extra));
  }

  lemma NoExtra(arg: nat)
    ensures LsbBits(arg, 0) == []
  {
  }

  method SendRun(w: Writer, blTree: array<CtData>, prevlen: int, curlen: nat, count0: nat, minCount: nat, ghost cl: Lengths)
    requires w.Valid() && |cl| <= blTree.Length && HoldsCodes(blTree[..], cl) && Bounded(cl, MAX_BITS)
    requires count0 >= 1 && curlen < 16 && minCount == MinCount(prevlen, curlen)
    requires Sendable(cl, Emit(prevlen, curlen, count0))
    modifies w, w.outbuf
    ensures w.Valid() && w.Sent() == old(w.Sent()) + SymsBits(cl, Emit(prevlen, curlen, count0))
    ensures blTree[..] == old(blTree[..])
  {
    hide SymsBits, HoldsCodes, Bounded, Sendable;
    var count := count0;
    ghost var e := Emit(prevlen, curlen, count0);
    if count < minCount {
      SendRepeated(w, blTree, curlen, count, cl);
    } else if curlen != 0 {
      if curlen != prevlen {
        assert e == [ClSym(curlen, 0)] + [ClSym(REP_3_6, count - 4)];
        SendableParts(cl, [ClSym(curlen, 0)], [ClSym(REP_3_6, count - 4)]);
        ghost var s := w.Sent();
        SendSym(w, blTree, curlen, 0, 0, cl);
        count := count - 1;
        SendSym(w, blTree, REP_3_6, count - 3, 2, cl);
        assert w.Sent() == s + (SymsBits(cl, [ClSym(curlen, 0)]) + SymsBits(cl, [ClSym(REP_3_6, count0 - 4)]));
      } else {
        SendSym(w, blTree, REP_3_6, count - 3, 2, cl);
      }
    } else if count <= 10 {
      SendSym(w, blTree, REPZ_3_10, count - 3, 3, cl);
    } else {
      SendSym(w, blTree, REPZ_11_138, count - 11, 7, cl);
    }
  }

  /** The do-while loop of send_tree. */
  method SendRepeated(w: Writer, blTree: array<CtData>, curlen: nat, count0: nat, ghost cl: Lengths)
    requires w.Valid() && |cl| <= blTree.Length && HoldsCodes(blTree[..], cl) && Bounded(cl, MAX_BITS)
    requires count0 >= 1 && curlen < 16 && Sendable(cl, Times(count0, ClSym(curlen, 0)))
    modifies w, w.outbuf
    ensures w.Valid() && w.Sent() == old(w.Sent()) + SymsBits(cl, Times(count0, ClSym(curlen, 0)))
    ensures blTree[..] == old(blTree[..])
  {
    hide SymsBits, HoldsCodes, Bounded, Sendable, Writer.Valid, Writer.Sent, Times;
    NoTimes(ClSym(curlen, 0));
    var count := count0;
    ghost var x := ClSym(curlen, 0);
    ghost var k := 0;
    ghost var s := w.Sent();
    TimesSendable(cl, count0, x, 0);
    NoSyms(cl);
    while count != 0
      invariant k + count == count0 && w.Valid() && blTree[..] == old(blTree[..])
      invariant Sendable(cl, Times(k, x)) && w.Sent() == s + SymsBits(cl, Times(k, x))
    {
      TimesSendable(cl, count0, x, k + 1);
      NextTimes(k, x);
      SendableParts(cl, Times(k, x), [x]);
      SendSym(w, blTree, curlen, 0, 0, cl);
      k := k + 1;
      count := count - 1;
    }
  }

  lemma NoTimes(x: ClSym)
    ensures Times(0, x) == []
  {
  }

  lemma NextTimes(k: nat, x: ClSym)
    ensures Times(k + 1, x) == Times(k, x) + [x]
  {
  }

  lemma NoSyms(cl: Lengths)
    ensures Sendable(cl, []) && SymsBits(cl, []) == []
  {
  }

  lemma TimesSendable(cl: Lengths, n: nat, x: ClSym, k: nat)
    requires Sendable(cl, Times(n, x)) && k <= n
    ensures Sendable(cl, Times(k, x))
  {
    TimesAll(n, x);
    TimesAll(k, x);
    if n > 0 {
      assert Times(n, x)[0] == x;
    }
  }

  lemma RunsSendable(cl: Lengths, lens: Lengths, n: nat, prev: int, count: nat)
    requires n < |lens| && Sendable(cl, Runs(lens, n, prev, count))
    requires !(count + 1 < MaxCount(prev, lens[n]) && lens[n] == Next(lens, n + 1))
    ensures Sendable(cl, Emit(prev, lens[n], count + 1)) && Sendable(cl, Runs(lens, n + 1, lens[n], 0))
    ensures SymsBits(cl, Runs(lens, n, prev, count))
         == SymsBits(cl, Emit(prev, lens[n], count + 1)) + SymsBits(cl, Runs(lens, n + 1, lens[n], 0))
  {
    hide SymsBits, Sendable, Emit;
    SendableParts(cl, Emit(prev, lens[n], count + 1), Runs(lens, n + 1, lens[n], 0));
  }

  method SendTree(w: Writer, tree: array<CtData>, maxCode: nat, blTree: array<CtData>, ghost cl: Lengths)
    requires w.Valid() && maxCode + 1 < tree.Length && tree[maxCode + 1].dl == GUARD
    requires |cl| <= blTree.Length && HoldsCodes(blTree[..], cl) && Bounded(cl, MAX_BITS)
    requires Bounded(Lens(tree[..], maxCode + 1), 15)
    requires Sendable(cl, Packed(Lens(tree[..], maxCode + 1)))
    modifies w, w.outbuf
    ensures w.Valid() && w.Sent() == old(w.Sent()) + SymsBits(cl, Packed(Lens(tree[..], maxCode + 1)))
    ensures tree[..] == old(tree[..]) && blTree[..] == old(blTree[..])
  {
    hide SymsBits, HoldsCodes, Bounded, Sendable, Runs, Scanning, MaxCount, MinCount, Emit, Writer.Valid, Writer.Sent, Times;
    ghost var lens := Lens(tree[..], maxCode + 1);
    ghost var s := w.Sent();
    ScanStart(lens);
    var prevlen: int, nextlen := -1, tree[0].dl;
    var count, maxCount, minCount := 0, 7, 4;
    if nextlen == 0 {
      maxCount, minCount := 138, 3;
    }
    var n := 0;
    while n <= maxCode
      invariant 0 <= n <= maxCode + 1 && w.Valid()
      invariant tree[..] == old(tree[..]) && blTree[..] == old(blTree[..])
      invariant nextlen == tree[n].dl
      invariant Scanning(lens, n, prevlen, count, maxCount, minCount)
      invariant Sendable(cl, Packed(lens)) && Sendable(cl, Runs(lens, n, prevlen, count))
      invariant w.Sent() + SymsBits(cl, Runs(lens, n, prevlen, count)) == s + SymsBits(cl, Packed(lens))
    {
      var curlen := nextlen;
      nextlen := tree[n + 1].dl;
      assert curlen == lens[n] && nextlen == Next(lens, n + 1);
      ScanFacts(lens, n, prevlen, count, maxCount, minCount);
      count := count + 1;
      if count < maxCount && curlen == nextlen {
        ScanContinue(lens, n, prevlen, count - 1, maxCount, minCount);
        n := n + 1;
        continue;
      }
      RunsSendable(cl, lens, n, prevlen, count - 1);
      ghost var before := w.Sent();
      SendRun(w, blTree, prevlen, curlen, count, minCount, cl);
      assert w.Sent() + SymsBits(cl, Runs(lens, n + 1, curlen, 0)) == before + (SymsBits(cl, Emit(prevlen, curlen, count)) + SymsBits(cl, Runs(lens, n + 1, curlen, 0)));
      count := 0;
      prevlen := curlen;
      ScanNext(lens, n);
      if nextlen == 0 {
        maxCount, minCount := 138, 3;
      } else if curlen == nextlen {
        maxCount, minCount := 6, 3;
      } else {
        maxCount, minCount := 7, 4;
      }
      n := n + 1;
    }
    RunsEnd(lens, prevlen, count);
    NoSyms(cl);
  }
}
