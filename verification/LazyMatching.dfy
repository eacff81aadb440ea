/** deflate: the lazy search for matches, proved to produce tokens that expand to the input. */
module LazyMatching {
  import opened Arith
  import opened Bits
  import opened Canonical
  import opened Inflate
  import opened MatchCodes
  import opened Tokens
  import opened TokenBuffer
  import opened BitWriter
  import opened BlockWriter
  import opened RollingHash
  import opened HashChains
  import opened FileReader
  import opened SlidingWindow
  import opened MatchSearch
  import opened LazyChoice

  // ---------- matches in the input ----------

  /** A match in the window is a match in the input. */
  lemma MatchInInput(win: seq<Byte>, input: seq<Byte>, base: nat, m: nat, s: nat, len: nat, dist: int)
    requires Mirrors(win, input, base) && RealMatch(win, m, s, len) && base + s + len <= |input|
    requires dist == s - m
    ensures Repeats(input, base + s, dist, len)
  {
    SliceInWindow(win, input, base, m, len);
    SliceInWindow(win, input, base, s, len);
  }

  /** Copying a repetition byte by byte extends the output by exactly the repeated bytes, also when they overlap. */
  lemma {:induction false} CopyRepeats(input: seq<Byte>, q: nat, dist: nat, len: nat)
    requires Repeats(input, q, dist, len)
    ensures Copy(input[..q], dist, len) == input[..q + len]
    decreases len
  {
    if len > 0 {
      var out := input[..q];
      assert input[q - dist] == input[q - dist..q - dist + len][0];
      assert input[q] == input[q..q + len][0];
      assert out + [out[|out| - dist]] == input[..q + 1];
      assert input[q - dist + 1..q - dist + len] == input[q - dist..q - dist + len][1..];
      assert input[q + 1..q + len] == input[q..q + len][1..];
      CopyRepeats(input, q + 1, dist, len - 1);
    }
  }

  /** One more token after those that expand to the first `q` bytes of the input. */
  lemma MatchExpands(out: seq<Byte>, toks: seq<Token>, input: seq<Byte>, q: nat, dist: nat, len: nat)
    requires Repeats(input, q, dist, len) && Expand(out, toks) == Some(input[..q])
    ensures Expand(out, toks + [Pair(dist, len)]) == Some(input[..q + len])
  {
    hide Copy, SameAt;
    CopyRepeats(input, q, dist, len);
    ExpandConcat(out, toks, [Pair(dist, len)]);
    ExpandOne(input[..q], Pair(dist, len));
  }

  lemma LiteralExpands(out: seq<Byte>, toks: seq<Token>, input: seq<Byte>, q: nat)
    requires q < |input| && Expand(out, toks) == Some(input[..q])
    ensures Expand(out, toks + [Literal(input[q])]) == Some(input[..q + 1])
  {
    ExpandConcat(out, toks, [Literal(input[q])]);
    ExpandOne(input[..q], Literal(input[q]));
    assert input[..q] + [input[q]] == input[..q + 1];
  }

  // ---------- the two objects ----------

  /** The window and the block state share no memory. */
  ghost predicate Separate(z: Window, bs: BlockState)
  {
    && z.window !in {bs.w.outbuf, bs.buf.lBuf, bs.buf.flagBuf}
    && {z.prev, z.head} !! {bs.heap, bs.depth, bs.blCount, bs.buf.dBuf}
    && {z.prev, z.head} !! {bs.mt.lengthCode, bs.mt.baseLength, bs.mt.distCode, bs.mt.baseDist}
  }

  // ---------- one search ----------

  lemma FindableSize(input: seq<Byte>, p: nat, q: nat, k: nat, budget: nat)
    requires Findable(input, p, q, k, budget)
    ensures MIN_MATCH <= k <= NICE_MATCH && p + k <= |input| && q < p
    ensures k == MIN_MATCH ==> p - q <= TOO_FAR && p + MIN_MATCH < |input|
  {
    hide HashAt, Between;
  }

  /** What is findable in the input is findable in the window, within the limit of longest_match. */
  lemma FindableInWindow(win: seq<Byte>, input: seq<Byte>, base: nat, s: nat, q: nat, k: nat, budget: nat)
    requires Mirrors(win, input, base) && (base > 0 ==> s >= MAX_DIST) && Findable(input, base + s, q, k, budget)
    ensures q > base && Limit(s) < q - base < s && SameAt(win, q - base, s, k) && s + 2 < |win|
    ensures HashAt(win, q - base) == HashAt(win, s) && Between(win, HashAt(win, s), q - base + 1, s) < budget
  {
    hide HashAt, Between, Mirrors, SameAt;
    FindableSize(input, base + s, q, k, budget);
    SameInWindow(win, input, base, s, q - base, k);
    HashInWindow(win, input, base, s);
    SameHash(win, q - base, s, k);
    BetweenInWindow(win, input, base, HashAt(win, s), q - base + 1, s);
  }

  lemma SameInWindow(win: seq<Byte>, input: seq<Byte>, base: nat, s: nat, m: nat, k: nat)
    requires Mirrors(win, input, base) && m < s && SameAt(input, base + m, base + s, k)
    ensures SameAt(win, m, s, k)
  {
    SliceInWindow(win, input, base, m, k);
    SliceInWindow(win, input, base, s, k);
  }

  lemma SliceInWindow(win: seq<Byte>, input: seq<Byte>, base: nat, a: nat, k: nat)
    requires Mirrors(win, input, base) && base + a + k <= |input|
    ensures a + k <= |win| && win[a..a + k] == input[base + a..base + a + k]
  {
    hide Mirrors;
    EndInWindow(win, input, base);
    forall i | a <= i < a + k ensures win[i] == input[base + i] {
      MirrorAt(win, input, base, i);
    }
    assert win[a..a + k] == input[base + a..base + a + k];
  }

  lemma EndInWindow(win: seq<Byte>, input: seq<Byte>, base: nat)
    requires Mirrors(win, input, base)
    ensures base <= |input| <= base + |win|
  {
  }

  lemma SameHash(win: seq<Byte>, m: nat, s: nat, k: nat)
    requires SameAt(win, m, s, k) && k >= 3
    ensures HashAt(win, m) == HashAt(win, s)
  {
    hide Hash3;
    assert win[s..s + k][0] == win[m..m + k][0] && win[s..s + k][1] == win[m..m + k][1] && win[s..s + k][2] == win[m..m + k][2];
  }

  lemma HashInWindow(win: seq<Byte>, input: seq<Byte>, base: nat, i: nat)
    requires Mirrors(win, input, base) && base + i + 2 < |input|
    ensures i + 2 < |win| && HashAt(win, i) == HashAt(input, base + i)
  {
    hide Hash3;
    MirrorAt(win, input, base, i);
    MirrorAt(win, input, base, i + 1);
    MirrorAt(win, input, base, i + 2);
  }

  lemma {:induction false} BetweenInWindow(win: seq<Byte>, input: seq<Byte>, base: nat, h: nat, lo: nat, hi: nat)
    requires Mirrors(win, input, base) && base + hi + 1 < |input|
    ensures Between(win, h, lo, hi) == Between(input, h, base + lo, base + hi)
    decreases hi - lo
  {
    hide Mirrors, HashAt;
    if lo < hi {
      HashInWindow(win, input, base, lo);
      BetweenInWindow(win, input, base, h, lo + 1, hi);
    }
  }

  /** Where no candidate is near enough, nothing is findable. */
  lemma NoneNear(win: seq<Byte>, input: seq<Byte>, base: nat, s: nat, hashHead: nat, len: int, budget: nat)
    requires Mirrors(win, input, base) && (base > 0 ==> s >= MAX_DIST) && s + 2 < |win|
    requires Latest(win, s, HashAt(win, s), hashHead) && (hashHead == 0 || s - hashHead > MAX_DIST)
    ensures NoneBetter(input, base + s, len, budget)
  {
    hide Findable, HashAt, Mirrors, Latest;
    var p := base + s;
    forall q: nat, k: nat ensures !Findable(input, p, q, k, budget) {
      NotNear(win, input, base, s, hashHead, q, k, budget);
    }
  }

  lemma NotNear(win: seq<Byte>, input: seq<Byte>, base: nat, s: nat, hashHead: nat, q: nat, k: nat, budget: nat)
    requires Mirrors(win, input, base) && (base > 0 ==> s >= MAX_DIST) && s + 2 < |win|
    requires Latest(win, s, HashAt(win, s), hashHead) && (hashHead == 0 || s - hashHead > MAX_DIST)
    ensures !Findable(input, base + s, q, k, budget)
  {
    hide Findable, HashAt, Mirrors;
    if Findable(input, base + s, q, k, budget) {
      FindableInWindow(win, input, base, s, q, k, budget);
    }
  }

  /** The result of longest_match, cut off at the end of the input and without a far match of three bytes. */
  function Cut(found: nat, lookahead: nat, dist: int): nat
  {
    var len := if found > lookahead then lookahead else found;
    if len == MIN_MATCH && dist > TOO_FAR then len - 1 else len
  }

  /** Nothing findable at `s` is longer than the result of longest_match or than the match to be beaten. */
  lemma NoneBetterFound(win: seq<Byte>, prev: seq<nat>, seen: seq<nat>, input: seq<Byte>, base: nat, s: nat, len0: nat, found: nat, m: nat, q: nat, k: nat, budget: nat)
    requires Mirrors(win, input, base) && (base > 0 ==> s >= MAX_DIST) && Findable(input, base + s, q, k, budget)
    requires s + 2 < |win| && |seen| > 0 && Latest(win, s, HashAt(win, s), seen[0])
    requires Searched(win, prev, seen, s, len0, found, m) && Follows(prev, seen, seen[0], Limit(s))
    requires found < NICE_MATCH ==> Exhausted(prev, seen, Limit(s), budget)
    ensures k <= found && (k == found > len0 && found < NICE_MATCH ==> q - base <= m)
  {
    hide Findable, HashAt, Mirrors, SameAt, Follows, Exhausted, Latest, Between, Descends;
    if found < NICE_MATCH {
      FindableInWindow(win, input, base, s, q, k, budget);
      NoneMissed(win, prev, HashAt(win, s), seen, s, Limit(s), budget, q - base);
      var i :| 0 <= i < |seen| && seen[i] == q - base;
      if k > found {
        SameLess(win, q - base, s, k, found + 1);
      }
    } else {
      FindableSize(input, base + s, q, k, budget);
    }
  }

  lemma NoneBetterCut(win: seq<Byte>, prev: seq<nat>, seen: seq<nat>, input: seq<Byte>, base: nat, s: nat, len0: nat, found: nat, m: nat,
                      dist: int, budget: nat)
    requires Mirrors(win, input, base) && (base > 0 ==> s >= MAX_DIST) && base + s <= |input|
    requires s + 2 < |win| && |seen| > 0 && Latest(win, s, HashAt(win, s), seen[0])
    requires Searched(win, prev, seen, s, len0, found, m) && Follows(prev, seen, seen[0], Limit(s))
    requires found < NICE_MATCH ==> Exhausted(prev, seen, Limit(s), budget)
    requires len0 <= found && (found > len0 ==> dist == s - m)
    ensures NoneBetter(input, base + s, Max(Cut(found, |input| - base - s, dist), len0), budget)
  {
    hide Findable, HashAt, Mirrors, SameAt, Follows, Exhausted, Latest, Searched;
    var p := base + s;
    forall q: nat, k: nat | Findable(input, p, q, k, budget) ensures k <= Max(Cut(found, |input| - p, dist), len0) {
      NoneBetterFound(win, prev, seen, input, base, s, len0, found, m, q, k, budget);
      FindableSize(input, p, q, k, budget);
    }
  }

  /** A match that was found and cut off still is a repetition and could not be longer. */
  lemma MaximalCut(win: seq<Byte>, prev: seq<nat>, seen: seq<nat>, input: seq<Byte>, base: nat, s: nat, len0: nat, found: nat, m: nat, len: nat)
    requires Mirrors(win, input, base) && s <= WINDOW_SIZE && |win| == WINDOW_ROOM
    requires Searched(win, prev, seen, s, len0, found, m) && len0 < found <= MAX_MATCH
    requires base + s <= |input| && len == (if found > |input| - base - s then |input| - base - s else found)
    ensures len > MIN_MATCH || (len == MIN_MATCH && s - m <= TOO_FAR) ==> Maximal(input, base + s, s - m, len)
  {
    hide SameAt, Mirrors, NoneLonger, Closest, Descends, HashAt;
    RealMatchLess(win, m, s, found, len);
    MatchInInput(win, input, base, m, s, len, s - m);
    if len < MAX_MATCH && base + s + len < |input| {
      MirrorAt(win, input, base, s + len);
      MirrorAt(win, input, base, m + len);
      if win[s + len] == win[m + len] {
        SameExtend(win, m, s, len);
        assert false;
      }
    }
  }

  /** The search at `strstart`: a match that is longer than the previous one is real, and nothing findable is missed. */
  method FindMatch(z: Window, hashHead: nat, matchLength0: nat) returns (matchLength: nat)
    requires z.Valid() && z.lookahead > 0 && 1 <= matchLength0 <= MAX_MATCH && (z.eofile || z.lookahead >= MIN_LOOKAHEAD)
    requires Chains(z.window[..], z.prev[..], z.head[..], z.strstart + 1)
    requires hashHead != 0 ==> z.Candidate(hashHead)
    requires Latest(z.window[..], z.strstart, HashAt(z.window[..], z.strstart), hashHead)
    modifies z`prevLength, z`matchStart
    ensures z.Valid() && z.prevLength == matchLength0 && 1 <= matchLength <= MAX_MATCH
    ensures Found(z.reader.delivered, z.base + z.strstart, matchLength0, matchLength, z.MatchDistance())
  {
    hide Chains, Mirrors, HashAt, SameAt, Follows, Exhausted, NoneLonger, Latest, Searched, NoneBetter, Maximal;
    ghost var win, input, base, s := z.window[..], z.reader.delivered, z.base, z.strstart;
    z.prevLength := matchLength0;
    matchLength := MIN_MATCH - 1;
    if hashHead != 0 && z.prevLength < MAX_LAZY_MATCH && z.strstart - hashHead <= MAX_DIST {
      ghost var seen;
      matchLength, seen := LongestMatch(z, hashHead);
      ghost var found := matchLength;
      SearchStart(win, z.prev[..], seen, hashHead, s, z.prevLength, found, z.matchStart);
      NoneBetterCut(win, z.prev[..], seen, input, base, s, z.prevLength, found, z.matchStart, z.MatchDistance(), Budget(z.prevLength));
      if matchLength > z.lookahead {
        matchLength := z.lookahead;
      }
      if found > z.prevLength {
        MaximalCut(win, z.prev[..], seen, input, base, s, z.prevLength, found, z.matchStart, matchLength);
      }
      if matchLength == MIN_MATCH && (z.strstart - z.matchStart) % 0x1_0000_0000 > TOO_FAR {
        matchLength := matchLength - 1;
      }
    } else if matchLength0 < MAX_LAZY_MATCH {
      NoneNear(win, input, base, s, hashHead, Max(matchLength, matchLength0), Budget(matchLength0));
    }
  }

  lemma SearchStart(win: seq<Byte>, prev: seq<nat>, seen: seq<nat>, cur: nat, s: nat, len0: nat, len: nat, m: nat)
    requires Follows(prev, seen, cur, Limit(s)) && Searched(win, prev, seen, s, len0, len, m)
    ensures |seen| > 0 && seen[0] == cur && (len > len0 ==> 1 <= m < s && s - m <= MAX_DIST)
  {
    hide SameAt, NoneLonger, Closest, Descends, HashAt;
  }

  lemma RealMatchLess(win: seq<Byte>, m: nat, s: nat, len: nat, len': nat)
    requires RealMatch(win, m, s, len) && len' <= len
    ensures RealMatch(win, m, s, len')
  {
    SameLess(win, m, s, len, len');
  }

  // ---------- emitting tokens ----------

  /** Insert in the chains all strings up to the end of the match at `strstart - 1`. */
  method InsertRest(z: Window)
    requires z.window.Length == WINDOW_ROOM && z.prev.Length == WSIZE && z.head.Length == HASH_SIZE && z.prev != z.head
    requires z.Indexed(z.strstart + 1) && z.prevLength >= MIN_MATCH && z.strstart + z.prevLength <= WINDOW_SIZE + 1
    modifies z`strstart, z`prevLength, z`insH, z.prev, z.head
    ensures z.Indexed(z.strstart) && z.strstart == old(z.strstart) + old(z.prevLength) - 1
  {
    hide Chains, Rolling;
    z.prevLength := z.prevLength - 2;
    while true
      invariant z.prevLength >= 1 && z.strstart + z.prevLength == old(z.strstart) + old(z.prevLength) - 2
      invariant z.Indexed(z.strstart + 1)
      decreases z.prevLength
    {
      z.strstart := z.strstart + 1;
      var hashHead := z.InsertString();
      z.prevLength := z.prevLength - 1;
      if z.prevLength == 0 { break; }
    }
    z.strstart := z.strstart + 1;
  }

  /** Record the match found at the previous position. */
  method TallyMatch(z: Window, bs: BlockState, prevMatch: nat, ghost out: seq<Byte>) returns (flush: bool)
    requires z.Valid() && bs.Valid() && Separate(z, bs) && z.strstart >= 1 && |bs.buf.toks| < LIT_BUFSIZE - 1
    requires MIN_MATCH <= z.prevLength <= MAX_MATCH && z.base + z.strstart - 1 + z.prevLength <= |z.reader.delivered|
    requires Repeats(z.reader.delivered, z.base + z.strstart - 1, (z.strstart - 1 - prevMatch) % 0x1_0000_0000, z.prevLength)
    requires Expand(out, bs.buf.toks) == Some(z.reader.delivered[..z.base + z.strstart - 1])
    modifies bs.buf, bs.buf.lBuf, bs.buf.dBuf, bs.buf.flagBuf, bs.ltree, bs.dtree
    ensures z.Valid() && bs.Valid()
    ensures Expand(out, bs.buf.toks) == Some(z.reader.delivered[..z.base + z.strstart - 1 + z.prevLength])
    ensures bs.w.Valid() && bs.w.Sent() == old(bs.w.Sent())
    ensures bs.buf.toks == old(bs.buf.toks) + [Pair((z.strstart - 1 - prevMatch) % 0x1_0000_0000, z.prevLength)]
    ensures if flush then |bs.buf.toks| >= 4096 else |bs.buf.toks| < LIT_BUFSIZE - 1
  {
    hide Mirrors, Repeats, Expand, BlockState.Valid, WantsFlush, Writer.Valid, Writer.Sent;
    bs.Ongoing();
    ghost var q, toks := z.base + z.strstart - 1, bs.buf.toks;
    RepeatsBounds(z.reader.delivered, q, (z.strstart - 1 - prevMatch) % 0x1_0000_0000, z.prevLength);
    var dist := (z.strstart - 1 - prevMatch) % 0x1_0000_0000;
    MatchExpands(out, toks, z.reader.delivered, q, dist, z.prevLength);
    flush := bs.CtTally(dist, z.prevLength - MIN_MATCH, z.strstart, z.blockStart);
    AskedFor(bs, flush, z.strstart, z.blockStart);
  }

  /** Output the match found at the previous position and move behind it. */
  method EmitMatch(z: Window, bs: BlockState, prevMatch: nat, ghost out: seq<Byte>) returns (flush: bool)
    requires z.Valid() && bs.Valid() && Separate(z, bs) && z.Indexed(z.strstart + 1) && |bs.buf.toks| < LIT_BUFSIZE - 1
    requires z.strstart >= 1 && MIN_MATCH <= z.prevLength <= MAX_MATCH && z.prevLength - 1 <= z.lookahead
    requires Repeats(z.reader.delivered, z.base + z.strstart - 1, (z.strstart - 1 - prevMatch) % 0x1_0000_0000, z.prevLength)
    requires Expand(out, bs.buf.toks) == Some(z.reader.delivered[..z.base + z.strstart - 1])
    modifies z`strstart, z`prevLength, z`lookahead, z`insH, z.prev, z.head
    modifies bs.buf, bs.buf.lBuf, bs.buf.dBuf, bs.buf.flagBuf, bs.ltree, bs.dtree
    ensures z.Valid() && bs.Valid() && z.Indexed(z.strstart)
    ensures z.strstart == old(z.strstart) + old(z.prevLength) - 1
    ensures z.lookahead == old(z.lookahead) - (old(z.prevLength) - 1)
    ensures Expand(out, bs.buf.toks) == Some(z.reader.delivered[..z.base + z.strstart])
    ensures bs.w.Valid() && bs.w.Sent() == old(bs.w.Sent())
    ensures bs.buf.toks == old(bs.buf.toks) + [Pair((old(z.strstart) - 1 - prevMatch) % 0x1_0000_0000, old(z.prevLength))]
    ensures if flush then |bs.buf.toks| >= 4096 else |bs.buf.toks| < LIT_BUFSIZE - 1
  {
    hide Mirrors, Repeats, Chains, Rolling, Expand, BlockState.Valid, Reader.Valid, Writer.Valid, Writer.Sent;
    flush := TallyMatch(z, bs, prevMatch, out);
    z.lookahead := z.lookahead - (z.prevLength - 1);
    InsertRest(z);
  }

  lemma AskedFor(bs: BlockState, flush: bool, strstart: nat, blockStart: int)
    requires bs.Valid() && flush == WantsFlush(bs.mt.Tb(), bs.buf.toks, (strstart - blockStart) % 0x1_0000_0000)
    requires |bs.buf.toks| > 0
    ensures bs.w.Valid() && if flush then |bs.buf.toks| >= 4096 else |bs.buf.toks| < LIT_BUFSIZE - 1
  {
    bs.Ongoing();
  }

  /** Output the byte before `strstart`. */
  method EmitLiteral(z: Window, bs: BlockState, ghost out: seq<Byte>) returns (flush: bool)
    requires z.Valid() && bs.Valid() && Separate(z, bs) && z.strstart >= 1 && |bs.buf.toks| < LIT_BUFSIZE - 1
    requires z.base + z.strstart <= |z.reader.delivered|
    requires Expand(out, bs.buf.toks) == Some(z.reader.delivered[..z.base + z.strstart - 1])
    modifies bs.buf, bs.buf.lBuf, bs.buf.dBuf, bs.buf.flagBuf, bs.ltree, bs.dtree
    ensures z.Valid() && bs.Valid()
    ensures Expand(out, bs.buf.toks) == Some(z.reader.delivered[..z.base + z.strstart])
    ensures bs.w.Valid() && bs.w.Sent() == old(bs.w.Sent())
    ensures bs.buf.toks == old(bs.buf.toks) + [Literal(z.reader.delivered[z.base + z.strstart - 1])]
    ensures if flush then |bs.buf.toks| >= 4096 else |bs.buf.toks| < LIT_BUFSIZE - 1
  {
    hide Mirrors, Expand, BlockState.Valid, WantsFlush, Writer.Valid, Writer.Sent;
    bs.Ongoing();
    ghost var q := z.base + z.strstart - 1;
    MirrorAt(z.window[..], z.reader.delivered, z.base, z.strstart - 1);
    LiteralExpands(out, bs.buf.toks, z.reader.delivered, q);
    flush := bs.CtTally(0, z.window[z.strstart - 1], z.strstart, z.blockStart);
    AskedFor(bs, flush, z.strstart, z.blockStart);
  }

  // ---------- blocks ----------

  /** Reading the blocks in `s` behind `pre` leads to the end of `s` with the output `out`. */
  ghost predicate DecodesTo(s: BitString, pre: BitString, out: seq<Byte>)
  {
    pre <= s && forall full: BitString :: s <= full ==> ReadBlocks(full, |pre|, []) == ReadBlocks(full, |s|, out)
  }

  /** Reading the blocks in `s`, of which the last one is marked, gives `out`. */
  ghost predicate DecodesAll(s: BitString, pre: BitString, out: seq<Byte>)
  {
    pre <= s && forall full: BitString :: s <= full ==> ReadBlocks(full, |pre|, []) == Got(out, |s|)
  }

  lemma OneMoreBlock(s0: BitString, s: BitString, pre: BitString, eof: bool, out: seq<Byte>, final: seq<Byte>)
    requires DecodesTo(s0, pre, out) && ReadsTo(s0, s, eof, out, final)
    ensures if eof then DecodesAll(s, pre, final) else DecodesTo(s, pre, final)
  {
    hide ReadBlock;
    forall full: BitString | s <= full
      ensures ReadBlocks(full, |pre|, []) == if eof then Got(final, |s|) else ReadBlocks(full, |s|, final)
    {
      assert s0 <= full;
      assert ReadBlocks(full, |s0|, out) == if eof then Got(final, |s|) else ReadBlocks(full, |s|, final);
    }
  }

  lemma BlockBytes(win: seq<Byte>, input: seq<Byte>, base: nat, from: nat, to: nat)
    requires Mirrors(win, input, base) && from <= to && base + to <= |input|
    ensures to <= |win| && input[..base + from] + win[from..to] == input[..base + to]
  {
    SliceInWindow(win, input, base, from, to - from);
    assert input[..base + from] + input[base + from..base + to] == input[..base + to];
  }

  /** The bytes of the current block, if they are still all in the window. */
  method RawBlock(z: Window) returns (raw: seq<Byte>, hasBuf: bool)
    requires z.Valid()
    ensures hasBuf ==> |raw| == z.strstart - z.blockStart
    ensures hasBuf ==> z.reader.delivered[..z.base + z.blockStart] + raw == z.reader.delivered[..z.base + z.strstart]
  {
    hide Mirrors;
    hasBuf := z.blockStart >= 0;
    raw := [];
    if hasBuf {
      BlockBytes(z.window[..], z.reader.delivered, z.base, z.blockStart, z.strstart);
      raw := z.window[z.blockStart..z.strstart];
    }
  }

  /** FLUSH_BLOCK: end the block at `strstart`. */
  method FlushTo(z: Window, bs: BlockState, eof: bool, ghost pre: BitString, ghost out: seq<Byte>) returns (ghost s: BitString)
    requires z.Valid() && bs.Valid() && Separate(z, bs)
    requires out == z.reader.delivered[..z.base + z.blockStart]
    requires Expand(out, bs.buf.toks) == Some(z.reader.delivered[..z.base + z.strstart])
    requires DecodesTo(bs.w.Sent(), pre, out)
    modifies bs, bs.w, bs.w.outbuf, bs.buf, bs.buf.flagBuf, bs.ltree, bs.dtree, bs.blTree, bs.heap, bs.depth, bs.blCount
    ensures z.Valid() && bs.Valid() && bs.buf.toks == [] && bs.w.Valid()
    ensures if eof then DecodesAll(s, pre, z.reader.delivered[..z.base + z.strstart])
            else DecodesTo(s, pre, z.reader.delivered[..z.base + z.strstart])
    ensures old(bs.w.Sent()) <= s && bs.w.Sent() == s + (if eof then Padding(|s|) else []) && (eof ==> bs.w.biValid == 0)
    ensures |s| <= |old(bs.w.Sent())| + 31 * |old(bs.buf.toks)| + 40
  {
    hide Mirrors, Expand, BlockState.Valid, DecodesTo, DecodesAll, BlockBits, ReadsTo, Writer.Valid, Writer.Sent, Padding, Reader.Valid, BlockState.Shape;
    bs.Ongoing();
    ghost var s0, final := bs.w.Sent(), z.reader.delivered[..z.base + z.strstart];
    var raw, hasBuf := RawBlock(z);
    ghost var tr;
    tr, s := bs.FlushBlock(raw, hasBuf, z.strstart - z.blockStart, eof, out, final);
    ReadsOn(s0, s, eof, out, final);
    OneMoreBlock(s0, s, pre, eof, out, final);
    bs.Ongoing();
  }

  lemma ReadsOn(s0: BitString, s: BitString, eof: bool, out: seq<Byte>, final: seq<Byte>)
    requires ReadsTo(s0, s, eof, out, final)
    ensures s0 <= s
  {
    hide ReadBlock;
  }

  // ---------- the whole run ----------

  /** Where the tokens recorded so far end: one byte may still be pending. */
  ghost function Emitted(z: Window, available: bool): int
    reads z
  {
    z.base + z.strstart - (if available then 1 else 0)
  }

  /** The end of the input has been reached in earnest. */
  ghost predicate Ended(z: Window)
    reads z, z.reader
  {
    z.eofile ==> z.reader.rest == [] || z.reader.failed
  }

  lemma PreviousDistance(s: nat, m: nat)
    requires 1 <= (s - m) % 0x1_0000_0000
    ensures (s - 1 - m) % 0x1_0000_0000 == (s - m) % 0x1_0000_0000 - 1
  {
  }

  lemma NextDistance(s: nat, m: nat)
    requires (s - m) % 0x1_0000_0000 <= MAX_DIST
    ensures (s + 1 - m) % 0x1_0000_0000 == (s - m) % 0x1_0000_0000 + 1
  {
  }

  /** Tokens are followed through a block boundary. */
  method FlushAndFollow(z: Window, bs: BlockState, ghost pre: BitString)
    requires z.Valid() && bs.Valid() && Separate(z, bs)
    requires Expand(z.reader.delivered[..z.base + z.blockStart], bs.buf.toks) == Some(z.reader.delivered[..z.base + z.strstart])
    requires DecodesTo(bs.w.Sent(), pre, z.reader.delivered[..z.base + z.blockStart]) && |bs.buf.toks| >= 4096
    modifies z`blockStart, bs, bs.w, bs.w.outbuf, bs.buf, bs.buf.flagBuf, bs.ltree, bs.dtree, bs.blTree, bs.heap, bs.depth, bs.blCount
    ensures z.Valid() && bs.Valid() && bs.buf.toks == [] && bs.w.Valid()
    ensures Expand(z.reader.delivered[..z.base + z.blockStart], bs.buf.toks) == Some(z.reader.delivered[..z.base + z.strstart])
    ensures DecodesTo(bs.w.Sent(), pre, z.reader.delivered[..z.base + z.blockStart])
    ensures |bs.w.Sent()| <= |old(bs.w.Sent())| + 32 * |old(bs.buf.toks)|
  {
    hide Mirrors, Expand, BlockState.Valid, DecodesTo, Writer.Valid, Writer.Sent, Padding;
    ghost var s := FlushTo(z, bs, false, pre, z.reader.delivered[..z.base + z.blockStart]);
    assert s + [] == s;
    z.blockStart := z.strstart;
    ExpandNothing(z.reader.delivered[..z.base + z.strstart]);
  }

  lemma ExpandNothing(out: seq<Byte>)
    ensures Expand(out, []) == Some(out)
  {
  }

  /**
   The output decoded so far, the recorded tokens, and room for one more of them.  The tokens of the
   finished blocks are `done`, and they took at most 32 bits each.
   */
  ghost predicate Recorded(z: Window, bs: BlockState, pre: BitString, done: seq<Token>, available: bool)
    reads z, z.window, z.reader, bs.w, bs.w.outbuf, bs.buf
  {
    && z.Valid() && bs.w.Valid() && (available ==> z.strstart >= 1)
    && |bs.buf.toks| < LIT_BUFSIZE - 1
    && Expand(z.reader.delivered[..z.base + z.blockStart], bs.buf.toks) == Some(z.reader.delivered[..Emitted(z, available)])
    && DecodesTo(bs.w.Sent(), pre, z.reader.delivered[..z.base + z.blockStart])
    && |bs.w.Sent()| <= |pre| + 32 * |done|
  }

  /** All tokens recorded since the start, and what waits for the next search, are chosen by the rules. */
  ghost predicate Logged(z: Window, bs: BlockState, done: seq<Token>, available: bool, dist: int, len: nat, reach: nat)
    reads z, z.reader, bs.buf
  {
    Emitted(z, available) >= 0 && Told(z.reader.delivered, done + bs.buf.toks, available, Emitted(z, available), dist, len, reach)
  }

  /** First branch of deflate: the match at the previous position is not shorter than the current one. */
  method AdoptMatch(z: Window, bs: BlockState, prevMatch: nat, ghost pre: BitString, ghost done0: seq<Token>) returns (ghost done: seq<Token>)
    requires z.Valid() && bs.Valid() && Separate(z, bs) && z.Indexed(z.strstart + 1)
    requires Recorded(z, bs, pre, done0, true) && MIN_MATCH <= z.prevLength <= MAX_MATCH && z.prevLength - 1 <= z.lookahead
    requires Repeats(z.reader.delivered, z.base + z.strstart - 1, (z.strstart - 1 - prevMatch) % 0x1_0000_0000, z.prevLength)
    modifies z`strstart, z`prevLength, z`lookahead, z`insH, z.prev, z.head, z`blockStart
    modifies bs, bs.w, bs.w.outbuf, bs.buf, bs.buf.lBuf, bs.buf.dBuf, bs.buf.flagBuf, bs.ltree, bs.dtree, bs.blTree, bs.heap, bs.depth, bs.blCount
    ensures z.Valid() && bs.Valid() && z.Indexed(z.strstart)
    ensures z.lookahead == old(z.lookahead) - (old(z.prevLength) - 1)
    ensures z.strstart == old(z.strstart) + old(z.prevLength) - 1
    ensures Recorded(z, bs, pre, done, false)
    ensures done + bs.buf.toks == done0 + old(bs.buf.toks) + [Pair((old(z.strstart) - 1 - prevMatch) % 0x1_0000_0000, old(z.prevLength))]
  {
    hide Mirrors, Expand, BlockState.Valid, DecodesTo, Writer.Valid, Writer.Sent, Padding, Chains, Rolling, Repeats;
    var flush := EmitMatch(z, bs, prevMatch, z.reader.delivered[..z.base + z.blockStart]);
    done := done0;
    if flush {
      done := done0 + bs.buf.toks;
      FlushAndFollow(z, bs, pre);
    }
  }

  /** Second branch: the byte at the previous position becomes a literal. */
  method AdoptLiteral(z: Window, bs: BlockState, ghost pre: BitString, ghost done0: seq<Token>) returns (ghost done: seq<Token>)
    requires z.Valid() && bs.Valid() && Separate(z, bs) && Recorded(z, bs, pre, done0, true)
    modifies z`blockStart
    modifies bs, bs.w, bs.w.outbuf, bs.buf, bs.buf.lBuf, bs.buf.dBuf, bs.buf.flagBuf, bs.ltree, bs.dtree, bs.blTree, bs.heap, bs.depth, bs.blCount
    ensures z.Valid() && bs.Valid() && Recorded(z, bs, pre, done, false)
    ensures 0 < z.base + z.strstart <= |z.reader.delivered|
    ensures done + bs.buf.toks == done0 + old(bs.buf.toks) + [Literal(z.reader.delivered[z.base + z.strstart - 1])]
  {
    hide Mirrors, Expand, BlockState.Valid, DecodesTo, Writer.Valid, Writer.Sent, Padding;
    var flush := EmitLiteral(z, bs, z.reader.delivered[..z.base + z.blockStart]);
    done := done0;
    if flush {
      done := done0 + bs.buf.toks;
      FlushAndFollow(z, bs, pre);
    }
  }

  /** Move on by one byte, which is pending now. */
  method Advance(z: Window, bs: BlockState, ghost pre: BitString, ghost done: seq<Token>)
    requires z.Valid() && bs.Valid() && z.Indexed(z.strstart + 1) && z.lookahead > 0 && Recorded(z, bs, pre, done, false)
    modifies z`strstart, z`lookahead
    ensures z.Valid() && bs.Valid() && z.Indexed(z.strstart) && Recorded(z, bs, pre, done, true)
    ensures z.lookahead == old(z.lookahead) - 1 && z.strstart == old(z.strstart) + 1
  {
    hide Mirrors, Expand, BlockState.Valid, DecodesTo, Writer.Valid, Writer.Sent, Chains, Rolling;
    bs.Ongoing();
    z.strstart := z.strstart + 1;
    z.lookahead := z.lookahead - 1;
  }

  // ---------- the loop ----------

  /** A pending match is a match in the input. */
  ghost predicate Pending(z: Window, available: bool, matchLength: nat)
    reads z, z.reader
  {
    && 1 <= matchLength <= MAX_MATCH
    && (matchLength >= MIN_MATCH ==>
          available && z.strstart >= 1
          && Repeats(z.reader.delivered, z.base + z.strstart - 1, z.MatchDistance() - 1, matchLength))
  }

  /** The other two branches: the current match is kept for the next step. */
  method KeepMatch(z: Window, bs: BlockState, available: bool, matchLength: nat, ghost pre: BitString, ghost done0: seq<Token>)
    returns (ghost done: seq<Token>)
    requires z.Valid() && bs.Valid() && Separate(z, bs) && z.Indexed(z.strstart + 1) && z.lookahead > 0
    requires Recorded(z, bs, pre, done0, available) && 1 <= matchLength <= MAX_MATCH
    requires matchLength >= MIN_MATCH ==> Repeats(z.reader.delivered, z.base + z.strstart, z.MatchDistance(), matchLength)
    modifies z`strstart, z`lookahead, z`blockStart
    modifies bs, bs.w, bs.w.outbuf, bs.buf, bs.buf.lBuf, bs.buf.dBuf, bs.buf.flagBuf, bs.ltree, bs.dtree, bs.blTree, bs.heap, bs.depth, bs.blCount
    ensures z.Valid() && bs.Valid() && z.Indexed(z.strstart) && z.strstart == old(z.strstart) + 1
    ensures Recorded(z, bs, pre, done, true) && Pending(z, true, matchLength)
    ensures z.lookahead == old(z.lookahead) - 1 && (matchLength >= MIN_MATCH ==> z.MatchDistance() - 1 == old(z.MatchDistance()))
    ensures 0 < z.base + z.strstart <= |z.reader.delivered|
    ensures available ==> old(z.base + z.strstart) > 0
    ensures done + bs.buf.toks
         == done0 + old(bs.buf.toks) + (if available then [Literal(z.reader.delivered[old(z.base + z.strstart) - 1])] else [])
  {
    hide Mirrors, Expand, BlockState.Valid, DecodesTo, Writer.Valid, Writer.Sent, Chains, Rolling, Repeats, Recorded;
    if matchLength >= MIN_MATCH {
      RepeatsBounds(z.reader.delivered, z.base + z.strstart, z.MatchDistance(), matchLength);
      NextDistance(z.strstart, z.matchStart);
    }
    done := done0;
    if available {
      done := AdoptLiteral(z, bs, pre, done0);
    }
    Advance(z, bs, pre, done);
  }

  /** Insert the current string and look for a match; nothing is recorded yet. */
  method Search(z: Window, bs: BlockState, available: bool, matchLength0: nat, ghost pre: BitString, ghost done: seq<Token>)
    returns (prevMatch: nat, matchLength: nat)
    requires z.eofile || z.lookahead >= MIN_LOOKAHEAD
    requires z.Valid() && bs.Valid() && Separate(z, bs) && z.Indexed(z.strstart) && z.lookahead > 0
    requires Recorded(z, bs, pre, done, available) && 1 <= matchLength0 <= MAX_MATCH
    modifies z`prevLength, z`insH, z`matchStart, z.prev, z.head
    ensures z.Valid() && bs.Valid() && z.Indexed(z.strstart + 1) && Recorded(z, bs, pre, done, available)
    ensures prevMatch == old(z.matchStart) && z.prevLength == matchLength0 && 1 <= matchLength <= MAX_MATCH
    ensures Found(z.reader.delivered, z.base + z.strstart, matchLength0, matchLength, z.MatchDistance())
  {
    hide Mirrors, Expand, BlockState.Valid, DecodesTo, Writer.Valid, Writer.Sent, Chains, Rolling, Found, Latest, HashAt;
    bs.Ongoing();
    var hashHead := z.InsertString();
    prevMatch := z.matchStart;
    matchLength := FindMatch(z, hashHead, matchLength0);
  }

  /** The first branch, as a choice of tokens. */
  method TakeMatch(z: Window, bs: BlockState, prevMatch: nat, matchLength: nat, ghost pre: BitString, ghost done0: seq<Token>, ghost reach: nat)
    returns (ghost done: seq<Token>)
    requires z.Valid() && bs.Valid() && Separate(z, bs) && z.Indexed(z.strstart + 1)
    requires Recorded(z, bs, pre, done0, true) && MIN_MATCH <= z.prevLength <= MAX_MATCH && z.prevLength - 1 <= z.lookahead
    requires Repeats(z.reader.delivered, z.base + z.strstart - 1, (z.strstart - 1 - prevMatch) % 0x1_0000_0000, z.prevLength)
    requires Logged(z, bs, done0, true, (z.strstart - 1 - prevMatch) % 0x1_0000_0000, z.prevLength, reach) && reach <= z.base + z.strstart
    requires Found(z.reader.delivered, z.base + z.strstart, z.prevLength, matchLength, z.MatchDistance()) && matchLength <= z.prevLength
    modifies z`strstart, z`prevLength, z`lookahead, z`insH, z.prev, z.head, z`blockStart
    modifies bs, bs.w, bs.w.outbuf, bs.buf, bs.buf.lBuf, bs.buf.dBuf, bs.buf.flagBuf, bs.ltree, bs.dtree, bs.blTree, bs.heap, bs.depth, bs.blCount
    ensures z.Valid() && bs.Valid() && z.Indexed(z.strstart) && z.strstart >= 1
    ensures z.lookahead == old(z.lookahead) - (old(z.prevLength) - 1)
    ensures Recorded(z, bs, pre, done, false)
    ensures Logged(z, bs, done, false, z.MatchDistance() - 1, MIN_MATCH - 1, old(z.base + z.strstart) + 1)
  {
    hide Mirrors, BlockState.Valid, Window.Valid, Window.Indexed, Writer.Valid, Recorded, Repeats, Told, Found;
    ghost var input, toks, p := z.reader.delivered, done0 + bs.buf.toks, z.base + z.strstart - 1;
    ghost var dist, len0 := (z.strstart - 1 - prevMatch) % 0x1_0000_0000, z.prevLength;
    ghost var d := z.MatchDistance();
    MatchTold(input, toks, p, dist, len0, matchLength, d, reach, d, MIN_MATCH - 1);
    done := AdoptMatch(z, bs, prevMatch, pre, done0);
    ToldDist(input, done + bs.buf.toks, false, p + len0, d, MIN_MATCH - 1, z.MatchDistance() - 1, p + 2);
  }

  /** The other branches, as a choice of tokens. */
  method LeaveMatch(z: Window, bs: BlockState, available: bool, matchLength0: nat, matchLength: nat, ghost pre: BitString, ghost done0: seq<Token>,
                    ghost dist0: int, ghost reach: nat)
    returns (ghost done: seq<Token>)
    requires z.Valid() && bs.Valid() && Separate(z, bs) && z.Indexed(z.strstart + 1) && z.lookahead > 0
    requires Recorded(z, bs, pre, done0, available) && 1 <= matchLength <= MAX_MATCH
    requires Logged(z, bs, done0, available, dist0, matchLength0, reach) && reach <= z.base + z.strstart
    requires Found(z.reader.delivered, z.base + z.strstart, matchLength0, matchLength, z.MatchDistance())
    requires matchLength0 < MIN_MATCH || (matchLength > matchLength0 && available)
    modifies z`strstart, z`lookahead, z`blockStart
    modifies bs, bs.w, bs.w.outbuf, bs.buf, bs.buf.lBuf, bs.buf.dBuf, bs.buf.flagBuf, bs.ltree, bs.dtree, bs.blTree, bs.heap, bs.depth, bs.blCount
    ensures z.Valid() && bs.Valid() && z.Indexed(z.strstart) && z.strstart >= 1
    ensures Recorded(z, bs, pre, done, true) && Pending(z, true, matchLength)
    ensures z.lookahead == old(z.lookahead) - 1
    ensures Logged(z, bs, done, true, z.MatchDistance() - 1, matchLength, old(z.base + z.strstart) + 1)
  {
    hide Mirrors, BlockState.Valid, Window.Valid, Window.Indexed, Writer.Valid, Recorded, Repeats, Told, Found;
    ghost var input, toks, p, d := z.reader.delivered, done0 + bs.buf.toks, z.base + z.strstart, z.MatchDistance();
    FoundRepeats(input, p, matchLength0, matchLength, d);
    done := KeepMatch(z, bs, available, matchLength, pre, done0);
    if available {
      LiteralTold(input, toks, p - 1, dist0, matchLength0, matchLength, d, reach);
    } else {
      WaitTold(input, toks, p, dist0, matchLength0, matchLength, d, reach);
      assert toks + [] == toks;
    }
    ToldDist(input, done + bs.buf.toks, true, p, d, matchLength, z.MatchDistance() - 1, p + 1);
  }

  lemma AllDelivered(z: Window)
    requires z.Valid()
    ensures |z.reader.delivered| == z.base + z.strstart + z.lookahead
  {
  }

  lemma FoundRepeats(input: seq<Byte>, p: nat, len0: nat, len: nat, dist: int)
    requires Found(input, p, len0, len, dist) && (len0 < MIN_MATCH || len > len0)
    ensures len >= MIN_MATCH ==> Repeats(input, p, dist, len)
  {
    hide Repeats, NoneBetter;
  }

  method DeflateStep(z: Window, bs: BlockState, available0: bool, matchLength0: nat, ghost pre: BitString, ghost done0: seq<Token>, ghost reach: nat)
    returns (available: bool, matchLength: nat, ghost done: seq<Token>)
    requires z.eofile || z.lookahead >= MIN_LOOKAHEAD
    requires z.Valid() && bs.Valid() && Separate(z, bs) && z.Indexed(z.strstart) && z.lookahead > 0
    requires Recorded(z, bs, pre, done0, available0) && Pending(z, available0, matchLength0)
    requires Logged(z, bs, done0, available0, z.MatchDistance() - 1, matchLength0, reach) && reach <= z.base + z.strstart
    modifies z`strstart, z`prevLength, z`lookahead, z`insH, z`matchStart, z.prev, z.head, z`blockStart
    modifies bs, bs.w, bs.w.outbuf, bs.buf, bs.buf.lBuf, bs.buf.dBuf, bs.buf.flagBuf, bs.ltree, bs.dtree, bs.blTree, bs.heap, bs.depth, bs.blCount
    ensures z.Valid() && bs.Valid() && z.Indexed(z.strstart) && z.strstart >= 1
    ensures Recorded(z, bs, pre, done, available) && Pending(z, available, matchLength)
    ensures Logged(z, bs, done, available, z.MatchDistance() - 1, matchLength, old(z.base + z.strstart) + 1)
    ensures old(z.lookahead) - (MAX_MATCH - 1) <= z.lookahead < old(z.lookahead)
  {
    hide Mirrors, Expand, BlockState.Valid, DecodesTo, Writer.Valid, Writer.Sent, Window.Valid, Window.Indexed, Reader.Valid, Separate, Repeats, Recorded, Told, Found;
    AllDelivered(z);
    ghost var q, d := z.base + z.strstart - 1, z.MatchDistance();
    var prevMatch;
    prevMatch, matchLength := Search(z, bs, available0, matchLength0, pre, done0);
    if z.prevLength >= MIN_MATCH && matchLength <= z.prevLength {
      RepeatsBounds(z.reader.delivered, q, d - 1, z.prevLength);
      PreviousDistance(z.strstart, prevMatch);
      done := TakeMatch(z, bs, prevMatch, matchLength, pre, done0, reach);
      available := false;
      matchLength := MIN_MATCH - 1;
    } else {
      done := LeaveMatch(z, bs, available0, matchLength0, matchLength, pre, done0, d - 1, reach);
      available := true;
    }
  }

  /** More input changes nothing that has been recorded. */
  method Refill(z: Window, bs: BlockState, available: bool, matchLength: nat, ghost pre: BitString, ghost done: seq<Token>, ghost reach: nat)
    requires z.Valid() && bs.Valid() && Separate(z, bs) && z.Indexed(z.strstart) && z.strstart >= 1 && Ended(z)
    requires Recorded(z, bs, pre, done, available) && Pending(z, available, matchLength) && (z.eofile || z.lookahead >= 3)
    requires Logged(z, bs, done, available, z.MatchDistance() - 1, matchLength, reach)
    requires z.eofile || reach + MIN_LOOKAHEAD <= |z.reader.delivered| + 1
    modifies z, z.window, z.prev, z.head, z.reader
    ensures z.Valid() && bs.Valid() && Separate(z, bs) && z.Indexed(z.strstart) && Ended(z)
    ensures Recorded(z, bs, pre, done, available) && Pending(z, available, matchLength)
    ensures Logged(z, bs, done, available, z.MatchDistance() - 1, matchLength, reach)
    ensures z.eofile || z.lookahead >= MIN_LOOKAHEAD
    ensures z.base + z.strstart == old(z.base + z.strstart)
    ensures z.reader.delivered + z.reader.rest == old(z.reader.delivered) + old(z.reader.rest)
    ensures |z.reader.rest| + z.lookahead == old(|z.reader.rest| + z.lookahead)
  {
    hide Mirrors, Expand, BlockState.Valid, DecodesTo, Writer.Valid, Writer.Sent, Chains, Rolling, Repeats, Told;
    bs.Ongoing();
    ghost var input, atEnd := z.reader.delivered, z.eofile;
    ghost var toks, p, d := done + bs.buf.toks, Emitted(z, available), z.MatchDistance() - 1;
    z.FillWindowIfNeeded();
    SamePrefix(input, z.reader.delivered, z.base + z.blockStart);
    SamePrefix(input, z.reader.delivered, Emitted(z, available));
    if matchLength >= MIN_MATCH {
      RepeatsMore(input, z.reader.delivered, z.base + z.strstart - 1, z.MatchDistance() - 1, matchLength, matchLength);
    }
    if !atEnd {
      ToldMore(input, z.reader.delivered, toks, available, p, d, matchLength, reach);
    }
  }

  lemma SamePrefix(a: seq<Byte>, b: seq<Byte>, n: nat)
    requires a <= b && n <= |a|
    ensures b[..n] == a[..n]
  {
  }

  /**
   All blocks up to the last one; everything delivered by the reader is in them.  The tokens are those of the
   lazy choice, and take at most 32 bits each.
   */
  method Deflate(z: Window, bs: BlockState, ghost pre: BitString) returns (ghost s: BitString, ghost toks: seq<Token>)
    requires z.Valid() && bs.Valid() && Separate(z, bs) && Ended(z) && (z.eofile || z.lookahead >= MIN_LOOKAHEAD)
    requires (z.lookahead > 0 ==> z.Indexed(z.strstart)) && Recorded(z, bs, pre, [], false)
    requires z.base + z.strstart == 0 && bs.buf.toks == []
    modifies z, z.window, z.prev, z.head, z.reader
    modifies bs, bs.w, bs.w.outbuf, bs.buf, bs.buf.lBuf, bs.buf.dBuf, bs.buf.flagBuf, bs.ltree, bs.dtree, bs.blTree, bs.heap, bs.depth, bs.blCount
    ensures z.Valid() && bs.Valid() && z.eofile && Ended(z)
    ensures z.reader.delivered + z.reader.rest == old(z.reader.delivered) + old(z.reader.rest)
    ensures DecodesAll(s, pre, z.reader.delivered)
    ensures bs.w.Valid() && bs.w.Sent() == s + Padding(|s|) && bs.w.biValid == 0
    ensures LazyTokens(z.reader.delivered, toks) && |s| <= |pre| + 32 * |toks| + 40
  {
    hide Mirrors, Expand, BlockState.Valid, DecodesTo, DecodesAll, Writer.Valid, Writer.Sent, Padding, Window.Indexed, Repeats, Recorded, Pending, Told, LazyTokens;
    var available, matchLength: nat := false, MIN_MATCH - 1;
    ghost var done: seq<Token>, reach: nat := [], 0;
    NothingPending(z, bs);
    while z.lookahead != 0
      invariant z.Valid() && bs.Valid() && Separate(z, bs) && Ended(z) && (z.eofile || z.lookahead >= MIN_LOOKAHEAD)
      invariant z.lookahead > 0 ==> z.Indexed(z.strstart)
      invariant Recorded(z, bs, pre, done, available) && Pending(z, available, matchLength)
      invariant Logged(z, bs, done, available, z.MatchDistance() - 1, matchLength, reach) && reach <= z.base + z.strstart
      invariant z.reader.delivered + z.reader.rest == old(z.reader.delivered) + old(z.reader.rest)
      decreases |z.reader.rest| + z.lookahead
    {
      ghost var p := z.base + z.strstart;
      available, matchLength, done := DeflateStep(z, bs, available, matchLength, pre, done, reach);
      reach := p + 1;
      Refill(z, bs, available, matchLength, pre, done, reach);
    }
    s, toks := LastBlock(z, bs, available, pre, done, z.MatchDistance() - 1, matchLength, reach);
  }

  lemma NothingPending(z: Window, bs: BlockState)
    requires bs.buf.toks == [] && z.base + z.strstart == 0
    ensures Pending(z, false, MIN_MATCH - 1)
    ensures Logged(z, bs, [], false, z.MatchDistance() - 1, MIN_MATCH - 1, 0)
  {
    NothingTold(z.reader.delivered, z.MatchDistance() - 1, MIN_MATCH - 1, 0);
  }

  /** The end of deflate: a pending literal, and the block marked as last. */
  method LastBlock(z: Window, bs: BlockState, available: bool, ghost pre: BitString, ghost done: seq<Token>, ghost dist: int, ghost len: nat, ghost reach: nat)
    returns (ghost s: BitString, ghost toks: seq<Token>)
    requires z.Valid() && bs.Valid() && Separate(z, bs) && z.lookahead == 0
    requires Recorded(z, bs, pre, done, available) && Logged(z, bs, done, available, dist, len, reach)
    modifies bs, bs.w, bs.w.outbuf, bs.buf, bs.buf.lBuf, bs.buf.dBuf, bs.buf.flagBuf, bs.ltree, bs.dtree, bs.blTree, bs.heap, bs.depth, bs.blCount
    ensures z.Valid() && bs.Valid()
    ensures DecodesAll(s, pre, z.reader.delivered)
    ensures bs.w.Valid() && bs.w.Sent() == s + Padding(|s|) && bs.w.biValid == 0
    ensures LazyTokens(z.reader.delivered, toks) && |s| <= |pre| + 32 * |toks| + 40
  {
    hide Mirrors, Expand, BlockState.Valid, DecodesTo, DecodesAll, Writer.Valid, Writer.Sent, Padding, Told, LazyTokens;
    ghost var toks0 := done + bs.buf.toks;
    if available {
      LastTold(z.reader.delivered, toks0, dist, len, reach);
      var flush := EmitLiteral(z, bs, z.reader.delivered[..z.base + z.blockStart]);
    } else {
      AllTold(z.reader.delivered, toks0, dist, len, reach);
    }
    toks := done + bs.buf.toks;
    assert toks == toks0 + (if available then [Literal(z.reader.delivered[|z.reader.delivered| - 1])] else []);
    s := FlushTo(z, bs, true, pre, z.reader.delivered[..z.base + z.blockStart]);
    assert z.reader.delivered[..z.base + z.strstart] == z.reader.delivered;
  }
}
