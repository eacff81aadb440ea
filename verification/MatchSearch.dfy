/** longest_match: the search along a hash chain. */
module MatchSearch {
  import opened Arith
  import opened MatchCodes
  import opened RollingHash
  import opened HashChains
  import opened SlidingWindow

  /** The `len` bytes from `m` on equal those from `s` on. */
  predicate SameAt(win: seq<Byte>, m: nat, s: nat, len: nat)
  {
    m + len <= |win| && s + len <= |win| && win[m..m + len] == win[s..s + len]
  }

  lemma SameExtend(win: seq<Byte>, m: nat, s: nat, len: nat)
    requires SameAt(win, m, s, len) && m + len < |win| && s + len < |win| && win[m + len] == win[s + len]
    ensures SameAt(win, m, s, len + 1)
  {
    assert win[m..m + len + 1] == win[m..m + len] + [win[m + len]];
    assert win[s..s + len + 1] == win[s..s + len] + [win[s + len]];
  }

  lemma SameLess(win: seq<Byte>, m: nat, s: nat, len: nat, k: nat)
    requires SameAt(win, m, s, len) && k <= len
    ensures SameAt(win, m, s, k)
  {
    assert win[m..m + k] == win[m..m + len][..k];
    assert win[s..s + k] == win[s..s + len][..k];
  }

  lemma Differs(win: seq<Byte>, m: nat, s: nat, len: nat, k: nat)
    requires k < len && m + k < |win| && s + k < |win| && win[m + k] != win[s + k]
    ensures !SameAt(win, m, s, len)
  {
    assert m + len <= |win| ==> win[m..m + len][k] == win[m + k];
    assert s + len <= |win| ==> win[s..s + len][k] == win[s + k];
  }

  /** The third byte is equal without being looked at. */
  lemma ThreeSame(win: seq<Byte>, m: nat, s: nat)
    requires m + 2 < |win| && s + 2 < |win| && HashAt(win, m) == HashAt(win, s)
    requires win[m] == win[s] && win[m + 1] == win[s + 1]
    ensures SameAt(win, m, s, 3)
  {
    hide Hash3;
    ThirdByte(win[s], win[s + 1], win[m + 2], win[s + 2]);
    assert win[m..m + 3] == [win[m], win[m + 1], win[m + 2]];
    assert win[s..s + 3] == [win[s], win[s + 1], win[s + 2]];
  }

  /** The comparison in groups of eight; the first two bytes are known to be equal. */
  method CompareMatch(window: array<Byte>, strstart: nat, cur: nat) returns (len: nat)
    requires window.Length == WINDOW_ROOM && cur < strstart < WINDOW_SIZE
    requires HashAt(window[..], cur) == HashAt(window[..], strstart)
    requires window[cur] == window[strstart] && window[cur + 1] == window[strstart + 1]
    ensures 3 <= len <= MAX_MATCH && SameAt(window[..], cur, strstart, len)
    ensures len < MAX_MATCH ==> window[cur + len] != window[strstart + len]
  {
    hide HashAt, SameAt;
    var strend := strstart + MAX_MATCH;
    var scan, m := strstart + 2, cur + 2;
    var same := true;
    ThreeSame(window[..], cur, strstart);
    while same && scan < strend
      invariant strstart + 2 <= scan <= strend && m - cur == scan - strstart
      invariant same ==> (scan - strstart) % 8 == 2 && SameAt(window[..], cur, strstart, scan - strstart + 1)
      invariant !same ==> scan > strstart + 2 && SameAt(window[..], cur, strstart, scan - strstart) && window[m] != window[scan]
      decreases same, strend - scan
    {
      ghost var from := scan;
      var k := 0;
      while same && k < 8
        invariant 0 <= k <= 8 && scan == from + k <= strend && m - cur == scan - strstart
        invariant same ==> SameAt(window[..], cur, strstart, scan - strstart + 1)
        invariant !same ==> k > 0 && SameAt(window[..], cur, strstart, scan - strstart) && window[m] != window[scan]
        decreases same, 8 - k
      {
        scan := scan + 1;
        m := m + 1;
        k := k + 1;
        same := window[scan] == window[m];
        if same {
          SameExtend(window[..], cur, strstart, scan - strstart);
        }
      }
    }
    len := MAX_MATCH - (strend - scan);
    if same {
      SameLess(window[..], cur, strstart, len + 1, len);
    }
  }

  // ---------- the walk along the chain ----------

  /** `seen` follows the links from `cur`, all above `limit`. */
  ghost predicate Follows(prev: seq<nat>, seen: seq<nat>, cur: nat, limit: nat)
  {
    && |prev| == WSIZE && |seen| > 0 && seen[0] == cur
    && forall i :: 0 <= i < |seen| - 1 ==> Linked(prev, seen, i, limit)
  }

  ghost predicate Linked(prev: seq<nat>, seen: seq<nat>, i: nat, limit: nat)
    requires |prev| == WSIZE && i + 1 < |seen|
  {
    seen[i + 1] == prev[seen[i] % WSIZE] > limit
  }

  /** The walk stopped because the chain ended or because it became too long. */
  ghost predicate Exhausted(prev: seq<nat>, seen: seq<nat>, limit: nat, budget: nat)
  {
    && |prev| == WSIZE && 0 < |seen| <= budget
    && (|seen| == budget || prev[seen[|seen| - 1] % WSIZE] <= limit)
  }

  ghost predicate NoneLonger(win: seq<Byte>, seen: seq<nat>, s: nat, len: nat)
  {
    forall i :: 0 <= i < |seen| ==> !SameAt(win, seen[i], s, len + 1)
  }

  lemma NoneSeen(win: seq<Byte>, s: nat, len: nat)
    ensures NoneLonger(win, [], s, len)
  {
  }

  lemma FollowsStep(prev: seq<nat>, seen: seq<nat>, cur: nat, limit: nat)
    requires |prev| == WSIZE
    ensures Follows(prev, [cur], cur, limit)
    ensures |seen| > 0 && Follows(prev, seen, cur, limit) && prev[seen[|seen| - 1] % WSIZE] > limit ==>
              Follows(prev, seen + [prev[seen[|seen| - 1] % WSIZE]], cur, limit)
  {
    if |seen| > 0 && Follows(prev, seen, cur, limit) && prev[seen[|seen| - 1] % WSIZE] > limit {
      var more := seen + [prev[seen[|seen| - 1] % WSIZE]];
      forall i | 0 <= i < |more| - 1 ensures Linked(prev, more, i, limit) {
        if i + 1 < |seen| {
          assert Linked(prev, seen, i, limit);
        }
      }
    }
  }

  lemma NoneLongerStep(win: seq<Byte>, seen: seq<nat>, s: nat, len: nat, cur: nat, len': nat)
    requires NoneLonger(win, seen, s, len) && len <= len' && !SameAt(win, cur, s, len' + 1)
    ensures NoneLonger(win, seen + [cur], s, len')
  {
    hide SameAt;
    forall i | 0 <= i < |seen + [cur]| ensures !SameAt(win, (seen + [cur])[i], s, len' + 1) {
      if i < |seen| && SameAt(win, seen[i], s, len' + 1) {
        SameLess(win, seen[i], s, len' + 1, len + 1);
      }
    }
  }

  /** Of the strings seen, none nearer than the one at `m` agrees in `len` bytes. */
  ghost predicate Closest(win: seq<Byte>, seen: seq<nat>, s: nat, len: nat, m: nat)
  {
    forall i :: 0 <= i < |seen| && seen[i] > m ==> !SameAt(win, seen[i], s, len)
  }

  /** A new longest match is the closest of its length. */
  lemma ClosestNew(win: seq<Byte>, seen: seq<nat>, s: nat, len: nat, m: nat, len': nat)
    requires NoneLonger(win, seen, s, len) && len < len'
    ensures Closest(win, seen + [m], s, len', m)
  {
    hide SameAt;
    forall i | 0 <= i < |seen| ensures !SameAt(win, seen[i], s, len') {
      if SameAt(win, seen[i], s, len') {
        SameLess(win, seen[i], s, len', len + 1);
      }
    }
  }

  lemma ClosestKept(win: seq<Byte>, seen: seq<nat>, s: nat, len: nat, m: nat, cur: nat)
    requires Closest(win, seen, s, len, m) && cur <= m
    ensures Closest(win, seen + [cur], s, len, m)
  {
    hide SameAt;
  }

  /** Number of places from `lo` on and below `hi` whose strings have the hash `h`. */
  ghost function Between(win: seq<Byte>, h: nat, lo: nat, hi: nat): (r: nat)
    decreases hi - lo
  {
    if lo >= hi then 0
    else Between(win, h, lo + 1, hi) + (if lo + 2 < |win| && HashAt(win, lo) == h then 1 else 0)
  }

  lemma {:induction false} BetweenMono(win: seq<Byte>, h: nat, lo: nat, lo': nat, hi: nat)
    requires lo <= lo'
    ensures Between(win, h, lo', hi) <= Between(win, h, lo, hi)
    decreases hi - lo
  {
    hide HashAt;
    if lo < lo' && lo < hi {
      BetweenMono(win, h, lo + 1, lo', hi);
    }
  }

  /** The `i`-th string seen has the hash `h` and lies below the one before it. */
  ghost predicate Lower(win: seq<Byte>, prev: seq<nat>, h: nat, seen: seq<nat>, s: nat, i: nat)
    requires |prev| == WSIZE && i < |seen|
  {
    && seen[i] < (if i == 0 then s else seen[i - 1]) && seen[i] + 2 < |win|
    && HashAt(win, seen[i]) == h && LinkOk(win, prev, seen[i])
  }

  ghost predicate Descends(win: seq<Byte>, prev: seq<nat>, h: nat, seen: seq<nat>, s: nat)
  {
    |prev| == WSIZE && forall i :: 0 <= i < |seen| ==> Lower(win, prev, h, seen, s, i)
  }

  lemma DescendsStep(win: seq<Byte>, prev: seq<nat>, h: nat, seen: seq<nat>, s: nat, cur: nat)
    requires Descends(win, prev, h, seen, s) && cur < (if seen == [] then s else seen[|seen| - 1])
    requires cur + 2 < |win| && HashAt(win, cur) == h && LinkOk(win, prev, cur)
    ensures Descends(win, prev, h, seen + [cur], s)
  {
    hide HashAt, LinkOk;
    forall i | 0 <= i < |seen + [cur]| ensures Lower(win, prev, h, seen + [cur], s, i) {
      if i < |seen| {
        assert Lower(win, prev, h, seen, s, i);
      }
    }
  }

  /** Each string seen adds one to the number of strings with the hash. */
  lemma {:induction false} SeenCounted(win: seq<Byte>, prev: seq<nat>, h: nat, seen: seq<nat>, s: nat, i: nat)
    requires i < |seen| && Descends(win, prev, h, seen, s)
    ensures Between(win, h, seen[i], s) >= i + 1
    decreases i
  {
    hide HashAt, LinkOk;
    assert Lower(win, prev, h, seen, s, i);
    BetweenMono(win, h, seen[i] + 1, if i == 0 then s else seen[i - 1], s);
    if i > 0 {
      SeenCounted(win, prev, h, seen, s, i - 1);
    }
  }

  /** Every string with the same hash is above the `i`-th one seen only if it was seen before it. */
  lemma {:induction false} SeenAbove(win: seq<Byte>, prev: seq<nat>, h: nat, seen: seq<nat>, s: nat, limit: nat, q: nat, i: nat)
    requires i < |seen| && Descends(win, prev, h, seen, s) && Follows(prev, seen, seen[0], limit)
    requires 1 <= q < s && q + 2 < |win| && HashAt(win, q) == h && Latest(win, s, h, seen[0])
    requires q !in seen
    ensures q < seen[i]
    decreases i
  {
    hide HashAt;
    if i > 0 {
      SeenAbove(win, prev, h, seen, s, limit, q, i - 1);
      assert Linked(prev, seen, i - 1, limit);
      assert Lower(win, prev, h, seen, s, i - 1);
      assert q != seen[i];
    } else {
      assert q != seen[0];
    }
  }

  /** No string within the limit is missed, unless as many nearer ones with its hash were looked at as are allowed. */
  lemma NoneMissed(win: seq<Byte>, prev: seq<nat>, h: nat, seen: seq<nat>, s: nat, limit: nat, budget: nat, q: nat)
    requires |seen| > 0 && Descends(win, prev, h, seen, s) && Follows(prev, seen, seen[0], limit)
    requires Exhausted(prev, seen, limit, budget) && Latest(win, s, h, seen[0])
    requires 1 <= q && limit < q < s && q + 2 < |win| && HashAt(win, q) == h
    requires Between(win, h, q + 1, s) < budget
    ensures q in seen
  {
    hide HashAt, Follows, Latest;
    if q !in seen {
      var k := |seen| - 1;
      SeenAbove(win, prev, h, seen, s, limit, q, k);
      SeenCounted(win, prev, h, seen, s, k);
      BetweenMono(win, h, q + 1, seen[k], s);
      assert Lower(win, prev, h, seen, s, k);
      LinkLatest(win, prev, seen[k], q);
    }
  }

  lemma LinkLatest(win: seq<Byte>, prev: seq<nat>, p: nat, q: nat)
    requires |prev| == WSIZE && p + 2 < |win| && LinkOk(win, prev, p)
    requires 1 <= q < p && HashAt(win, q) == HashAt(win, p)
    ensures q <= prev[p % WSIZE]
  {
    hide HashAt;
  }

  lemma NoneLongerMono(win: seq<Byte>, seen: seq<nat>, s: nat, len: nat, len': nat)
    requires NoneLonger(win, seen, s, len) && len <= len'
    ensures NoneLonger(win, seen, s, len')
  {
    hide SameAt;
    forall i | 0 <= i < |seen| ensures !SameAt(win, seen[i], s, len' + 1) {
      if SameAt(win, seen[i], s, len' + 1) {
        SameLess(win, seen[i], s, len' + 1, len + 1);
      }
    }
  }

  lemma LinkAt(win: seq<Byte>, prev: seq<nat>, head: seq<nat>, n: nat, p: nat)
    requires Chains(win, prev, head, n) && p < n && n - WSIZE <= p
    ensures p + 2 < |win| && |prev| == WSIZE && LinkOk(win, prev, p)
  {
    hide HashAt, HeadOk;
  }

  /** What longest_match looks at at most: a quarter of it after a good match. */
  function Budget(prevLength: nat): nat
  {
    if prevLength >= GOOD_MATCH then MAX_CHAIN_LENGTH / 4 else MAX_CHAIN_LENGTH
  }

  function Limit(s: nat): nat
  {
    if s > MAX_DIST then s - MAX_DIST else 0
  }

  /** A match of length `len` for the string at `s`, starting at `m`. */
  ghost predicate RealMatch(win: seq<Byte>, m: nat, s: nat, len: nat)
  {
    1 <= m < s && s - m <= MAX_DIST && SameAt(win, m, s, len)
  }

  /**
   What the walk knows after the strings `seen`, with `len0` to be beaten: the best match is real and
   does not go on, it is the closest of its length, and none of the others is longer.  It stopped at the
   first string that is good enough.
   */
  ghost predicate Searched(win: seq<Byte>, prev: seq<nat>, seen: seq<nat>, s: nat, len0: nat, len: nat, m: nat)
  {
    && s + 2 < |win| && Descends(win, prev, HashAt(win, s), seen, s)
    && (len < NICE_MATCH ==> NoneLonger(win, seen, s, len))
    && (len0 < NICE_MATCH && |seen| > 0 ==> NoneLonger(win, seen[..|seen| - 1], s, NICE_MATCH - 1))
    && (len > len0 ==>
          && RealMatch(win, m, s, len) && (len < MAX_MATCH ==> !SameAt(win, m, s, len + 1))
          && (len < NICE_MATCH ==> Closest(win, seen, s, len, m)) && |seen| > 0 && seen[|seen| - 1] <= m)
  }

  lemma NothingSearched(win: seq<Byte>, prev: seq<nat>, s: nat, len0: nat, m: nat)
    requires s + 2 < |win| && |prev| == WSIZE
    ensures Searched(win, prev, [], s, len0, len0, m)
  {
    hide HashAt, LinkOk, SameAt;
  }

  lemma SearchedStep(win: seq<Byte>, prev: seq<nat>, seen: seq<nat>, s: nat, len0: nat, len: nat, m: nat, cur: nat, len': nat)
    requires Searched(win, prev, seen, s, len0, len, m) && len0 <= len <= len' && |prev| == WSIZE
    requires len < NICE_MATCH || len == len0
    requires cur < (if seen == [] then s else seen[|seen| - 1]) && cur + 2 < |win| && HashAt(win, cur) == HashAt(win, s)
    requires LinkOk(win, prev, cur)
    requires len' > len ==> RealMatch(win, cur, s, len')
    requires len' < MAX_MATCH ==> !SameAt(win, cur, s, len' + 1)
    ensures Searched(win, prev, seen + [cur], s, len0, len', if len' > len then cur else m)
  {
    hide HashAt, LinkOk, SameAt, Descends, NoneLonger, Closest;
    DescendsStep(win, prev, HashAt(win, s), seen, s, cur);
    if len < NICE_MATCH {
      NoneLongerMono(win, seen, s, len, NICE_MATCH - 1);
      assert (seen + [cur])[..|seen|] == seen;
    }
    if len' < NICE_MATCH {
      NoneLongerStep(win, seen, s, len, cur, len');
      if len' > len {
        ClosestNew(win, seen, s, len, cur, len');
      } else if len > len0 {
        ClosestKept(win, seen, s, len, m, cur);
      }
    }
  }

  /** Compare one string of the chain with the best length so far; the result is the new best length. */
  method TryMatch(window: array<Byte>, strstart: nat, cur: nat, bestLen: nat, scanEnd1: Byte, scanEnd: Byte) returns (len: nat)
    requires window.Length == WINDOW_ROOM && cur < strstart < WINDOW_SIZE && 1 <= bestLen <= MAX_MATCH
    requires HashAt(window[..], cur) == HashAt(window[..], strstart)
    requires scanEnd1 == window[strstart + bestLen - 1] && scanEnd == window[strstart + bestLen]
    ensures bestLen <= len <= MAX_MATCH
    ensures len > bestLen ==> SameAt(window[..], cur, strstart, len)
    ensures len < MAX_MATCH ==> !SameAt(window[..], cur, strstart, len + 1)
  {
    hide HashAt, SameAt;
    ghost var win := window[..];
    if window[cur + bestLen] != scanEnd {
      Differs(win, cur, strstart, bestLen + 1, bestLen);
      return bestLen;
    }
    if window[cur + bestLen - 1] != scanEnd1 {
      Differs(win, cur, strstart, bestLen + 1, bestLen - 1);
      return bestLen;
    }
    if window[cur] != window[strstart] {
      Differs(win, cur, strstart, bestLen + 1, 0);
      return bestLen;
    }
    if window[cur + 1] != window[strstart + 1] {
      Differs(win, cur, strstart, bestLen + 1, 1);
      return bestLen;
    }
    len := CompareMatch(window, strstart, cur);
    if len < MAX_MATCH {
      Differs(win, cur, strstart, len + 1, len);
      if len <= bestLen {
        Differs(win, cur, strstart, bestLen + 1, len);
      }
    }
    if len <= bestLen {
      len := bestLen;
    }
  }

  /**
   The debug assertion on the lookahead holds in every call until the end of the file has been
   seen.  After that nothing here relies on it: the window has room for what the comparison
   looks at, and its contents do not matter.
   */
  method LongestMatch(w: Window, curMatch: nat) returns (bestLen: nat, ghost seen: seq<nat>)
    requires w.Valid() && w.strstart < WINDOW_SIZE && 1 <= w.prevLength <= MAX_MATCH
    requires Chains(w.window[..], w.prev[..], w.head[..], w.strstart + 1)
    requires curMatch > 0 && w.Candidate(curMatch) && w.strstart - curMatch <= MAX_DIST
    requires w.eofile || w.strstart <= WINDOW_SIZE - MIN_LOOKAHEAD
    modifies w`matchStart
    ensures w.Valid() && w.prevLength <= bestLen <= MAX_MATCH
    ensures bestLen == w.prevLength ==> w.matchStart == old(w.matchStart)
    ensures Searched(w.window[..], w.prev[..], seen, w.strstart, w.prevLength, bestLen, w.matchStart)
    ensures Follows(w.prev[..], seen, curMatch, Limit(w.strstart))
    ensures bestLen < NICE_MATCH ==> Exhausted(w.prev[..], seen, Limit(w.strstart), Budget(w.prevLength))
  {
    hide HashAt, SameAt, Chains, Mirrors, LinkOk, Follows, Searched;
    ghost var win, prev, head, m0 := w.window[..], w.prev[..], w.head[..], w.matchStart;
    NothingSearched(win, prev, w.strstart, w.prevLength, m0);
    FollowsStep(prev, [], curMatch, Limit(w.strstart));
    assert [] + [curMatch] == [curMatch];
    var chainLength, cur, s := MAX_CHAIN_LENGTH, curMatch, w.strstart;
    var limit := if s > MAX_DIST then s - MAX_DIST else 0;
    bestLen := w.prevLength;
    var scanEnd1, scanEnd := w.window[s + bestLen - 1], w.window[s + bestLen];
    if w.prevLength >= GOOD_MATCH {
      chainLength := chainLength / 4;
    }
    seen := [];
    while true
      invariant w.Valid() && w.prevLength <= bestLen <= MAX_MATCH && 0 < chainLength == Budget(w.prevLength) - |seen|
      invariant 0 < cur && limit <= cur && cur < (if seen == [] then s else seen[|seen| - 1]) <= s
      invariant bestLen < NICE_MATCH || bestLen == w.prevLength
      invariant HashAt(win, cur) == HashAt(win, s) && (bestLen == w.prevLength ==> w.matchStart == m0)
      invariant scanEnd1 == w.window[s + bestLen - 1] && scanEnd == w.window[s + bestLen]
      invariant Follows(prev, seen + [cur], curMatch, limit)
      invariant Searched(win, prev, seen, s, w.prevLength, bestLen, w.matchStart)
      decreases chainLength
    {
      var len := TryMatch(w.window, s, cur, bestLen, scanEnd1, scanEnd);
      LinkAt(win, prev, head, s + 1, cur);
      SearchedStep(win, prev, seen, s, w.prevLength, bestLen, w.matchStart, cur, len);
      seen := seen + [cur];
      if len > bestLen {
        w.matchStart := cur;
        bestLen := len;
        if len >= NICE_MATCH {
          break;
        }
        scanEnd1, scanEnd := w.window[s + bestLen - 1], w.window[s + bestLen];
      }
      NextCandidate(win, prev, s, cur);
      FollowsStep(prev, seen, curMatch, limit);
      cur := w.prev[cur % WSIZE];
      if cur <= limit {
        break;
      }
      chainLength := chainLength - 1;
      if chainLength == 0 {
        break;
      }
    }
  }

  lemma NextCandidate(win: seq<Byte>, prev: seq<nat>, s: nat, cur: nat)
    requires |prev| == WSIZE && cur < s && s + 2 < |win| && LinkOk(win, prev, cur)
    requires HashAt(win, cur) == HashAt(win, s)
    ensures var m := prev[cur % WSIZE]; m == 0 || (m < cur && HashAt(win, m) == HashAt(win, s))
  {
    hide HashAt, Latest;
  }
}
