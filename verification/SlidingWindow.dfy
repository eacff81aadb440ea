/** The input window with its hash chains: lm_init, fill_window, INSERT_STRING and longest_match. */
module SlidingWindow {
  import opened Arith
  import opened MatchCodes
  import opened RollingHash
  import opened HashChains
  import opened FileReader

  const MAX_CHAIN_LENGTH: nat := 128
  const GOOD_MATCH: nat := 8
  const NICE_MATCH: nat := 128

  /** The window holds the input from position `base` on. */
  ghost predicate Mirrors(win: seq<Byte>, input: seq<Byte>, base: nat)
  {
    base <= |input| <= base + |win| && win[..|input| - base] == input[base..]
  }

  lemma MirrorAt(win: seq<Byte>, input: seq<Byte>, base: nat, i: nat)
    requires Mirrors(win, input, base) && base + i < |input|
    ensures win[i] == input[base + i]
  {
    assert win[..|input| - base][i] == input[base..][i];
  }

  /** New input behind the old disturbs neither the old bytes nor the chains. */
  lemma ReadKeeps(win: seq<Byte>, prev: seq<nat>, head: seq<nat>, input: seq<Byte>, base: nat, data: seq<Byte>, n: nat)
    requires Mirrors(win, input, base) && |input| - base + |data| <= |win|
    requires Chains(win, prev, head, n) && (n == 0 || n + 2 <= |input| - base)
    ensures Mirrors(Overlay(win, |input| - base, data), input + data, base)
    ensures Chains(Overlay(win, |input| - base, data), prev, head, n)
  {
    hide Chains;
    var k := |input| - base;
    var win' := Overlay(win, k, data);
    assert (input + data)[base..] == input[base..] + data;
    assert win'[..k] == win[..k];
    if n > 0 {
      assert win'[..k][..n + 2] == win[..k][..n + 2];
    }
    ChainsKept(win, win', prev, head, n);
  }

  lemma SlideMirrors(win: seq<Byte>, input: seq<Byte>, base: nat)
    requires Mirrors(win, input, base) && |win| == WINDOW_ROOM && base + WSIZE <= |input| <= base + WINDOW_SIZE
    ensures Mirrors(SlidWindow(win), input, base + WSIZE)
  {
    var n := |input| - base;
    assert SlidWindow(win)[..n - WSIZE] == win[WSIZE..n] == win[..n][WSIZE..];
    assert input[base..][WSIZE..] == input[base + WSIZE..];
  }

  class Window {
    const window: array<Byte>
    const prev: array<nat>
    const head: array<nat>
    const reader: Reader
    var blockStart: int
    var insH: nat
    var prevLength: nat
    var strstart: nat
    /** An unsigned number: it wraps below zero when the window slides past it. */
    var matchStart: nat
    var lookahead: nat
    var eofile: bool
    /** Position in the input of the first byte of the window. */
    ghost var base: nat

    ghost predicate Valid()
      reads this, window, reader
    {
      && window.Length == WINDOW_ROOM && prev.Length == WSIZE && head.Length == HASH_SIZE && prev != head
      && reader.Valid() && matchStart < 0x1_0000_0000
      && strstart + lookahead <= WINDOW_SIZE && |reader.delivered| == base + strstart + lookahead
      && Mirrors(window[..], reader.delivered, base)
      && 0 <= base + blockStart && blockStart <= strstart
      && (base > 0 ==> strstart >= MAX_DIST)
    }

    /** The strings below `n` are inserted, and the running key is ready for the one at `n`. */
    ghost predicate Indexed(n: nat)
      reads this, window, prev, head
    {
      && Chains(window[..], prev[..], head[..], n)
      && Rolling(insH, window[n], window[n + 1])
    }

    constructor (reader: Reader)
      requires reader.Valid() && reader.delivered == []
      ensures fresh(window) && fresh(prev) && fresh(head) && this.reader == reader
      ensures Valid() && strstart == lookahead == base == blockStart == insH == 0 && !eofile
      ensures forall h :: 0 <= h < HASH_SIZE ==> head[h] == 0
    {
      this.reader := reader;
      window := new Byte[WINDOW_ROOM];
      prev := new nat[WSIZE];
      head := new nat[HASH_SIZE](i => 0);
      blockStart, insH, prevLength, strstart, matchStart, lookahead, eofile, base := 0, 0, 0, 0, 0, 0, false, 0;
    }

    /** Distance from `matchStart` to `strstart` in unsigned arithmetic. */
    ghost function MatchDistance(): int
      reads this
    {
      (strstart - matchStart) % 0x1_0000_0000
    }

    // ---------- reading ----------

    /** Move the upper half of the window to the lower half. */
    method Slide()
      requires Valid() && Chains(window[..], prev[..], head[..], strstart)
      requires strstart >= WSIZE + MAX_DIST && lookahead >= 2
      modifies this`strstart, this`matchStart, this`blockStart, this`base, window, prev, head
      ensures Valid() && Chains(window[..], prev[..], head[..], strstart)
      ensures strstart == old(strstart) - WSIZE && base == old(base) + WSIZE
      ensures base + blockStart == old(base) + old(blockStart) && MatchDistance() == old(MatchDistance())
    {
      hide Chains, Mirrors, HeadOk, LinkOk, Reader.Valid, SlidWindow;
      ghost var win, p, h := window[..], prev[..], head[..];
      SlideMirrors(win, reader.delivered, base);
      MoveUpperHalf();
      matchStart := (matchStart - WSIZE) % 0x1_0000_0000;
      strstart := strstart - WSIZE;
      blockStart := blockStart - WSIZE;
      base := base + WSIZE;
      SlidePositions(head);
      SlidePositions(prev);
      SlideStep(win, p, h, prev[..], head[..], old(strstart));
    }

    /** The memcpy of fill_window. */
    method MoveUpperHalf()
      requires window.Length == WINDOW_ROOM
      modifies window
      ensures window[..] == SlidWindow(old(window[..]))
    {
      forall i | 0 <= i < WSIZE {
        window[i] := window[WSIZE + i];
      }
    }

    /** What filling the window leaves alone: positions in the input and everything already read. */
    twostate predicate SamePlace()
      reads this, reader
    {
      && base + strstart == old(base) + old(strstart)
      && base + blockStart == old(base) + old(blockStart)
      && MatchDistance() == old(MatchDistance())
      && insH == old(insH) && prevLength == old(prevLength)
      && old(reader.delivered) <= reader.delivered
      && reader.delivered + reader.rest == old(reader.delivered) + old(reader.rest)
      && (old(strstart) == 0 <==> strstart == 0)
    }

    /** At least one byte is read, or `eofile` is set. */
    method FillWindow()
      requires Valid() && Chains(window[..], prev[..], head[..], strstart)
      requires lookahead < MIN_LOOKAHEAD && !eofile && (strstart == 0 || lookahead >= 3)
      modifies this, window, prev, head, reader
      ensures Valid() && Chains(window[..], prev[..], head[..], strstart) && SamePlace()
      ensures lookahead >= old(lookahead)
      ensures if eofile then reader.rest == old(reader.rest) && (reader.rest == [] || reader.failed)
              else |reader.rest| < |old(reader.rest)| && reader.failed == old(reader.failed)
    {
      hide Chains, Mirrors;
      var more: int := (WINDOW_SIZE - lookahead - strstart) % 0x1_0000_0000;
      if more == 0xffff_ffff {
        more := more - 1;
      } else if strstart >= WSIZE + MAX_DIST {
        Slide();
        more := more + WSIZE;
      }
      assert more >= 2;
      ReadMore(more);
    }

    /** The second half of fill_window. */
    method ReadMore(more: nat)
      requires Valid() && Chains(window[..], prev[..], head[..], strstart) && (strstart == 0 || lookahead >= 3)
      requires more >= 2 && strstart + lookahead + more == WINDOW_SIZE && !eofile
      modifies this`lookahead, this`eofile, window, reader
      ensures Valid() && Chains(window[..], prev[..], head[..], strstart) && SamePlace()
      ensures lookahead >= old(lookahead)
      ensures if eofile then reader.rest == old(reader.rest) && (reader.rest == [] || reader.failed)
              else |reader.rest| < |old(reader.rest)| && reader.failed == old(reader.failed)
    {
      hide Chains, Mirrors, Overlay;
      ghost var win, input, data := window[..], reader.delivered, reader.rest;
      var n := reader.Read(window, strstart + lookahead, more);
      if n == 0 || n == -1 {
        eofile := true;
      } else {
        ReadKeeps(win, prev[..], head[..], input, base, data[..n], strstart);
        lookahead := lookahead + n;
      }
    }

    method FillWindowIfNeeded()
      requires Valid() && Chains(window[..], prev[..], head[..], strstart)
      requires eofile || strstart == 0 || lookahead >= 3
      requires eofile ==> reader.rest == [] || reader.failed
      modifies this, window, prev, head, reader
      ensures Valid() && Chains(window[..], prev[..], head[..], strstart) && SamePlace()
      ensures lookahead >= old(lookahead) && (eofile || lookahead >= MIN_LOOKAHEAD)
      ensures |reader.rest| + lookahead == old(|reader.rest| + lookahead)
      ensures eofile ==> reader.rest == [] || reader.failed
      ensures old(eofile) ==> reader.delivered == old(reader.delivered)
      ensures old(Indexed(strstart)) && (old(eofile) || old(lookahead) >= 3) ==> Indexed(strstart)
    {
      hide Chains, Mirrors, Rolling;
      ghost var win, input, base0, s := window[..], reader.delivered, base, strstart;
      while lookahead < MIN_LOOKAHEAD && !eofile
        invariant old(eofile) ==> eofile && window[..] == win && strstart == s && reader.delivered == input
        invariant Valid() && Chains(window[..], prev[..], head[..], strstart) && SamePlace()
        invariant lookahead >= old(lookahead) && (eofile || strstart == 0 || lookahead >= 3)
        invariant |reader.rest| + lookahead == old(|reader.rest| + lookahead)
        invariant eofile ==> reader.rest == [] || reader.failed
        decreases !eofile, |reader.rest|
      {
        FillWindow();
      }
      if s + 2 < base0 + |input| && |input| >= base0 + s + 2 {
        NextBytesKept(win, input, base0, s, window[..], reader.delivered, base, strstart);
      }
    }

    /** Set up the window for a new file and read its first part. */
    method LmInit()
      requires Valid() && strstart == lookahead == insH == base == blockStart == 0 && !eofile
      modifies this, window, prev, head, reader
      ensures Valid() && strstart == base == blockStart == 0
      ensures lookahead > 0 ==> Indexed(0)
      ensures eofile || lookahead >= MIN_LOOKAHEAD
      ensures reader.delivered + reader.rest == old(reader.delivered) + old(reader.rest)
      ensures eofile ==> reader.rest == [] || reader.failed
    {
      hide Chains, Mirrors, Overlay, UpdateHash;
      ghost var win, input, data := window[..], reader.delivered, reader.rest;
      forall h | 0 <= h < HASH_SIZE {
        head[h] := 0;
      }
      assert window[..] == win;
      NoChains(win, prev[..], head[..]);
      var n := reader.Read(window, 0, 2 * WSIZE);
      if n == 0 || n == -1 {
        eofile := true;
        return;
      }
      ReadKeeps(win, prev[..], head[..], input, base, data[..n], 0);
      lookahead := n;
      FillWindowIfNeeded();
      InitHash();
    }

    /** The running key for the first two bytes. */
    method InitHash()
      requires window.Length == WINDOW_ROOM && insH == 0
      modifies this`insH
      ensures Rolling(insH, window[0], window[1])
    {
      hide UpdateHash;
      var j := 0;
      while j < MIN_MATCH - 1
        invariant 0 <= j <= 2
        invariant j == 0 ==> insH == 0
        invariant j == 1 ==> insH == UpdateHash(0, window[0])
        invariant j == 2 ==> insH == UpdateHash(UpdateHash(0, window[0]), window[1])
      {
        insH := UpdateHash(insH, window[j]);
        j := j + 1;
      }
    }

    // ---------- the hash chains ----------

    /** A string that may be the start of a match for the one at `strstart`. */
    ghost predicate Candidate(m: nat)
      reads this`strstart, window
    {
      && m < strstart && strstart + 2 < window.Length
      && HashAt(window[..], m) == HashAt(window[..], strstart)
    }

    /** Insert the string at `strstart`; the result is the youngest string before it with the same hash, or 0. */
    method InsertString() returns (matchHead: nat)
      requires window.Length == WINDOW_ROOM && prev.Length == WSIZE && head.Length == HASH_SIZE && prev != head
      requires strstart < WINDOW_SIZE && Indexed(strstart)
      modifies this`insH, prev, head
      ensures Indexed(strstart + 1)
      ensures matchHead != 0 ==> Candidate(matchHead)
      ensures strstart + 2 < window.Length && Latest(window[..], strstart, HashAt(window[..], strstart), matchHead)
    {
      hide Chains, UpdateHash, Hash3, Latest;
      ghost var win, p, h := window[..], prev[..], head[..];
      RollForward(insH, window[strstart], window[strstart + 1], window[strstart + 2]);
      InsertStep(win, p, h, strstart);
      insH := UpdateHash(insH, window[strstart + MIN_MATCH - 1]);
      HeadAt(win, p, h, strstart, insH);
      matchHead := head[insH];
      prev[strstart % WSIZE] := matchHead;
      head[insH] := strstart;
      assert prev[..] == p[strstart % WSIZE := matchHead];
      assert head[..] == h[insH := strstart];
    }
  }

  lemma HeadAt(win: seq<Byte>, prev: seq<nat>, head: seq<nat>, n: nat, h: nat)
    requires Chains(win, prev, head, n) && h < HASH_SIZE
    ensures |head| == HASH_SIZE && HeadOk(win, head, n, h)
  {
    hide HashAt;
  }

  /** The two bytes at the same place of the input are the same before and after. */
  lemma NextBytesKept(win: seq<Byte>, input: seq<Byte>, base: nat, s: nat, win': seq<Byte>, input': seq<Byte>, base': nat, s': nat)
    requires Mirrors(win, input, base) && Mirrors(win', input', base') && input <= input' && base + s == base' + s'
    requires base + s + 2 <= |input|
    ensures s + 1 < |win| && s' + 1 < |win'| && win'[s'] == win[s] && win'[s' + 1] == win[s + 1]
  {
    MirrorAt(win, input, base, s);
    MirrorAt(win, input, base, s + 1);
    MirrorAt(win', input', base', s');
    MirrorAt(win', input', base', s' + 1);
  }

  method SlidePositions(a: array<nat>)
    modifies a
    ensures AllSlid(old(a[..]), a[..])
  {
    var n := 0;
    while n < a.Length
      invariant 0 <= n <= a.Length
      invariant forall i :: 0 <= i < a.Length ==> a[i] == if i < n then Slid(old(a[i])) else old(a[i])
    {
      var m := a[n];
      a[n] := if m >= WSIZE then m - WSIZE else 0;
      n := n + 1;
    }
  }
}
