/** The hash chains over the window: what inserting a string and sliding the window keep. */
module HashChains {
  import opened Arith
  import opened MatchCodes
  import opened RollingHash

  const WSIZE: nat := 0x8000
  const WINDOW_SIZE: nat := 2 * WSIZE
  const MIN_LOOKAHEAD: nat := MAX_MATCH + MIN_MATCH + 1
  const MAX_DIST: nat := WSIZE - MIN_LOOKAHEAD

  /** The window proper and what may be looked at behind its end. */
  const WINDOW_ROOM: nat := WINDOW_SIZE + MIN_LOOKAHEAD

  function HashAt(win: seq<Byte>, p: nat): (r: nat)
    requires p + 2 < |win|
    ensures r < HASH_SIZE
  {
    Hash3(win[p], win[p + 1], win[p + 2])
  }

  /** No string below `n` with the hash `h` is younger than `m`; the one at 0 is never used. */
  ghost predicate Latest(win: seq<Byte>, n: nat, h: nat, m: nat)
  {
    forall p :: 1 <= p < n && p + 2 < |win| && HashAt(win, p) == h ==> p <= m
  }

  /** The head of chain `h` is the youngest inserted string with that hash, or 0 for none. */
  ghost predicate HeadOk(win: seq<Byte>, head: seq<nat>, n: nat, h: nat)
    requires h < |head|
  {
    && (head[h] == 0 || (head[h] < n && head[h] + 2 < |win| && HashAt(win, head[h]) == h))
    && Latest(win, n, h, head[h])
  }

  /** The string at `p` is linked to the youngest older string with the same hash, or to nothing. */
  ghost predicate LinkOk(win: seq<Byte>, prev: seq<nat>, p: nat)
    requires |prev| == WSIZE && p + 2 < |win|
  {
    var m := prev[p % WSIZE];
    && (m == 0 || (m < p && HashAt(win, m) == HashAt(win, p)))
    && Latest(win, p, HashAt(win, p), m)
  }

  /** All strings below `n` are inserted; those among the last WSIZE still have their links. */
  ghost predicate Chains(win: seq<Byte>, prev: seq<nat>, head: seq<nat>, n: nat)
  {
    && |win| == WINDOW_ROOM && |prev| == WSIZE && |head| == HASH_SIZE && n + 1 < |win|
    && (forall h :: 0 <= h < HASH_SIZE ==> HeadOk(win, head, n, h))
    && (forall p :: 0 <= p < n && n - WSIZE <= p ==> LinkOk(win, prev, p))
  }

  lemma NoChains(win: seq<Byte>, prev: seq<nat>, head: seq<nat>)
    requires |win| == WINDOW_ROOM && |prev| == WSIZE && |head| == HASH_SIZE
    requires forall h :: 0 <= h < HASH_SIZE ==> head[h] == 0
    ensures Chains(win, prev, head, 0)
  {
    hide HashAt;
  }

  lemma OtherSlot(p: nat, q: nat)
    requires p < q < p + WSIZE
    ensures p % WSIZE != q % WSIZE
  {
  }

  lemma InsertStep(win: seq<Byte>, prev: seq<nat>, head: seq<nat>, n: nat)
    requires Chains(win, prev, head, n) && n + 2 < |win|
    ensures var h := HashAt(win, n);
            Chains(win, prev[n % WSIZE := head[h]], head[h := n], n + 1)
  {
    hide HashAt;
    var h := HashAt(win, n);
    var prev', head', k := prev[n % WSIZE := head[h]], head[h := n], n + 1;
    forall g | 0 <= g < HASH_SIZE ensures HeadOk(win, head', k, g) {
      assert HeadOk(win, head, n, g);
    }
    forall p | 0 <= p < n + 1 && n + 1 - WSIZE <= p ensures LinkOk(win, prev', p) {
      if p < n {
        assert LinkOk(win, prev, p);
        OtherSlot(p, n);
      } else {
        assert HeadOk(win, head, n, h);
      }
    }
  }

  /** Chains only look at the bytes of inserted strings. */
  lemma ChainsKept(win: seq<Byte>, win': seq<Byte>, prev: seq<nat>, head: seq<nat>, n: nat)
    requires Chains(win, prev, head, n) && |win'| == |win|
    requires n > 0 ==> win'[..n + 2] == win[..n + 2]
    ensures Chains(win', prev, head, n)
  {
    hide Hash3;
    forall p | 0 <= p < n ensures p + 2 < |win| && HashAt(win', p) == HashAt(win, p) {
      assert win'[..n + 2][p] == win[..n + 2][p];
      assert win'[..n + 2][p + 1] == win[..n + 2][p + 1];
      assert win'[..n + 2][p + 2] == win[..n + 2][p + 2];
    }
    forall h | 0 <= h < HASH_SIZE ensures HeadOk(win', head, n, h) {
      assert HeadOk(win, head, n, h);
    }
    forall p | 0 <= p < n && n - WSIZE <= p ensures LinkOk(win', prev, p) {
      assert LinkOk(win, prev, p);
    }
  }

  // ---------- sliding ----------

  function Slid(m: nat): nat
  {
    if m >= WSIZE then m - WSIZE else 0
  }

  /** The upper half of the window is copied over the lower half. */
  function SlidWindow(win: seq<Byte>): (r: seq<Byte>)
    requires |win| == WINDOW_ROOM
    ensures |r| == WINDOW_ROOM
  {
    win[WSIZE..WINDOW_SIZE] + win[WSIZE..]
  }

  ghost predicate AllSlid(old_: seq<nat>, new_: seq<nat>)
  {
    |new_| == |old_| && forall i :: 0 <= i < |old_| ==> new_[i] == Slid(old_[i])
  }

  lemma SlidHash(win: seq<Byte>, p: nat)
    requires |win| == WINDOW_ROOM && WSIZE <= p && p + 2 < WINDOW_SIZE
    ensures HashAt(SlidWindow(win), p - WSIZE) == HashAt(win, p)
  {
    hide Hash3;
    var s := SlidWindow(win);
    assert s[p - WSIZE] == win[p] && s[p - WSIZE + 1] == win[p + 1] && s[p - WSIZE + 2] == win[p + 2];
  }

  /** Every link and every head survives a slide, or becomes 0 when its string leaves the window. */
  lemma SlideStep(win: seq<Byte>, prev: seq<nat>, head: seq<nat>, prev': seq<nat>, head': seq<nat>, n: nat)
    requires Chains(win, prev, head, n) && WSIZE <= n && n + 1 < WINDOW_SIZE
    requires AllSlid(prev, prev') && AllSlid(head, head')
    ensures Chains(SlidWindow(win), prev', head', n - WSIZE)
  {
    hide HashAt, SlidWindow;
    var win', k := SlidWindow(win), n - WSIZE;
    forall h | 0 <= h < HASH_SIZE ensures HeadOk(win', head', k, h) {
      assert HeadOk(win, head, n, h);
      if head[h] > WSIZE {
        SlidHash(win, head[h]);
      }
      SlidLatest(win, n, h, head[h]);
    }
    forall p | 0 <= p < n - WSIZE && n - WSIZE - WSIZE <= p ensures LinkOk(win', prev', p) {
      SlidLink(win, prev, prev', n, p);
    }
  }

  lemma SlidLink(win: seq<Byte>, prev: seq<nat>, prev': seq<nat>, n: nat, p: nat)
    requires |win| == WINDOW_ROOM && |prev| == WSIZE && AllSlid(prev, prev')
    requires p + WSIZE < n && n + 1 < WINDOW_SIZE && LinkOk(win, prev, p + WSIZE)
    ensures LinkOk(SlidWindow(win), prev', p)
  {
    hide HashAt, SlidWindow;
    assert (p + WSIZE) % WSIZE == p % WSIZE;
    var m := prev[p % WSIZE];
    SlidHash(win, p + WSIZE);
    if m > WSIZE {
      SlidHash(win, m);
    }
    SlidLatest(win, p + WSIZE, HashAt(win, p + WSIZE), m);
  }

  lemma SlidLatest(win: seq<Byte>, n: nat, h: nat, m: nat)
    requires |win| == WINDOW_ROOM && WSIZE <= n && n + 1 < WINDOW_SIZE && Latest(win, n, h, m)
    ensures Latest(SlidWindow(win), n - WSIZE, h, Slid(m))
  {
    hide HashAt, SlidWindow;
    forall p | 1 <= p < n - WSIZE && HashAt(SlidWindow(win), p) == h ensures p <= Slid(m) {
      SlidHash(win, p + WSIZE);
    }
  }
}
