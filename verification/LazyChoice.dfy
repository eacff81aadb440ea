/** The lazy choice of matches as a property of the input and the tokens alone. */
module LazyChoice {
  import opened Arith
  import opened MatchCodes
  import opened Tokens
  import opened RollingHash
  import opened HashChains
  import opened SlidingWindow
  import opened MatchSearch

  const MAX_LAZY_MATCH: nat := 16
  const TOO_FAR: nat := 4096

  /** Every search looks at this many strings of the hash chain, a short previous match makes it four times as many. */
  const PATIENCE: nat := MAX_CHAIN_LENGTH / 4

  // ---------- matches in the input ----------

  /** The `len` bytes at position `p` of the input repeat those `dist` bytes back; the byte at 0 starts no match. */
  ghost predicate Repeats(input: seq<Byte>, p: nat, dist: int, len: nat)
  {
    1 <= dist < p && dist <= MAX_DIST && p + len <= |input| && SameAt(input, p - dist, p, len)
  }

  lemma RepeatsBounds(input: seq<Byte>, p: nat, dist: int, len: nat)
    requires Repeats(input, p, dist, len)
    ensures 1 <= dist <= MAX_DIST && dist < p && p + len <= |input|
  {
  }

  lemma RepeatsMore(input: seq<Byte>, more: seq<Byte>, p: nat, dist: int, len: nat, len': nat)
    requires Repeats(input, p, dist, len) && input <= more && len' <= len
    ensures Repeats(more, p, dist, len')
  {
    assert input[p - dist..p - dist + len] == more[p - dist..p - dist + len];
    assert input[p..p + len] == more[p..p + len];
    SameLess(more, p - dist, p, len, len');
  }

  /**
   A match as it may be sent: it is as long as a match can be, or ends with the input, or could not go on,
   and three bytes alone are not far away.
   */
  ghost predicate Maximal(input: seq<Byte>, p: nat, dist: int, len: nat)
  {
    && MIN_MATCH <= len <= MAX_MATCH && Repeats(input, p, dist, len) && (len == MIN_MATCH ==> dist <= TOO_FAR)
    && (len == MAX_MATCH || p + len == |input| || input[p + len] != input[p + len - dist])
  }

  /**
   A repetition of `k` bytes that a search which looks at `budget` strings cannot miss: it is near enough,
   and fewer strings with its hash lie in between.  Repetitions longer than NICE_MATCH only count as that long,
   and those of three bytes not far away or at the very end of the input.
   */
  ghost predicate Findable(input: seq<Byte>, p: nat, q: nat, k: nat, budget: nat)
  {
    && 1 <= q < p && p - q < MAX_DIST && MIN_MATCH <= k <= NICE_MATCH && SameAt(input, q, p, k)
    && (k == MIN_MATCH ==> p - q <= TOO_FAR && p + MIN_MATCH < |input|)
    && p + 2 < |input| && Between(input, HashAt(input, p), q + 1, p) < budget
  }

  /** No repetition of more than `len` bytes is findable at `p`. */
  ghost predicate NoneBetter(input: seq<Byte>, p: nat, len: int, budget: nat)
  {
    forall q: nat, k: nat :: Findable(input, p, q, k, budget) ==> k <= len
  }

  /** What one search finds at `p` when the previous match has the length `len0`. */
  ghost predicate Found(input: seq<Byte>, p: nat, len0: nat, len: nat, dist: int)
  {
    && (len >= MIN_MATCH && len > len0 ==> Maximal(input, p, dist, len))
    && (if len0 < MAX_LAZY_MATCH then NoneBetter(input, p, Max(len, len0), Budget(len0))
        else len < MIN_MATCH)
  }

  /** A match of length `len` at `p`, or none when that is less than three, and nothing better is findable. */
  ghost predicate Best(input: seq<Byte>, p: nat, dist: int, len: nat)
  {
    && (len >= MIN_MATCH ==> Maximal(input, p, dist, len))
    && NoneBetter(input, p, len, PATIENCE)
  }

  lemma FindableLonger(input: seq<Byte>, p: nat, q: nat, k: nat, budget: nat, budget': nat)
    requires Findable(input, p, q, k, budget) && budget <= budget'
    ensures Findable(input, p, q, k, budget')
  {
  }

  lemma NoneBetterLess(input: seq<Byte>, p: nat, len: int, budget: nat, budget': nat)
    requires NoneBetter(input, p, len, budget) && budget' <= budget
    ensures NoneBetter(input, p, len, budget')
  {
    hide Findable;
    forall q: nat, k: nat | Findable(input, p, q, k, budget') ensures k <= len {
      FindableLonger(input, p, q, k, budget', budget);
    }
  }

  // ---------- the law for the tokens ----------

  function Width(t: Token): nat
  {
    if t.Pair? then t.len else 1
  }

  /** Number of bytes that the tokens stand for. */
  function Span(toks: seq<Token>): nat
  {
    if toks == [] then 0 else Span(toks[..|toks| - 1]) + Width(toks[|toks| - 1])
  }

  lemma SpanSnoc(toks: seq<Token>, t: Token)
    ensures Span(toks + [t]) == Span(toks) + Width(t)
  {
    assert (toks + [t])[..|toks|] == toks;
  }

  /**
   A match of length `len` is taken at the first token, or given up for a longer one at the next, and so on;
   behind the last token a match of length `pending` still waits.
   */
  predicate Taken(toks: seq<Token>, len: nat, pending: nat)
  {
    if toks == [] then pending >= len
    else if toks[0].Pair? then toks[0].len >= len
    else Taken(toks[1..], len + 1, pending)
  }

  /**
   The `i`-th token starts at `p` in the input.  A literal is the byte there.  A match is maximal, and if it is
   short no longer one is findable at the next position.  In both cases the best match found at `p` is taken.
   */
  ghost predicate Chosen(input: seq<Byte>, toks: seq<Token>, i: nat, pending: nat)
    requires i < |toks|
  {
    var p, t := Span(toks[..i]), toks[i];
    && p + Width(t) <= |input|
    && (if t.Pair? then Maximal(input, p, t.dist, t.len) && (t.len < MAX_LAZY_MATCH ==> NoneBetter(input, p + 1, t.len, PATIENCE))
        else t.b == input[p])
    && exists dist: int, len: nat :: Best(input, p, dist, len) && (len >= MIN_MATCH ==> Taken(toks[i..], len, pending))
  }

  /** All tokens so far start below `reach` and are chosen. */
  ghost predicate AllChosen(input: seq<Byte>, toks: seq<Token>, pending: nat, reach: nat)
  {
    forall i :: 0 <= i < |toks| ==> Span(toks[..i]) < reach && Chosen(input, toks, i, pending)
  }

  /** The tokens of a whole input. */
  ghost predicate LazyTokens(input: seq<Byte>, toks: seq<Token>)
  {
    && Span(toks) == |input|
    && forall i :: 0 <= i < |toks| ==> Chosen(input, toks, i, 0)
  }

  // ---------- one more token ----------

  lemma {:induction false} TakenSnoc(toks: seq<Token>, len: nat, pending: nat, t: Token, pending': nat)
    requires Taken(toks, len, pending) && len >= MIN_MATCH
    requires pending >= MIN_MATCH ==> if t.Pair? then t.len >= pending else pending' > pending
    ensures Taken(toks + [t], len, pending')
    decreases |toks|
  {
    if toks == [] {
      assert ([] + [t])[1..] == [];
    } else if !toks[0].Pair? {
      assert (toks + [t])[1..] == toks[1..] + [t];
      TakenSnoc(toks[1..], len + 1, pending, t, pending');
    }
  }

  lemma {:induction false} TakenPending(toks: seq<Token>, len: nat, pending: nat, pending': nat)
    requires Taken(toks, len, pending) && len >= MIN_MATCH && pending < MIN_MATCH
    ensures Taken(toks, len, pending')
    decreases |toks|
  {
    if toks != [] && !toks[0].Pair? {
      TakenPending(toks[1..], len + 1, pending, pending');
    }
  }

  lemma ChosenSnoc(input: seq<Byte>, toks: seq<Token>, i: nat, pending: nat, t: Token, pending': nat)
    requires i < |toks| && Chosen(input, toks, i, pending)
    requires pending >= MIN_MATCH ==> if t.Pair? then t.len >= pending else pending' > pending
    ensures Chosen(input, toks + [t], i, pending')
  {
    hide Maximal, NoneBetter, Best, Taken;
    assert (toks + [t])[..i] == toks[..i];
    assert (toks + [t])[i..] == toks[i..] + [t];
    var dist: int, len: nat :| Best(input, Span(toks[..i]), dist, len) && (len >= MIN_MATCH ==> Taken(toks[i..], len, pending));
    if len >= MIN_MATCH {
      TakenSnoc(toks[i..], len, pending, t, pending');
    }
  }

  lemma ChosenPending(input: seq<Byte>, toks: seq<Token>, i: nat, pending: nat, pending': nat)
    requires i < |toks| && Chosen(input, toks, i, pending) && pending < MIN_MATCH
    ensures Chosen(input, toks, i, pending')
  {
    hide Maximal, NoneBetter, Best, Taken;
    var dist: int, len: nat :| Best(input, Span(toks[..i]), dist, len) && (len >= MIN_MATCH ==> Taken(toks[i..], len, pending));
    if len >= MIN_MATCH {
      TakenPending(toks[i..], len, pending, pending');
    }
  }

  lemma AllChosenSnoc(input: seq<Byte>, toks: seq<Token>, pending: nat, reach: nat, t: Token, pending': nat, reach': nat)
    requires AllChosen(input, toks, pending, reach) && reach <= reach' && Span(toks) < reach'
    requires pending >= MIN_MATCH ==> if t.Pair? then t.len >= pending else pending' > pending
    requires Chosen(input, toks + [t], |toks|, pending')
    ensures AllChosen(input, toks + [t], pending', reach')
  {
    hide Chosen;
    forall i | 0 <= i < |toks + [t]| ensures Span((toks + [t])[..i]) < reach' && Chosen(input, toks + [t], i, pending') {
      assert (toks + [t])[..i] == toks[..i];
      if i < |toks| {
        ChosenSnoc(input, toks, i, pending, t, pending');
      } else {
        assert toks[..i] == toks;
      }
    }
  }

  lemma AllChosenPending(input: seq<Byte>, toks: seq<Token>, pending: nat, reach: nat, pending': nat, reach': nat)
    requires AllChosen(input, toks, pending, reach) && reach <= reach' && pending < MIN_MATCH
    ensures AllChosen(input, toks, pending', reach')
  {
    hide Chosen;
    forall i | 0 <= i < |toks| ensures Span(toks[..i]) < reach' && Chosen(input, toks, i, pending') {
      ChosenPending(input, toks, i, pending, pending');
    }
  }

  // ---------- one round of deflate ----------

  /**
   The tokens recorded so far end at `p`.  If a literal or match waits there, it is the best match found,
   of length `len`.
   */
  ghost predicate Told(input: seq<Byte>, toks: seq<Token>, available: bool, p: nat, dist: int, len: nat, reach: nat)
  {
    && Span(toks) == p && AllChosen(input, toks, if available then len else 0, reach)
    && (available ==> Best(input, p, dist, len) && p < reach)
  }

  lemma NothingTold(input: seq<Byte>, dist: int, len: nat, reach: nat)
    ensures Told(input, [], false, 0, dist, len, reach)
  {
  }

  /** The waiting match is not beaten at the next position: it is the next token. */
  lemma MatchTold(input: seq<Byte>, toks: seq<Token>, p: nat, dist: nat, len0: nat, len: nat, dist': int, reach: nat, dist2: int, len2: nat)
    requires Told(input, toks, true, p, dist, len0, reach) && Found(input, p + 1, len0, len, dist')
    requires MIN_MATCH <= len0 && len <= len0 && reach <= p + 1
    ensures Told(input, toks + [Pair(dist, len0)], false, p + len0, dist2, len2, p + 2)
  {
    hide AllChosen, NoneBetter, Findable, Repeats, Span;
    var t := Pair(dist, len0);
    SpanSnoc(toks, t);
    assert (toks + [t])[..|toks|] == toks;
    assert (toks + [t])[|toks|..] == [t];
    if len0 < MAX_LAZY_MATCH {
      NoneBetterLess(input, p + 1, len0, Budget(len0), PATIENCE);
    }
    RepeatsBounds(input, p, dist, len0);
    AllChosenSnoc(input, toks, len0, reach, t, 0, p + 2);
  }

  /** The waiting match is given up for a longer one, or there was none. */
  lemma LiteralTold(input: seq<Byte>, toks: seq<Token>, p: nat, dist: int, len0: nat, len: nat, dist': int, reach: nat)
    requires Told(input, toks, true, p, dist, len0, reach) && Found(input, p + 1, len0, len, dist')
    requires len0 < MIN_MATCH || len > len0
    requires p < |input| && reach <= p + 1
    ensures Told(input, toks + [Literal(input[p])], true, p + 1, dist', len, p + 2)
  {
    hide AllChosen, NoneBetter, Findable, Repeats, Span, Maximal;
    var t := Literal(input[p]);
    SpanSnoc(toks, t);
    assert (toks + [t])[..|toks|] == toks;
    assert (toks + [t])[|toks|..] == [t] && [t][1..] == [];
    BestFound(input, p + 1, len0, len, dist');
    assert Best(input, p, dist, len0) && (len0 >= MIN_MATCH ==> Taken([t][1..], len0 + 1, len));
    AllChosenSnoc(input, toks, len0, reach, t, len, p + 2);
  }

  lemma BestFound(input: seq<Byte>, p: nat, len0: nat, len: nat, dist: int)
    requires Found(input, p, len0, len, dist) && (len0 < MIN_MATCH || len > len0)
    ensures Best(input, p, dist, len)
  {
    hide Maximal, SameAt, Between, HashAt;
    if len0 < MAX_LAZY_MATCH {
      NoneBetterLess(input, p, Max(len, len0), Budget(len0), PATIENCE);
    }
  }

  /** Behind a match nothing is recorded until the next search. */
  lemma WaitTold(input: seq<Byte>, toks: seq<Token>, p: nat, dist: int, len0: nat, len: nat, dist': int, reach: nat)
    requires Told(input, toks, false, p, dist, len0, reach) && Found(input, p, len0, len, dist') && len0 < MIN_MATCH
    requires reach <= p + 1
    ensures Told(input, toks, true, p, dist', len, p + 1)
  {
    hide AllChosen, NoneBetter, Findable, Repeats, Span, Maximal;
    BestFound(input, p, len0, len, dist');
    AllChosenPending(input, toks, 0, reach, len, p + 1);
  }

  /** The distance only matters for a match. */
  lemma ToldDist(input: seq<Byte>, toks: seq<Token>, available: bool, p: nat, dist: int, len: nat, dist': int, reach: nat)
    requires Told(input, toks, available, p, dist, len, reach) && (len < MIN_MATCH || dist' == dist)
    ensures Told(input, toks, available, p, dist', len, reach)
  {
    hide AllChosen, NoneBetter, Span, Maximal;
  }

  /** The literal that waits at the end of the input. */
  lemma LastTold(input: seq<Byte>, toks: seq<Token>, dist: int, len: nat, reach: nat)
    requires |input| > 0 && Told(input, toks, true, |input| - 1, dist, len, reach)
    ensures LazyTokens(input, toks + [Literal(input[|input| - 1])])
  {
    hide NoneBetter, Findable, Span, Chosen;
    var t := Literal(input[|input| - 1]);
    SpanSnoc(toks, t);
    assert len < MIN_MATCH;
    LastChosen(input, toks, dist, len);
    AllChosenSnoc(input, toks, len, reach, t, 0, |input| + reach);
  }

  lemma LastChosen(input: seq<Byte>, toks: seq<Token>, dist: int, len: nat)
    requires |input| > 0 && Span(toks) == |input| - 1 && Best(input, |input| - 1, dist, len)
    ensures Chosen(input, toks + [Literal(input[|input| - 1])], |toks|, 0) && len < MIN_MATCH
  {
    hide NoneBetter, Span, SameAt;
    var t := Literal(input[|input| - 1]);
    assert (toks + [t])[..|toks|] == toks;
  }

  /** Without anything waiting the tokens are those of the whole input. */
  lemma AllTold(input: seq<Byte>, toks: seq<Token>, dist: int, len: nat, reach: nat)
    requires Told(input, toks, false, |input|, dist, len, reach)
    ensures LazyTokens(input, toks)
  {
    hide Chosen, Span;
  }

  // ---------- more input ----------

  lemma {:induction false} BetweenMore(input: seq<Byte>, more: seq<Byte>, h: nat, lo: nat, hi: nat)
    requires input <= more && hi + 2 <= |input|
    ensures Between(more, h, lo, hi) == Between(input, h, lo, hi)
    decreases hi - lo
  {
    hide Hash3;
    if lo < hi {
      BetweenMore(input, more, h, lo + 1, hi);
    }
  }

  /** What is findable does not depend on input far ahead. */
  lemma FindableMore(input: seq<Byte>, more: seq<Byte>, p: nat, q: nat, k: nat, budget: nat)
    requires input <= more && p + MIN_LOOKAHEAD <= |input| + 1 && Findable(more, p, q, k, budget)
    ensures Findable(input, p, q, k, budget)
  {
    hide Hash3, Between;
    assert more[q..q + k] == input[q..q + k] && more[p..p + k] == input[p..p + k];
    BetweenMore(input, more, HashAt(input, p), q + 1, p);
  }

  lemma NoneBetterMore(input: seq<Byte>, more: seq<Byte>, p: nat, len: int, budget: nat)
    requires input <= more && p + MIN_LOOKAHEAD <= |input| + 1 && NoneBetter(input, p, len, budget)
    ensures NoneBetter(more, p, len, budget)
  {
    hide Findable;
    forall q: nat, k: nat | Findable(more, p, q, k, budget) ensures k <= len {
      FindableMore(input, more, p, q, k, budget);
    }
  }

  lemma MaximalMore(input: seq<Byte>, more: seq<Byte>, p: nat, dist: int, len: nat)
    requires input <= more && p + MIN_LOOKAHEAD <= |input| + 1 && Maximal(input, p, dist, len)
    ensures Maximal(more, p, dist, len)
  {
    RepeatsMore(input, more, p, dist, len, len);
  }

  lemma BestMore(input: seq<Byte>, more: seq<Byte>, p: nat, dist: int, len: nat)
    requires input <= more && p + MIN_LOOKAHEAD <= |input| + 1 && Best(input, p, dist, len)
    ensures Best(more, p, dist, len)
  {
    hide NoneBetter, Maximal;
    if len >= MIN_MATCH {
      MaximalMore(input, more, p, dist, len);
    }
    NoneBetterMore(input, more, p, len, PATIENCE);
  }

  lemma ChosenMore(input: seq<Byte>, more: seq<Byte>, toks: seq<Token>, i: nat, pending: nat)
    requires input <= more && i < |toks| && Span(toks[..i]) + MIN_LOOKAHEAD <= |input| && Chosen(input, toks, i, pending)
    ensures Chosen(more, toks, i, pending)
  {
    hide NoneBetter, Maximal, Best, Taken;
    var p, t := Span(toks[..i]), toks[i];
    var dist: int, len: nat :| Best(input, p, dist, len) && (len >= MIN_MATCH ==> Taken(toks[i..], len, pending));
    BestMore(input, more, p, dist, len);
    if t.Pair? {
      MaximalMore(input, more, p, t.dist, t.len);
      if t.len < MAX_LAZY_MATCH {
        NoneBetterMore(input, more, p + 1, t.len, PATIENCE);
      }
    }
  }

  lemma ToldMore(input: seq<Byte>, more: seq<Byte>, toks: seq<Token>, available: bool, p: nat, dist: int, len: nat, reach: nat)
    requires input <= more && reach + MIN_LOOKAHEAD <= |input| + 1 && Told(input, toks, available, p, dist, len, reach)
    ensures Told(more, toks, available, p, dist, len, reach)
  {
    hide Chosen, Best, Span;
    var pending := if available then len else 0;
    forall i | 0 <= i < |toks| ensures Chosen(more, toks, i, pending) {
      ChosenMore(input, more, toks, i, pending);
    }
    if available {
      BestMore(input, more, p, dist, len);
    }
  }
}
