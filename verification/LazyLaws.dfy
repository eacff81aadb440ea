/** What the lazy choice of tokens means for the output of gzip. */
module LazyLaws {
  import opened Arith
  import opened MatchCodes
  import opened Inflate
  import opened Tokens
  import opened HashChains
  import opened SlidingWindow
  import opened MatchSearch
  import opened LazyChoice
  import opened LazyMatching

  lemma SpanNext(toks: seq<Token>, i: nat)
    requires i < |toks|
    ensures Span(toks[..i + 1]) == Span(toks[..i]) + Width(toks[i])
  {
    hide Span;
    assert toks[..i + 1] == toks[..i] + [toks[i]];
    SpanSnoc(toks[..i], toks[i]);
  }

  lemma ChosenAt(input: seq<Byte>, toks: seq<Token>, i: nat)
    requires LazyTokens(input, toks) && i < |toks|
    ensures Chosen(input, toks, i, 0) && Span(toks[..i]) + Width(toks[i]) <= |input|
    ensures toks[i].Pair? ==> Maximal(input, Span(toks[..i]), toks[i].dist, toks[i].len)
  {
    hide Maximal, NoneBetter, Best, Taken, Span;
  }

  // ---------- meaning is preserved ----------

  /** The tokens expand to the input. */
  lemma LazyTokensExpand(input: seq<Byte>, toks: seq<Token>)
    requires LazyTokens(input, toks)
    ensures Expand([], toks) == Some(input)
  {
    ExpandTo(input, toks, |toks|);
    assert toks[..|toks|] == toks && input[..|input|] == input;
  }

  lemma {:induction false} ExpandTo(input: seq<Byte>, toks: seq<Token>, i: nat)
    requires LazyTokens(input, toks) && i <= |toks|
    ensures Span(toks[..i]) <= |input| && Expand([], toks[..i]) == Some(input[..Span(toks[..i])])
    decreases i
  {
    hide LazyTokens, NoneBetter, Best, Taken, Repeats, Expand, Span;
    if i == 0 {
      Nothing(input);
      assert toks[..0] == [];
    } else {
      ExpandTo(input, toks, i - 1);
      ChosenAt(input, toks, i - 1);
      SpanNext(toks, i - 1);
      assert toks[..i] == toks[..i - 1] + [toks[i - 1]];
      var p := Span(toks[..i - 1]);
      if toks[i - 1].Pair? {
        RepeatsBounds(input, p, toks[i - 1].dist, toks[i - 1].len);
        MatchExpands([], toks[..i - 1], input, p, toks[i - 1].dist, toks[i - 1].len);
      } else {
        LiteralExpands([], toks[..i - 1], input, p);
      }
    }
  }

  lemma Nothing(input: seq<Byte>)
    ensures Expand([], []) == Some(input[..0]) && Span([]) == 0
  {
  }

  // ---------- no repetition is lost ----------

  lemma {:induction false} TakenAt(toks: seq<Token>, len: nat)
    requires Taken(toks, len, 0) && len > 0
    ensures exists j :: 0 <= j < |toks| && TakesAt(toks, len, j)
    decreases |toks|
  {
    if toks[0].Pair? {
      assert TakesAt(toks, len, 0);
    } else {
      TakenAt(toks[1..], len + 1);
      var j :| 0 <= j < |toks[1..]| && TakesAt(toks[1..], len + 1, j);
      assert TakesAt(toks, len, j + 1) by {
        forall i | 0 <= i < j + 1 ensures !toks[i].Pair? {
          assert i > 0 ==> toks[i] == toks[1..][i - 1];
        }
      }
    }
  }

  /** After `j` literals there is a match that is longer than `len` by at least `j`. */
  predicate TakesAt(toks: seq<Token>, len: nat, j: nat)
    requires j < |toks|
  {
    (forall i :: 0 <= i < j ==> !toks[i].Pair?) && toks[j].Pair? && toks[j].len >= len + j
  }

  /** Where a token starts, a findable repetition is taken, or each literal in its place makes a longer match come next. */
  lemma FindableTaken(input: seq<Byte>, toks: seq<Token>, i: nat, q: nat, k: nat)
    requires LazyTokens(input, toks) && i < |toks| && Findable(input, Span(toks[..i]), q, k, PATIENCE)
    ensures exists j :: 0 <= j < |toks[i..]| && TakesAt(toks[i..], k, j)
  {
    var len := BestTaken(input, toks, i, q, k);
    TakenAt(toks[i..], len);
    var j :| 0 <= j < |toks[i..]| && TakesAt(toks[i..], len, j);
    assert TakesAt(toks[i..], k, j);
  }

  /** The match found there is at least as long as any findable one, is maximal, and is taken. */
  lemma BestTaken(input: seq<Byte>, toks: seq<Token>, i: nat, q: nat, k: nat) returns (len: nat)
    requires LazyTokens(input, toks) && i < |toks| && Findable(input, Span(toks[..i]), q, k, PATIENCE)
    ensures len >= k >= MIN_MATCH && Taken(toks[i..], len, 0)
    ensures exists dist: int :: Maximal(input, Span(toks[..i]), dist, len)
  {
    hide Findable, Taken, Span, Maximal;
    ChosenAt(input, toks, i);
    FindableSize(input, Span(toks[..i]), q, k, PATIENCE);
    var dist: int, best: nat :| Best(input, Span(toks[..i]), dist, best) && (best >= MIN_MATCH ==> Taken(toks[i..], best, 0));
    len := best;
  }

  /** A match that is taken fits the rest of the input, and so do the literals before it. */
  lemma {:induction false} TakenFits(input: seq<Byte>, toks: seq<Token>, i: nat, len: nat)
    requires LazyTokens(input, toks) && i <= |toks| && len > 0 && Taken(toks[i..], len, 0)
    ensures len <= MAX_MATCH && Span(toks[..i]) + len <= |input|
    decreases |toks| - i
  {
    hide LazyTokens, Span, Repeats;
    if i < |toks| {
      ChosenAt(input, toks, i);
      if !toks[i].Pair? {
        assert toks[i..][1..] == toks[i + 1..];
        SpanNext(toks, i);
        TakenFits(input, toks, i + 1, len + 1);
      }
    }
  }

  // ---------- a run of equal bytes ----------

  ghost predicate AllEqual(input: seq<Byte>)
  {
    forall i, j :: 0 <= i < |input| && 0 <= j < |input| ==> input[i] == input[j]
  }

  /** From the third byte on every token of a run is a match that is as long as possible. */
  lemma RunToken(input: seq<Byte>, toks: seq<Token>, i: nat)
    requires AllEqual(input) && LazyTokens(input, toks) && i < |toks|
    requires 2 <= Span(toks[..i]) && Span(toks[..i]) + 4 <= |input|
    ensures Width(toks[i]) == Min(MAX_MATCH, |input| - Span(toks[..i]))
  {
    hide LazyTokens, Span, Findable, NICE_MATCH;
    var p := Span(toks[..i]);
    RunFindable(input, p);
    var len := BestTaken(input, toks, i, p - 1, Min(NICE_MATCH, |input| - p));
    ChosenAt(input, toks, i);
    if !toks[i].Pair? {
      assert toks[i..][1..] == toks[i + 1..];
      SpanNext(toks, i);
      TakenFits(input, toks, i + 1, len + 1);
    }
  }

  lemma RunFindable(input: seq<Byte>, p: nat)
    requires AllEqual(input) && 2 <= p && p + 4 <= |input|
    ensures Findable(input, p, p - 1, Min(NICE_MATCH, |input| - p), PATIENCE)
  {
    var k := Min(NICE_MATCH, |input| - p);
    assert input[p - 1..p - 1 + k] == input[p..p + k];
  }

  /** The first two bytes start no match. */
  lemma FirstBytes(input: seq<Byte>, toks: seq<Token>)
    requires LazyTokens(input, toks)
    ensures |toks| > 0 ==> Span(toks[..1]) == 1
    ensures |toks| > 1 ==> Span(toks[..2]) == 2
  {
    hide LazyTokens, SameAt;
    if |toks| > 0 {
      ChosenAt(input, toks, 0);
      SpanNext(toks, 0);
      if |toks| > 1 {
        ChosenAt(input, toks, 1);
        SpanNext(toks, 1);
      }
    }
  }

  lemma {:induction false} RunTokens(input: seq<Byte>, toks: seq<Token>, i: nat)
    requires AllEqual(input) && LazyTokens(input, toks) && i <= |toks| && 2 <= Span(toks[..i])
    ensures Span(toks[..i]) <= |input| && |toks| - i <= (|input| - Span(toks[..i])) / MAX_MATCH + 3
    decreases |toks| - i
  {
    hide LazyTokens, Span, AllEqual, Maximal;
    if i < |toks| {
      ChosenAt(input, toks, i);
      SpanNext(toks, i);
      TokenWide(input, toks, i);
      RunTokens(input, toks, i + 1);
      if Span(toks[..i]) + 4 <= |input| {
        RunToken(input, toks, i);
        FewTokens(input, toks, i + 1);
      } else {
        FewTokens(input, toks, i);
      }
    } else {
      WholeSpan(input, toks);
      assert toks[..i] == toks;
    }
  }

  lemma WholeSpan(input: seq<Byte>, toks: seq<Token>)
    requires LazyTokens(input, toks)
    ensures Span(toks) == |input|
  {
  }

  lemma TokenWide(input: seq<Byte>, toks: seq<Token>, i: nat)
    requires LazyTokens(input, toks) && i < |toks|
    ensures Width(toks[i]) >= 1
  {
    hide LazyTokens, Span, Repeats;
    ChosenAt(input, toks, i);
  }

  lemma {:induction false} FewTokens(input: seq<Byte>, toks: seq<Token>, i: nat)
    requires LazyTokens(input, toks) && i <= |toks|
    ensures |toks| - i + Span(toks[..i]) <= |input|
    decreases |toks| - i
  {
    hide LazyTokens, Span;
    if i < |toks| {
      SpanNext(toks, i);
      TokenWide(input, toks, i);
      FewTokens(input, toks, i + 1);
    } else {
      WholeSpan(input, toks);
      assert toks[..i] == toks;
    }
  }

  /** `n` equal bytes are sent as at most `n / 258 + 5` tokens. */
  lemma RunIsShort(input: seq<Byte>, toks: seq<Token>)
    requires AllEqual(input) && LazyTokens(input, toks)
    ensures |toks| <= |input| / MAX_MATCH + 5
  {
    hide LazyTokens, AllEqual, Span;
    FirstBytes(input, toks);
    if |toks| > 1 {
      RunTokens(input, toks, 2);
    }
  }

  // ---------- a short input ----------

  const ABC: seq<Byte> := [97, 98, 99, 97, 98, 99, 97, 98, 99]

  lemma {:induction false} BetweenFew(win: seq<Byte>, h: nat, lo: nat, hi: nat)
    requires lo <= hi
    ensures Between(win, h, lo, hi) <= hi - lo
    decreases hi - lo
  {
    hide HashAt;
    if lo < hi {
      BetweenFew(win, h, lo + 1, hi);
    }
  }

  /** Only at position 4 is there a match, of length 5 and with the distance 3. */
  lemma AbcMatches(p: nat, dist: int, len: nat)
    requires p <= 4 && Maximal(ABC, p, dist, len)
    ensures p == 4 && dist == 3 && len == 5
  {
    assert ABC[p - dist..p - dist + len][0] == ABC[p..p + len][0];
    assert ABC[p - dist..p - dist + len][1] == ABC[p..p + len][1];
  }

  lemma AbcFindable()
    ensures Findable(ABC, 4, 1, 5, PATIENCE)
  {
    hide HashAt;
    assert ABC[1..6] == ABC[4..9];
    BetweenFew(ABC, HashAt(ABC, 4), 2, 4);
  }

  /** abcabcabc is sent as four literals and a match of length 5 at distance 3. */
  lemma AbcTokens(toks: seq<Token>)
    requires LazyTokens(ABC, toks)
    ensures toks == [Literal(97), Literal(98), Literal(99), Literal(97), Pair(3, 5)]
  {
    hide LazyTokens, Findable, Maximal;
    AbcLiteral(toks, 0);
    AbcLiteral(toks, 1);
    AbcLiteral(toks, 2);
    AbcLiteral(toks, 3);
    AbcLiteral(toks, 4);
    ChosenAt(ABC, toks, 4);
    AbcFindable();
    var len := BestTaken(ABC, toks, 4, 1, 5);
    if toks[4].Pair? {
      AbcMatches(4, toks[4].dist, toks[4].len);
      SpanNext(toks, 4);
      FewTokens(ABC, toks, 5);
    } else {
      assert toks[4..][1..] == toks[5..];
      SpanNext(toks, 4);
      TakenFits(ABC, toks, 5, len + 1);
    }
  }

  lemma {:induction false} AbcLiteral(toks: seq<Token>, i: nat)
    requires LazyTokens(ABC, toks) && i <= 4
    ensures |toks| > i && Span(toks[..i]) == i && (i < 4 ==> toks[i] == Literal(ABC[i]))
    decreases i
  {
    hide LazyTokens, Maximal;
    if i > 0 {
      AbcLiteral(toks, i - 1);
      SpanNext(toks, i - 1);
    }
    MoreTokens(ABC, toks, i);
    ChosenLiteral(ABC, toks, i);
    if i < 4 && toks[i].Pair? {
      AbcMatches(i, toks[i].dist, toks[i].len);
    }
  }

  lemma MoreTokens(input: seq<Byte>, toks: seq<Token>, i: nat)
    requires LazyTokens(input, toks) && i <= |toks| && Span(toks[..i]) < |input|
    ensures i < |toks|
  {
    hide Chosen, Span;
    assert toks[..|toks|] == toks;
  }

  lemma ChosenLiteral(input: seq<Byte>, toks: seq<Token>, i: nat)
    requires LazyTokens(input, toks) && i < |toks|
    ensures if toks[i].Pair? then Maximal(input, Span(toks[..i]), toks[i].dist, toks[i].len)
            else Span(toks[..i]) < |input| && toks[i] == Literal(input[Span(toks[..i])])
  {
    hide Maximal, NoneBetter, Best, Taken, Span;
    assert Chosen(input, toks, i, 0);
  }
}
