/** What the optimiser makes of a stream, on the instructions that the decoder takes. */
module LzoWalk {
  import opened LzoFormat

  /** An instruction of the result, and how many instructions of the stream it stands for. */
  datatype Piece = Piece(what: Instr, count: nat)

  function What(pieces: seq<Piece>): (r: seq<Instr>)
    ensures |r| == |pieces|
  {
    seq(|pieces|, i requires 0 <= i < |pieces| => pieces[i].what)
  }

  // ---------- the three shapes ----------

  /** A match without literals that takes as many bytes as it stands for. */
  predicate Bare(x: Instr)
  {
    x.Match? && x.lits == 0 && x.head == x.len
  }

  /** `x` makes up three literals with those of the match `a`, and no literal run follows. */
  predicate BetweenMatches(a: Instr, x: Instr, b: Instr)
  {
    a.Match? && Bare(x) && a.lits + x.len == 3 && !b.Run?
  }

  /** `x` and the literals of the match `a` fit the short literal run `b`. */
  predicate BeforeRun(a: Instr, x: Instr, b: Instr)
  {
    a.Match? && Bare(x) && x.len <= 3 && b.Run? && a.lits + x.len + b.n <= 18
  }

  /** `x` is a near match of three bytes in two, without literals, and fits with the runs around it in one. */
  predicate BetweenRuns(a: Instr, x: Instr, b: Instr)
  {
    a.Run? && x.Match? && x.lits == 0 && x.head == 2 && x.len == 3 && x.off <= 0x800 && b.Run? && a.n + x.len + b.n <= 18
  }

  predicate Removable(a: Instr, x: Instr, b: Instr)
  {
    BetweenMatches(a, x, b) || BeforeRun(a, x, b) || BetweenRuns(a, x, b)
  }

  // ---------- the walk ----------

  /** The pieces `done` followed by what the walk makes of the instructions `rest`. */
  function Walk(done: seq<Piece>, rest: seq<Instr>): (r: seq<Piece>)
    decreases |rest|
  {
    if rest == [] then done
    else if done == [] || |rest| == 1 then Walk(done + [Piece(rest[0], 1)], rest[1..])
    else
      var k := |done| - 1;
      var a, n, x, b := done[k].what, done[k].count, rest[0], rest[1];
      if BetweenMatches(a, x, b) then Walk(done[..k] + [Piece(a.(lits := 3), n + 1)], rest[1..])
      else if BeforeRun(a, x, b) then Walk(done[..k] + [Piece(a.(lits := 0), n), Piece(Run(a.lits + x.len + b.n), 2)], rest[2..])
      else if BetweenRuns(a, x, b) then Walk(done[..k] + [Piece(Run(a.n + 3 + b.n), n + 2)], rest[2..])
      else Walk(done + [Piece(x, 1)], rest[1..])
  }

  // ---------- every match of these shapes disappears ----------

  function Count(pieces: seq<Piece>): nat
  {
    if pieces == [] then 0 else Count(pieces[..|pieces| - 1]) + pieces[|pieces| - 1].count
  }

  lemma CountSnoc(pieces: seq<Piece>, p: Piece)
    ensures Count(pieces + [p]) == Count(pieces) + p.count
  {
    assert (pieces + [p])[..|pieces|] == pieces;
  }

  lemma CountLast(pieces: seq<Piece>)
    requires pieces != []
    ensures Count(pieces) == Count(pieces[..|pieces| - 1]) + pieces[|pieces| - 1].count
  {
  }

  /** The pieces stand for all instructions, so the result is shorter by one for each that joined another. */
  lemma {:induction false} WalkCounts(done: seq<Piece>, rest: seq<Instr>)
    ensures Count(Walk(done, rest)) == Count(done) + |rest|
    decreases |rest|
  {
    hide Count, BetweenMatches, BeforeRun, BetweenRuns;
    if rest != [] {
      CountSnoc(done, Piece(rest[0], 1));
      if done == [] || |rest| == 1 {
        WalkCounts(done + [Piece(rest[0], 1)], rest[1..]);
      } else {
        var k := |done| - 1;
        var a, n, x, b := done[k].what, done[k].count, rest[0], rest[1];
        CountLast(done);
        if BetweenMatches(a, x, b) {
          MatchShape(a, x, b);
          CountSnoc(done[..k], Piece(a.(lits := 3), n + 1));
          WalkCounts(done[..k] + [Piece(a.(lits := 3), n + 1)], rest[1..]);
        } else if BeforeRun(a, x, b) {
          MatchShape(a, x, b);
          var p, q := Piece(a.(lits := 0), n), Piece(Run(a.lits + x.len + b.n), 2);
          CountSnoc(done[..k], p);
          CountSnoc(done[..k] + [p], q);
          assert done[..k] + [p, q] == done[..k] + [p] + [q];
          WalkCounts(done[..k] + [p, q], rest[2..]);
        } else if BetweenRuns(a, x, b) {
          MatchShape(a, x, b);
          CountSnoc(done[..k], Piece(Run(a.n + 3 + b.n), n + 2));
          WalkCounts(done[..k] + [Piece(Run(a.n + 3 + b.n), n + 2)], rest[2..]);
        } else {
          WalkCounts(done + [Piece(x, 1)], rest[1..]);
        }
      }
    }
  }

  lemma MatchShape(a: Instr, x: Instr, b: Instr)
    ensures BetweenMatches(a, x, b) ==> a.Match? && x.Match? && !b.Run?
    ensures BeforeRun(a, x, b) ==> a.Match? && x.Match? && b.Run?
    ensures BetweenRuns(a, x, b) ==> a.Run? && x.Match? && b.Run?
  {
  }

  // ---------- what is left ----------

  /** A run that a match has joined. */
  predicate Joined(p: Piece)
  {
    p.what.Run? && p.count >= 2
  }

  /** If the piece at `i` could still be removed, then only because the run behind it has become longer. */
  predicate Settled(w: seq<Piece>, i: nat)
    requires 0 < i < |w| - 1
  {
    Removable(w[i - 1].what, w[i].what, w[i + 1].what) ==> Joined(w[i + 1])
  }

  /** All pieces are settled, and the last one is not to be removed either. */
  predicate AllSettled(w: seq<Piece>, rest: seq<Instr>)
  {
    && (forall i :: 0 < i < |w| - 1 ==> Settled(w, i))
    && (|w| >= 2 && rest != [] ==> !Removable(w[|w| - 2].what, w[|w| - 1].what, rest[0]))
  }

  lemma KeepSettled(w: seq<Piece>, rest: seq<Instr>)
    requires AllSettled(w, rest) && rest != []
    requires w != [] && |rest| > 1 ==> !Removable(w[|w| - 1].what, rest[0], rest[1])
    ensures AllSettled(w + [Piece(rest[0], 1)], rest[1..])
  {
    hide Removable;
    var w' := w + [Piece(rest[0], 1)];
    forall i | 0 < i < |w'| - 1 ensures Settled(w', i) {
      assert i < |w| - 1 ==> Settled(w, i);
    }
  }

  /** The last piece is replaced, by one of its kind or by a joined run, and one more run may follow. */
  lemma ChangeSettled(w: seq<Piece>, rest: seq<Instr>, p: Piece, more: seq<Piece>, rest': seq<Instr>)
    requires AllSettled(w, rest) && w != [] && |more| <= 1
    requires if w[|w| - 1].what.Run? then Joined(p) else w[|w| - 1].what.Match? && p.what.Match?
    requires if more == [] then (p.what.Match? ==> p.what.lits != 0) else Joined(more[0])
    ensures AllSettled(w[..|w| - 1] + [p] + more, rest')
  {
    var w' := w[..|w| - 1] + [p] + more;
    forall i | 0 < i < |w'| - 1 ensures Settled(w', i) {
      assert i < |w| - 1 ==> Settled(w, i);
    }
  }

  lemma {:induction false} WalkSettles(done: seq<Piece>, rest: seq<Instr>)
    requires AllSettled(done, rest)
    ensures AllSettled(Walk(done, rest), [])
    decreases |rest|
  {
    hide AllSettled, BetweenMatches, BeforeRun, BetweenRuns;
    if rest == [] {
    } else if done == [] || |rest| == 1 {
      KeepSettled(done, rest);
      WalkSettles(done + [Piece(rest[0], 1)], rest[1..]);
    } else {
      var k := |done| - 1;
      var a, n, x, b := done[k].what, done[k].count, rest[0], rest[1];
      MatchShape(a, x, b);
      if BetweenMatches(a, x, b) {
        ChangeSettled(done, rest, Piece(a.(lits := 3), n + 1), [], rest[1..]);
        assert done[..k] + [Piece(a.(lits := 3), n + 1)] + [] == done[..k] + [Piece(a.(lits := 3), n + 1)];
        WalkSettles(done[..k] + [Piece(a.(lits := 3), n + 1)], rest[1..]);
      } else if BeforeRun(a, x, b) {
        var p, q := Piece(a.(lits := 0), n), Piece(Run(a.lits + x.len + b.n), 2);
        ChangeSettled(done, rest, p, [q], rest[2..]);
        assert done[..k] + [p, q] == done[..k] + [p] + [q];
        WalkSettles(done[..k] + [p, q], rest[2..]);
      } else if BetweenRuns(a, x, b) {
        var p := Piece(Run(a.n + 3 + b.n), n + 2);
        ChangeSettled(done, rest, p, [], rest[2..]);
        assert done[..k] + [p] + [] == done[..k] + [p];
        WalkSettles(done[..k] + [p], rest[2..]);
      } else {
        KeepSettled(done, rest);
        WalkSettles(done + [Piece(x, 1)], rest[1..]);
      }
    }
  }

  /**
   The result of a walk: no match is left between matches, and one in front of a run or between runs only if
   that run has become longer on the way.  The walk does not go back to it.
   */
  lemma NothingLeft(instrs: seq<Instr>, i: nat)
    requires 0 < i < |Walk([], instrs)| - 1
    ensures var w := Walk([], instrs);
            && !BetweenMatches(w[i - 1].what, w[i].what, w[i + 1].what)
            && (Removable(w[i - 1].what, w[i].what, w[i + 1].what) ==> Joined(w[i + 1]))
  {
    hide Walk;
    WalkSettles([], instrs);
    assert Settled(Walk([], instrs), i);
  }

  /** Such a match: only its literals kept it, and they have gone to the run. */
  lemma LeftBehind()
    ensures var m0, m1 := Match(2, 1, 3, 1), Match(2, 1, 2, 1);
            && What(Walk([], [Run(4), m0, m1, Match(2, 1, 2, 0), Run(4)])) == [Run(4), m0, m1.(lits := 0), Run(7)]
            && BeforeRun(m0, m1.(lits := 0), Run(7))
  {
    var m0, m1, m2 := Match(2, 1, 3, 1), Match(2, 1, 2, 1), Match(2, 1, 2, 0);
    var d1: seq<Piece> := [Piece(Run(4), 1)];
    var d2 := d1 + [Piece(m0, 1)];
    var d3 := d2 + [Piece(m1, 1)];
    assert Walk(d3, [m2, Run(4)]) == d2 + [Piece(m1.(lits := 0), 1), Piece(Run(7), 2)];
    assert [m1, m2, Run(4)][1..] == [m2, Run(4)];
    assert Walk(d2, [m1, m2, Run(4)]) == Walk(d3, [m2, Run(4)]);
    assert [m0, m1, m2, Run(4)][1..] == [m1, m2, Run(4)];
    assert Walk(d1, [m0, m1, m2, Run(4)]) == Walk(d2, [m1, m2, Run(4)]);
    assert [Run(4), m0, m1, m2, Run(4)][1..] == [m0, m1, m2, Run(4)];
    assert [] + [Piece(Run(4), 1)] == d1;
  }
}
