/**
 Dependencies as clauses, their layout as flattened edges by add_split_dependencies, and
 where a walk over the edges can stand.
 */
module Dependencies {
  const EDGE_PRE_DEPENDS: nat := 1
  const EDGE_OR_PRE_DEPENDS: nat := 2
  const EDGE_DEPENDS: nat := 3
  const EDGE_OR_DEPENDS: nat := 4

  /** Names are indices into the name table; an OR edge keeps the number of its alternatives in `version`. */
  datatype Edge = Edge(kind: nat, operator: nat, name: nat, version: nat)

  predicate Depends(kind: nat)
  {
    kind == EDGE_DEPENDS || kind == EDGE_PRE_DEPENDS
  }

  predicate IsOr(kind: nat)
  {
    kind == EDGE_OR_DEPENDS || kind == EDGE_OR_PRE_DEPENDS
  }

  // ---------- clauses and their layout ----------

  /** A field of a dependency line: its alternatives, and whether there was a bar in it. */
  datatype Clause = Clause(kind: nat, name: nat, bar: bool, alternatives: seq<Edge>)

  predicate ProperClause(c: Clause)
  {
    && !IsOr(c.kind) && |c.alternatives| >= 1 && (c.bar || |c.alternatives| == 1)
    && forall i :: 0 <= i < |c.alternatives| ==> c.alternatives[i].kind == c.kind
  }

  predicate ProperClauses(cs: seq<Clause>)
  {
    forall i :: 0 <= i < |cs| ==> ProperClause(cs[i])
  }

  /** An OR edge only in front of the alternatives of dependencies. */
  function Layout(c: Clause): seq<Edge>
  {
    if Depends(c.kind) && c.bar then [Edge(c.kind + 1, 0, c.name, |c.alternatives|)] + c.alternatives
    else c.alternatives
  }

  function Layouts(cs: seq<Clause>): seq<Edge>
  {
    if cs == [] then [] else Layout(cs[0]) + Layouts(cs[1..])
  }

  lemma {:induction false} LayoutsConcat(a: seq<Clause>, b: seq<Clause>)
    ensures Layouts(a + b) == Layouts(a) + Layouts(b)
  {
    if a == [] {
      assert a + b == b;
    } else {
      assert (a + b)[1..] == a[1..] + b;
      LayoutsConcat(a[1..], b);
    }
  }

  lemma LayoutsSnoc(a: seq<Clause>, c: Clause)
    ensures Layouts(a + [c]) == Layouts(a) + Layout(c)
  {
    LayoutsConcat(a, [c]);
    assert [c][1..] == [];
    assert Layouts([c]) == Layout(c) + Layouts([]);
  }

  /** The edges of one field; the head of alternatives counts them as they are added. */
  method AddField(edges0: seq<Edge>, field: Clause) returns (edges: seq<Edge>)
    requires ProperClause(field)
    ensures edges == edges0 + Layout(field)
  {
    hide ProperClause;
    edges := edges0;
    var orEdge := -1;
    if Depends(field.kind) && field.bar {
      orEdge := |edges|;
      edges := edges + [Edge(field.kind + 1, 0, field.name, 0)];
    }
    ghost var start := |edges|;
    var k := 0;
    while k < |field.alternatives|
      invariant 0 <= k <= |field.alternatives| && |edges| == start + k
      invariant edges[..|edges0|] == edges0 && edges[start..] == field.alternatives[..k]
      invariant if orEdge >= 0 then orEdge == |edges0| == start - 1 && edges[orEdge] == Edge(field.kind + 1, 0, field.name, k)
                else start == |edges0|
    {
      if orEdge >= 0 {
        edges := edges[orEdge := edges[orEdge].(version := edges[orEdge].version + 1)];
      }
      edges := edges + [field.alternatives[k]];
      k := k + 1;
    }
    FieldDone(edges0, edges, start, field);
  }

  lemma FieldDone(edges0: seq<Edge>, edges: seq<Edge>, start: nat, field: Clause)
    requires |edges0| <= start <= |edges| && edges[..|edges0|] == edges0 && edges[start..] == field.alternatives
    requires if Depends(field.kind) && field.bar then start == |edges0| + 1
                && edges[|edges0|] == Edge(field.kind + 1, 0, field.name, |field.alternatives|)
             else start == |edges0|
    ensures edges == edges0 + Layout(field)
  {
    assert edges == edges[..|edges0|] + edges[|edges0|..start] + edges[start..];
  }

  /** The loops of add_split_dependencies over fields and alternatives that are already cut out of the line. */
  method AddSplitDependencies(edges0: seq<Edge>, fields: seq<Clause>) returns (edges: seq<Edge>)
    requires ProperClauses(fields)
    ensures edges == edges0 + Layouts(fields)
  {
    hide ProperClause, Layout, Layouts;
    edges := edges0;
    var f := 0;
    NoLayouts();
    assert fields[..0] == [];
    while f < |fields|
      invariant 0 <= f <= |fields| && edges == edges0 + Layouts(fields[..f])
    {
      LayoutsSnoc(fields[..f], fields[f]);
      assert fields[..f + 1] == fields[..f] + [fields[f]];
      edges := AddField(edges, fields[f]);
      f := f + 1;
    }
    assert fields[..f] == fields;
  }

  lemma NoLayouts()
    ensures Layouts([]) == []
  {
  }

  // ---------- what satisfies a dependency ----------

  /** A package in the table: what else it offers, and whether its state satisfies a kind of dependency. */
  datatype Node = Node(offers: seq<nat>, good: nat -> bool)

  datatype Entry = Missing | Present(node: Node)

  predicate Provider(e: Entry, name: nat)
  {
    e.Present? && name in e.node.offers
  }

  predicate Good(e: Entry, kind: nat)
  {
    e.Present? && e.node.good(kind)
  }

  /** The package found for the edge, or one that provides its name, satisfies it. */
  ghost predicate Satisfied(table: seq<Entry>, find: Edge -> nat, e: Edge)
  {
    || (find(e) < |table| && Good(table[find(e)], e.kind))
    || exists i :: 0 <= i < |table| && Provider(table[i], e.name) && Good(table[i], e.kind)
  }

  // ---------- the walk ----------

  /** Every clause of dependencies needs one satisfied alternative. */
  ghost predicate Holds(table: seq<Entry>, find: Edge -> nat, c: Clause)
  {
    Depends(c.kind) ==> exists i :: 0 <= i < |c.alternatives| && Satisfied(table, find, c.alternatives[i])
  }

  datatype RootEdge = NoRoot | Root(edge: Edge)

  /** Edges that are not looked at: neither dependencies nor heads of alternatives. */
  predicate Plain(es: seq<Edge>)
  {
    forall i :: 0 <= i < |es| ==> !Depends(es[i].kind) && !IsOr(es[i].kind)
  }

  /** Between two clauses, except for some edges that are not looked at; no alternatives are pending. */
  ghost predicate Between(rest: seq<Edge>, plain: seq<Edge>, cs: seq<Clause>, number: nat, root: RootEdge)
  {
    && ProperClauses(cs) && Plain(plain) && rest == plain + Layouts(cs)
    && (number == 0 || (number == 1 && root.NoRoot?))
  }

  /** Before the last `number` alternatives of the clause `c`. */
  ghost predicate Inside(rest: seq<Edge>, c: Clause, cs: seq<Clause>, number: nat, root: RootEdge)
  {
    && ProperClauses(cs) && ProperClause(c) && Depends(c.kind) && 1 <= number <= |c.alternatives|
    && root.Root? && root.edge.kind == c.kind + 1
    && rest == c.alternatives[|c.alternatives| - number..] + Layouts(cs)
  }

  /** The first edge is one of the plain ones. */
  lemma PlainHead(rest: seq<Edge>, plain: seq<Edge>, cs: seq<Clause>, number: nat, root: RootEdge)
    requires Between(rest, plain, cs, number, root) && plain != []
    ensures rest != [] && !Depends(rest[0].kind) && !IsOr(rest[0].kind) && Between(rest[1..], plain[1..], cs, number, root)
  {
    hide Layouts, ProperClauses;
    assert rest[0] == plain[0];
    assert rest[1..] == plain[1..] + Layouts(cs);
  }

  /** The first edge belongs to the next clause. */
  lemma ClauseHead(rest: seq<Edge>, cs: seq<Clause>, number: nat, root: RootEdge)
    requires Between(rest, [], cs, number, root) && rest != []
    ensures cs != [] && |cs[0].alternatives| >= 1 && ProperClause(cs[0]) && ProperClauses(cs[1..]) && rest == Layout(cs[0]) + Layouts(cs[1..])
  {
    hide Layout;
    assert [] + Layouts(cs) == Layouts(cs);
  }

  lemma DropAppend(a: seq<Edge>, b: seq<Edge>, n: nat)
    requires n <= |a|
    ensures (a + b)[n..] == a[n..] + b
  {
  }

  /** A head of alternatives: the walk enters the clause. */
  lemma OrHead(c: Clause, cs: seq<Clause>, rest: seq<Edge>)
    requires ProperClause(c) && ProperClauses(cs) && rest == Layout(c) + Layouts(cs)
    ensures rest != []
    ensures IsOr(rest[0].kind) ==> rest[0].version == |c.alternatives| && Inside(rest[1..], c, cs, rest[0].version, Root(rest[0]))
    ensures Depends(rest[0].kind) ==> c.kind == rest[0].kind && c.alternatives == [rest[0]] && rest[1..] == Layouts(cs)
    ensures !Depends(rest[0].kind) && !IsOr(rest[0].kind) ==>
              !Depends(c.kind) && Plain(c.alternatives[1..]) && rest[1..] == c.alternatives[1..] + Layouts(cs)
  {
    hide Layouts, ProperClauses;
    DropAppend(Layout(c), Layouts(cs), 1);
    assert c.alternatives[0..] == c.alternatives;
    assert rest[0] == Layout(c)[0];
  }

  lemma InsideHead(rest: seq<Edge>, c: Clause, cs: seq<Clause>, number: nat, root: RootEdge)
    requires Inside(rest, c, cs, number, root)
    ensures number <= |c.alternatives| && rest != [] && rest[0] == c.alternatives[|c.alternatives| - number]
    ensures root.Root? && rest[0].kind == c.kind == root.edge.kind - 1 && Depends(c.kind) && !IsOr(c.kind)
    ensures number > 1 ==> Inside(rest[1..], c, cs, number - 1, root)
    ensures number <= |rest| && rest[number..] == Layouts(cs)
  {
    hide Layouts, ProperClauses;
    var k := |c.alternatives| - number;
    var tail := c.alternatives[k..];
    Shift(c.alternatives, k, 1);
    DropAppend(tail, Layouts(cs), 1);
    DropAppend(tail, Layouts(cs), number);
    assert rest[0] == tail[0];
  }

  ghost predicate AllHold(table: seq<Entry>, find: Edge -> nat, cs: seq<Clause>)
  {
    forall i :: 0 <= i < |cs| ==> Holds(table, find, cs[i])
  }

  lemma AllHoldHead(table: seq<Entry>, find: Edge -> nat, cs: seq<Clause>)
    requires cs != []
    ensures AllHold(table, find, cs) <==> Holds(table, find, cs[0]) && AllHold(table, find, cs[1..])
  {
    if Holds(table, find, cs[0]) && AllHold(table, find, cs[1..]) {
      forall i | 0 <= i < |cs| ensures Holds(table, find, cs[i]) {
        if i > 0 {
          assert cs[i] == cs[1..][i - 1];
        }
      }
    }
  }

  /** None of the first `k` alternatives is satisfied. */
  ghost predicate NoneOf(table: seq<Entry>, find: Edge -> nat, c: Clause, k: nat)
  {
    forall i :: 0 <= i < k && i < |c.alternatives| ==> !Satisfied(table, find, c.alternatives[i])
  }

  lemma HoldsBy(table: seq<Entry>, find: Edge -> nat, c: Clause, k: nat)
    requires k < |c.alternatives| && Satisfied(table, find, c.alternatives[k])
    ensures Holds(table, find, c)
  {
    hide Satisfied;
  }

  lemma NoneHolds(table: seq<Entry>, find: Edge -> nat, c: Clause)
    requires Depends(c.kind) && NoneOf(table, find, c, |c.alternatives|)
    ensures !Holds(table, find, c)
  {
    hide Satisfied;
  }

  lemma OneMore(table: seq<Entry>, find: Edge -> nat, c: Clause, k: nat)
    requires NoneOf(table, find, c, k) && k < |c.alternatives| && !Satisfied(table, find, c.alternatives[k])
    ensures NoneOf(table, find, c, k + 1)
  {
    hide Satisfied;
  }

  lemma StartBetween(edges: seq<Edge>, clauses: seq<Clause>)
    requires ProperClauses(clauses) && edges == Layouts(clauses)
    ensures Between(edges, [], clauses, 0, NoRoot)
  {
    assert [] + Layouts(clauses) == edges;
  }

  lemma NumberBetween(rest: seq<Edge>, plain: seq<Edge>, cs: seq<Clause>, number: nat, root: RootEdge)
    requires Between(rest, plain, cs, number, root)
    ensures number == 0 || (number == 1 && root.NoRoot?)
    ensures Between(rest, plain, cs, 1, NoRoot) && ProperClauses(cs)
  {
  }

  lemma NothingLeft(plain: seq<Edge>, cs: seq<Clause>, number: nat, root: RootEdge)
    requires Between([], plain, cs, number, root)
    ensures cs == []
  {
    LayoutsSize(cs);
  }

  lemma {:induction false} LayoutsSize(cs: seq<Clause>)
    requires ProperClauses(cs)
    ensures |cs| <= |Layouts(cs)|
  {
    if cs != [] {
      assert ProperClause(cs[0]);
      LayoutsSize(cs[1..]);
    }
  }

  /** An alternative inside a clause has been looked at. */
  lemma AlternativeDone(rest: seq<Edge>, table: seq<Entry>, find: Edge -> nat, cs: seq<Clause>, number: nat, root: RootEdge, ok: bool)
    requires cs != [] && Inside(rest, cs[0], cs[1..], number, root)
    requires NoneOf(table, find, cs[0], |cs[0].alternatives| - number)
    requires rest != [] && ok == Satisfied(table, find, rest[0])
    ensures ok ==> (AllHold(table, find, cs) <==> AllHold(table, find, cs[1..]))
                   && number <= |rest| && Between(rest[number..], [], cs[1..], 0, root)
    ensures !ok && number == 1 ==> !AllHold(table, find, cs)
    ensures !ok && number > 1 ==> Inside(rest[1..], cs[0], cs[1..], number - 1, root)
                                  && NoneOf(table, find, cs[0], |cs[0].alternatives| - (number - 1))
  {
    hide Satisfied, Layouts, ProperClauses, AllHold, NoneOf, Holds, Plain;
    InsideHead(rest, cs[0], cs[1..], number, root);
    AllHoldHead(table, find, cs);
    var k := |cs[0].alternatives| - number;
    if ok {
      HoldsBy(table, find, cs[0], k);
      assert [] + Layouts(cs[1..]) == Layouts(cs[1..]);
      PlainNone();
    } else {
      OneMore(table, find, cs[0], k);
      if number == 1 {
        NoneHolds(table, find, cs[0]);
      }
    }
  }

  lemma PlainNone()
    ensures Plain([])
  {
  }

  /** A dependency without alternatives has been looked at. */
  lemma SingleDone(rest: seq<Edge>, table: seq<Entry>, find: Edge -> nat, cs: seq<Clause>, number: nat, root: RootEdge, ok: bool)
    requires Between(rest, [], cs, number, root) && rest != [] && Depends(rest[0].kind) && ok == Satisfied(table, find, rest[0])
    ensures cs != []
    ensures ok ==> (AllHold(table, find, cs) <==> AllHold(table, find, cs[1..])) && Between(rest[1..], [], cs[1..], 0, root)
    ensures !ok ==> !AllHold(table, find, cs)
  {
    hide Satisfied, Layouts, ProperClauses, AllHold, Holds, Layout, ProperClause, Plain;
    ClauseHead(rest, cs, number, root);
    OrHead(cs[0], cs[1..], rest);
    AllHoldHead(table, find, cs);
    if ok {
      HoldsBy(table, find, cs[0], 0);
      assert [] + Layouts(cs[1..]) == Layouts(cs[1..]);
      PlainNone();
    } else {
      NoneHolds(table, find, cs[0]);
    }
  }

  /** An edge that is no dependency has been passed: it belongs to `plain` or starts a clause that needs nothing. */
  lemma OtherDone(rest: seq<Edge>, table: seq<Entry>, find: Edge -> nat, plain: seq<Edge>, cs: seq<Clause>)
    returns (plain': seq<Edge>, cs': seq<Clause>)
    requires Between(rest, plain, cs, 1, NoRoot) && rest != [] && !Depends(rest[0].kind) && !IsOr(rest[0].kind)
    ensures Between(rest[1..], plain', cs', 1, NoRoot) && (AllHold(table, find, cs) <==> AllHold(table, find, cs'))
  {
    hide Satisfied, Layouts, ProperClauses, AllHold, Layout, ProperClause, Plain;
    if plain != [] {
      PlainHead(rest, plain, cs, 1, NoRoot);
      plain', cs' := plain[1..], cs;
    } else {
      ClauseHead(rest, cs, 1, NoRoot);
      OrHead(cs[0], cs[1..], rest);
      AllHoldHead(table, find, cs);
      plain', cs' := cs[0].alternatives[1..], cs[1..];
    }
  }

  /** What kind of edge can stand where. */
  lemma KindHere(rest: seq<Edge>, plain: seq<Edge>, cs: seq<Clause>, number: nat, root: RootEdge)
    requires Between(rest, plain, cs, number, root) && rest != []
    ensures Depends(rest[0].kind) ==> plain == []
    ensures IsOr(rest[0].kind) ==> cs != [] && 1 <= rest[0].version == |cs[0].alternatives|
                                   && Inside(rest[1..], cs[0], cs[1..], rest[0].version, Root(rest[0]))
  {
    hide Layouts, ProperClauses, Layout, ProperClause, Plain, Inside;
    if plain != [] {
      PlainHead(rest, plain, cs, number, root);
    } else {
      ClauseHead(rest, cs, number, root);
      OrHead(cs[0], cs[1..], rest);
    }
  }

  /** Where the walk stands: in front of `rest`, with the clauses `cs` still to be looked at. */
  ghost predicate Walking(rest: seq<Edge>, table: seq<Entry>, find: Edge -> nat, plain: seq<Edge>, cs: seq<Clause>, inside: bool,
                          number: nat, root: RootEdge)
  {
    if inside then cs != [] && Inside(rest, cs[0], cs[1..], number, root)
                   && 0 < number <= |cs[0].alternatives| && NoneOf(table, find, cs[0], |cs[0].alternatives| - number)
    else Between(rest, plain, cs, number, root)
  }

  /** What the next edge can be. */
  lemma NextEdge(rest: seq<Edge>, table: seq<Entry>, find: Edge -> nat, plain: seq<Edge>, cs: seq<Clause>, inside: bool,
                 number: nat, root: RootEdge)
    requires Walking(rest, table, find, plain, cs, inside, number, root) && rest != []
    ensures IsOr(rest[0].kind) ==> Walking(rest[1..], table, find, [], cs, true, rest[0].version, Root(rest[0]))
    ensures number == 0 ==> Walking(rest, table, find, plain, cs, inside, 1, NoRoot)
    ensures number > 0 && root.Root? ==> rest[0].kind == root.edge.kind - 1
    ensures !Depends(rest[0].kind) && !IsOr(rest[0].kind) ==> !inside && (number == 0 || (number == 1 && root.NoRoot?))
    ensures Depends(rest[0].kind) && !inside ==> plain == []
  {
    hide Between, Inside, NoneOf, Depends, IsOr;
    if inside {
      InsideHead(rest, cs[0], cs[1..], number, root);
    } else {
      KindHere(rest, plain, cs, number, root);
      NumberBetween(rest, plain, cs, number, root);
      if cs != [] {
        NoneYet(table, find, cs[0]);
      }
    }
  }

  lemma AnyRoot(rest: seq<Edge>, plain: seq<Edge>, cs: seq<Clause>, root: RootEdge)
    ensures Between(rest, plain, cs, 0, root) <==> Between(rest, plain, cs, 0, NoRoot)
  {
  }

  lemma Shift(edges: seq<Edge>, j: nat, n: nat)
    requires j + n <= |edges|
    ensures edges[j..][n..] == edges[j + n..] && (j < |edges| ==> edges[j..][0] == edges[j])
  {
  }

  lemma InsidePlain(rest: seq<Edge>, table: seq<Entry>, find: Edge -> nat, plain: seq<Edge>, cs: seq<Clause>, inside: bool,
                    number: nat, root: RootEdge)
    requires inside ==> Walking(rest, table, find, plain, cs, inside, number, root)
    ensures inside ==> Walking(rest, table, find, [], cs, inside, number, root)
  {
  }

  lemma StartWalking(edges: seq<Edge>, clauses: seq<Clause>, table: seq<Entry>, find: Edge -> nat)
    requires ProperClauses(clauses) && edges == Layouts(clauses)
    ensures Walking(edges, table, find, [], clauses, false, 0, NoRoot)
  {
    hide Between;
    StartBetween(edges, clauses);
  }

  lemma OtherStep(rest: seq<Edge>, table: seq<Entry>, find: Edge -> nat, plain: seq<Edge>, cs: seq<Clause>, inside: bool,
                  number: nat, root: RootEdge)
    returns (plain': seq<Edge>, cs': seq<Clause>)
    requires Walking(rest, table, find, plain, cs, inside, number, root) && !inside && number == 1 && root.NoRoot?
    requires rest != [] && !Depends(rest[0].kind) && !IsOr(rest[0].kind)
    ensures Walking(rest[1..], table, find, plain', cs', inside, number, root) && (AllHold(table, find, cs) <==> AllHold(table, find, cs'))
  {
    hide Between, AllHold, Depends, IsOr;
    plain', cs' := OtherDone(rest, table, find, plain, cs);
  }

  lemma NoneYet(table: seq<Entry>, find: Edge -> nat, c: Clause)
    ensures NoneOf(table, find, c, 0)
  {
  }

  lemma Finished(rest: seq<Edge>, table: seq<Entry>, find: Edge -> nat, plain: seq<Edge>, cs: seq<Clause>, inside: bool,
                 number: nat, root: RootEdge)
    requires rest == [] && Walking(rest, table, find, plain, cs, inside, number, root)
    ensures AllHold(table, find, cs)
  {
    hide Inside, Between, Layouts;
    if inside {
      InsideHead(rest, cs[0], cs[1..], number, root);
    } else {
      NothingLeft(plain, cs, number, root);
    }
  }
}
