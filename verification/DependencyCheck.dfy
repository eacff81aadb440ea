/**
 The dependency part of check_deps on the tables of packages, statuses and strings: the
 walk over flattened edges agrees with the clauses they came from.
 */
module DependencyCheck {
  import opened Arith
  import opened VersionOrder
  import opened DoubleHashing
  import opened NameTable
  import opened PackageTable
  import opened StatusTable
  import opened Dependencies
  import opened VersionLaws

  const EDGE_PROVIDES: nat := 7

  // ---------- the words of a status ----------

  const SPACE: Byte := 32
  const NEWLINE: Byte := 10
  const INSTALL: seq<Byte> := [105, 110, 115, 116, 97, 108, 108]
  const INSTALLED: seq<Byte> := [105, 110, 115, 116, 97, 108, 108, 101, 100]

  /** Characters in front of the first space. */
  function ToSpace(s: seq<Byte>): (n: nat)
    ensures n <= |s|
  {
    if s == [] || s[0] == SPACE then 0 else 1 + ToSpace(s[1..])
  }

  function Spaces(s: seq<Byte>): (n: nat)
    ensures n <= |s|
  {
    if s == [] || s[0] != SPACE then 0 else 1 + Spaces(s[1..])
  }

  function AfterWord(s: seq<Byte>): seq<Byte>
  {
    var r := s[ToSpace(s)..];
    r[Spaces(r)..]
  }

  function FirstWord(s: seq<Byte>): seq<Byte>
  {
    if s == [] || s[0] == SPACE || s[0] == NEWLINE then [] else [s[0]] + FirstWord(s[1..])
  }

  /** Word number `n` of a status: 1 says what is wanted, 3 what is. */
  function Word(s: seq<Byte>, n: nat): seq<Byte>
  {
    if n <= 1 then FirstWord(s) else Word(AfterWord(s), n - 1)
  }

  predicate PlainWord(w: seq<Byte>)
  {
    w != [] && NoBlanks(w)
  }

  predicate NoBlanks(w: seq<Byte>)
  {
    forall i :: 0 <= i < |w| ==> w[i] != SPACE && w[i] != NEWLINE
  }

  /** The three words of a status come back. */
  lemma WordsApart(want: seq<Byte>, flag: seq<Byte>, state: seq<Byte>)
    requires PlainWord(want) && PlainWord(flag) && PlainWord(state)
    ensures var s := want + [SPACE] + (flag + [SPACE] + state);
            Word(s, 1) == want && Word(s, 2) == flag && Word(s, 3) == state
  {
    var rest := flag + [SPACE] + state;
    OneWord(want, rest);
    OneWord(flag, state);
    LastWord(state);
    assert Word(want + [SPACE] + rest, 2) == Word(rest, 1);
    assert Word(want + [SPACE] + rest, 3) == Word(rest, 2);
  }

  lemma {:induction false} OneWord(w: seq<Byte>, rest: seq<Byte>)
    requires rest != [] && rest[0] != SPACE && NoBlanks(w)
    ensures FirstWord(w + [SPACE] + rest) == w && AfterWord(w + [SPACE] + rest) == rest
    ensures ToSpace(w + [SPACE] + rest) == |w|
  {
    var s := w + [SPACE] + rest;
    if w != [] {
      OneWord(w[1..], rest);
      assert s[1..] == w[1..] + [SPACE] + rest;
    }
    var r := s[|w|..];
    assert r[0] == SPACE && r[1..] == rest;
    assert Spaces(r) == 1 + Spaces(rest);
  }

  lemma {:induction false} LastWord(w: seq<Byte>)
    requires NoBlanks(w)
    ensures FirstWord(w) == w
  {
    if w != [] {
      LastWord(w[1..]);
    }
  }

  /** get_status, with the word itself instead of its index. */
  method GetStatus(status: seq<Byte>, num: nat) returns (word: seq<Byte>)
    ensures word == Word(status, num)
  {
    var s, i := status, 1;
    while i < num
      invariant 1 <= i && (i <= num || i == 1) && Word(status, num) == Word(s, if i <= num then num - i + 1 else num)
    {
      s := s[ToSpace(s)..];
      s := s[Spaces(s)..];
      i := i + 1;
    }
    word := FirstWord(s);
  }

  // ---------- the tables ----------

  /** Package `i` has a status whose word number `n` is `word`. */
  ghost predicate HasWord(st: seq<Status>, pk: seq<Package>, i: nat, n: nat, word: seq<Byte>)
  {
    exists a :: 0 <= a < STATUS_HASH_PRIME && IsStatusOf(st, pk, i, a) && Word(st[a].status, n) == word
  }

  ghost predicate IsStatusOf(st: seq<Status>, pk: seq<Package>, i: nat, a: nat)
  {
    && i < |pk| && pk[i].Package? && a < |st| && st[a].Status?
    && st[a].package < |pk| && pk[st[a].package].Package? && pk[st[a].package].name == pk[i].name
  }

  /** A pre-dependency needs an installed package, a dependency one that is to be installed. */
  ghost predicate Satisfies(st: seq<Status>, pk: seq<Package>, i: nat, kind: nat)
  {
    if kind == EDGE_PRE_DEPENDS then HasWord(st, pk, i, 3, INSTALLED)
    else kind == EDGE_DEPENDS && HasWord(st, pk, i, 1, INSTALL)
  }

  /** A package with the only status `want flag state`: what is needed for which kind of dependency. */
  lemma StatusDecides(st: seq<Status>, pk: seq<Package>, i: nat, a: nat, want: seq<Byte>, flag: seq<Byte>, state: seq<Byte>)
    requires PlainWord(want) && PlainWord(flag) && PlainWord(state)
    requires a < STATUS_HASH_PRIME && IsStatusOf(st, pk, i, a) && forall b: nat :: IsStatusOf(st, pk, i, b) ==> b == a
    requires st[a].status == want + [' ' as int] + (flag + [' ' as int] + state)
    ensures Satisfies(st, pk, i, 1) <==> state == Bytes("installed")
    ensures Satisfies(st, pk, i, 3) <==> want == Bytes("install")
    ensures forall kind: nat :: kind != 1 && kind != 3 ==> !Satisfies(st, pk, i, kind)
  {
    hide Word, IsStatusOf, PlainWord;
    WordsApart(want, flag, state);
    assert Bytes("install") == INSTALL && Bytes("installed") == INSTALLED;
    assert HasWord(st, pk, i, 3, INSTALLED) <==> state == INSTALLED;
    assert HasWord(st, pk, i, 1, INSTALL) <==> want == INSTALL;
  }

  /** Without a status nothing is satisfied. */
  lemma NoStatusSatisfies(st: seq<Status>, pk: seq<Package>, i: nat, kind: nat)
    requires forall b: nat :: !IsStatusOf(st, pk, i, b)
    ensures !Satisfies(st, pk, i, kind)
  {
    hide Word, IsStatusOf;
  }

  /** The kinds 1 (pre-dependency) and 3 (dependency) are checked, and no others. */
  lemma KindsChecked(table: seq<Entry>, find: Edge -> nat, c: Clause)
    ensures c.kind in {1, 3} ==>
              (Holds(table, find, c) <==> exists i :: 0 <= i < |c.alternatives| && Satisfied(table, find, c.alternatives[i]))
    ensures c.kind !in {1, 3} ==> Holds(table, find, c)
  {
    hide Satisfied;
  }

  /** The names that the edges of a package provide. */
  function Offers(es: seq<Edge>): (r: seq<nat>)
    ensures forall n :: n in r <==> exists j :: 0 <= j < |es| && es[j].kind == 7 && es[j].name == n
  {
    if es == [] then [] else
      var r := Offers(es[1..]);
      assert forall j :: 0 < j < |es| ==> es[j] == es[1..][j - 1];
      if es[0].kind == EDGE_PROVIDES then [es[0].name] + r else r
  }

  ghost function View(st: seq<Status>, pk: seq<Package>, edges: seq<seq<Edge>>): (r: seq<Entry>)
    requires |edges| <= |pk|
    ensures |r| == |edges|
  {
    seq(|edges|, i requires 0 <= i < |edges| =>
      if pk[i].Nothing? then Missing else Present(Node(Offers(edges[i]), (kind: nat) => Satisfies(st, pk, i, kind))))
  }

  /** The search for the package that an edge asks for stops after `k` steps. */
  ghost predicate FirstStop(pk: seq<Package>, name: seq<Byte>, version: seq<Byte>, operator: nat, k: nat)
    requires |pk| > PACKAGE_HASH_PRIME
  {
    && Stops(pk[Way(name, PACKAGE_HASH_PRIME, k)], name, version, operator)
    && forall j :: 0 <= j < k ==> !Stops(pk[Way(name, PACKAGE_HASH_PRIME, j)], name, version, operator)
  }

  /** The slot where search_package_hashtable stops for an edge. */
  ghost function FindSlot(pk: seq<Package>, strings: seq<seq<Byte>>, e: Edge): nat
  {
    if |pk| <= PACKAGE_HASH_PRIME || e.name >= |strings| || e.version >= |strings| then 0
    else if k: nat :| FirstStop(pk, strings[e.name], strings[e.version], e.operator, k) then Way(strings[e.name], PACKAGE_HASH_PRIME, k)
    else 0
  }

  lemma FoundSlot(pk: seq<Package>, strings: seq<seq<Byte>>, e: Edge, k: nat)
    requires |pk| > PACKAGE_HASH_PRIME && e.name < |strings| && e.version < |strings|
    requires FirstStop(pk, strings[e.name], strings[e.version], e.operator, k)
    ensures FindSlot(pk, strings, e) == Way(strings[e.name], PACKAGE_HASH_PRIME, k)
  {
    hide Stops, Way;
    var l: nat :| FirstStop(pk, strings[e.name], strings[e.version], e.operator, l)
                  && FindSlot(pk, strings, e) == Way(strings[e.name], PACKAGE_HASH_PRIME, l);
  }

  /** The strings that dependency edges refer to are there. */
  ghost predicate Readable(strings: seq<seq<Byte>>, es: seq<Edge>)
  {
    forall i :: 0 <= i < |es| && Depends(es[i].kind) ==> EdgeReadable(strings, es[i])
  }

  ghost predicate EdgeReadable(strings: seq<seq<Byte>>, e: Edge)
  {
    e.name < |strings| && e.version < |strings| && Ascii(strings[e.version])
  }

  lemma ReadableHead(strings: seq<seq<Byte>>, es: seq<Edge>)
    requires Readable(strings, es)
    ensures es != [] && Depends(es[0].kind) ==> EdgeReadable(strings, es[0])
  {
  }

  lemma ReadableRest(strings: seq<seq<Byte>>, es: seq<Edge>, j: nat)
    requires Readable(strings, es) && j <= |es|
    ensures Readable(strings, es[j..])
  {
  }

  /** Statuses with their packages, the strings of the name table, and the edges of each package. */
  class Tables {
    const statuses: Statuses
    const strings: seq<seq<Byte>>
    const edges: seq<seq<Edge>>

    constructor (statuses: Statuses, strings: seq<seq<Byte>>, edges: seq<seq<Edge>>)
      ensures this.statuses == statuses && this.strings == strings && this.edges == edges
    {
      this.statuses, this.strings, this.edges := statuses, strings, edges;
    }

    /** Both hash tables have a free slot. */
    ghost predicate Valid()
      reads statuses.slots, statuses.packages.table
    {
      && statuses.Valid() && |edges| == PACKAGE_HASH_PRIME
      && (exists a :: 0 <= a < PACKAGE_HASH_PRIME && statuses.packages.table[a].Nothing?)
      && (exists a :: 0 <= a < STATUS_HASH_PRIME && statuses.slots[a].NoStatus?)
    }

    ghost function Table(): (r: seq<Entry>)
      requires Valid()
      reads statuses.slots, statuses.packages.table
      ensures |r| == PACKAGE_HASH_PRIME
    {
      View(statuses.slots[..], statuses.packages.table[..], edges)
    }

    ghost function Finder(): Edge -> nat
      reads statuses.packages.table
    {
      var pk := statuses.packages.table[..];
      (e: Edge) => FindSlot(pk, strings, e)
    }
  }

  // ---------- one edge ----------

  /** The status word of a package; `found` is false when it has no status. */
  method StatusWord(tb: Tables, i: nat, n: nat) returns (found: bool, word: seq<Byte>)
    requires tb.Valid() && i < PACKAGE_HASH_PRIME && tb.statuses.packages.table[i].Package?
    ensures forall w :: HasWord(tb.statuses.slots[..], tb.statuses.packages.table[..], i, n, w) <==> found && word == w
  {
    hide Word, Placed, Distinct, AllAscii;
    ghost var free :| 0 <= free < STATUS_HASH_PRIME && tb.statuses.slots[free].NoStatus?;
    ghost var st, pk := tb.statuses.slots[..], tb.statuses.packages.table[..];
    var a, k := tb.statuses.Search(tb.statuses.packages.table[i].name, free);
    found, word := false, [];
    if tb.statuses.slots[a].Status? {
      word := GetStatus(tb.statuses.slots[a].status, n);
      found := true;
      assert IsStatusOf(st, pk, i, a);
    }
    forall b | 0 <= b < STATUS_HASH_PRIME && IsStatusOf(st, pk, i, b) ensures found && b == a {
      assert tb.statuses.slots[b] == st[b];
    }
  }

  method PackageSatisfies(tb: Tables, i: nat, kind: nat) returns (ok: bool)
    requires tb.Valid() && i < PACKAGE_HASH_PRIME && tb.statuses.packages.table[i].Package?
    ensures ok == Satisfies(tb.statuses.slots[..], tb.statuses.packages.table[..], i, kind)
  {
    hide HasWord, Tables.Valid;
    ok := false;
    if kind == EDGE_PRE_DEPENDS {
      var found, word := StatusWord(tb, i, 3);
      ok := found && word == INSTALLED;
    } else if kind == EDGE_DEPENDS {
      var found, word := StatusWord(tb, i, 1);
      ok := found && word == INSTALL;
    }
  }

  /** search_for_provides: the next provider after `startAt`, or -1. */
  method SearchForProvides(tb: Tables, needle: nat, startAt: int) returns (i: int)
    requires tb.Valid() && -1 <= startAt < PACKAGE_HASH_PRIME
    ensures i == -1 || (startAt < i < PACKAGE_HASH_PRIME && Provider(tb.Table()[i], needle))
    ensures forall k :: startAt < k < (if i == -1 then PACKAGE_HASH_PRIME else i) ==> !Provider(tb.Table()[k], needle)
  {
    hide Satisfies, Offers, Statuses.Valid;
    i := startAt + 1;
    while i < PACKAGE_HASH_PRIME
      invariant startAt < i <= PACKAGE_HASH_PRIME && forall k :: startAt < k < i ==> !Provider(tb.Table()[k], needle)
    {
      PackageSlots(tb);
      if tb.statuses.packages.table[i].Package? {
        var offered := HasProvides(tb.edges[i], needle);
        if offered {
          return;
        }
      }
      i := i + 1;
    }
    i := -1;
  }

  lemma PackageSlots(tb: Tables)
    requires tb.Valid()
    ensures tb.statuses.packages.table.Length == PACKAGE_HASH_PRIME + 1
  {
  }

  /** The inner loop of search_for_provides. */
  method HasProvides(es: seq<Edge>, needle: nat) returns (offered: bool)
    ensures offered <==> needle in Offers(es)
  {
    var j := 0;
    while j < |es|
      invariant 0 <= j <= |es| && forall k :: 0 <= k < j ==> !(es[k].kind == EDGE_PROVIDES && es[k].name == needle)
    {
      if es[j].kind == EDGE_PROVIDES && es[j].name == needle {
        return true;
      }
      j := j + 1;
    }
    offered := false;
  }

  /** The package that search_package_hashtable finds for the edge. */
  method FindPackage(tb: Tables, e: Edge) returns (i: nat)
    requires tb.Valid() && EdgeReadable(tb.strings, e)
    ensures i == tb.Finder()(e) < PACKAGE_HASH_PRIME
  {
    hide Placed, Distinct, AllAscii, Linked, Way, Occupied, FindSlot;
    ghost var free :| 0 <= free < PACKAGE_HASH_PRIME && tb.statuses.packages.table[free].Nothing?;
    ghost var k;
    i, k := tb.statuses.packages.Find(tb.strings[e.name], tb.strings[e.version], e.operator, free);
    FoundSlot(tb.statuses.packages.table[..], tb.strings, e, k);
  }

  /** Whether the edge is satisfied; `result` in check_deps is the negation. */
  method CheckEdge(tb: Tables, e: Edge) returns (ok: bool)
    requires tb.Valid() && EdgeReadable(tb.strings, e)
    ensures ok == Satisfied(tb.Table(), tb.Finder(), e)
  {
    hide Satisfies, Offers, Statuses.Valid, FindSlot;
    PackageSlots(tb);
    ok := false;
    var i := FindPackage(tb, e);
    if tb.statuses.packages.table[i].Package? {
      ok := PackageSatisfies(tb, i, e.kind);
    }
    if !ok {
      var provider := -1;
      while true
        invariant -1 <= provider < PACKAGE_HASH_PRIME && !ok
        invariant forall k :: 0 <= k <= provider ==> !(Provider(tb.Table()[k], e.name) && Good(tb.Table()[k], e.kind))
        decreases PACKAGE_HASH_PRIME - provider
      {
        var next := SearchForProvides(tb, e.name, provider);
        if next <= -1 {
          return;
        }
        provider := next;
        ok := PackageSatisfies(tb, provider, e.kind);
        if ok {
          return;
        }
      }
    }
  }

  // ---------- the walk ----------

  datatype Outcome = Passes | Unsatisfied(at: nat) | Corrupt

  /** A dependency edge: a failed clause, or the place where the walk goes on. */
  method Dependency(tb: Tables, rest: seq<Edge>, ghost table: seq<Entry>, ghost find: Edge -> nat, ghost cs: seq<Clause>, ghost inside: bool,
                    number0: nat, root: RootEdge)
    returns (failed: bool, skip: nat, number: nat, ghost cs': seq<Clause>, ghost inside': bool)
    requires tb.Valid() && table == tb.Table() && find == tb.Finder() && Readable(tb.strings, rest)
    requires Walking(rest, table, find, [], cs, inside, number0, root) && rest != [] && Depends(rest[0].kind) && number0 >= 1
    ensures failed ==> !AllHold(table, find, cs)
    ensures !failed ==> skip < |rest| && Walking(rest[1 + skip..], table, find, [], cs', inside', number, root)
                        && (AllHold(table, find, cs) <==> AllHold(table, find, cs'))
  {
    hide Satisfied, Between, Inside, AllHold, NoneOf, Depends, Tables.Valid, Tables.Table, Tables.Finder, Readable;
    ReadableHead(tb.strings, rest);
    cs', inside', failed, skip, number := cs, inside, false, 0, number0;
    var ok := CheckEdge(tb, rest[0]);
    if inside {
      AlternativeDone(rest, table, find, cs, number, root, ok);
    } else {
      SingleDone(rest, table, find, cs, number, root, ok);
      NumberBetween(rest, [], cs, number, root);
    }
    number := number - 1;
    if !ok && number == 0 {
      failed := true;
      return;
    }
    if ok {
      cs', inside' := cs[1..], false;
      AnyRoot(rest[1 + number..], [], cs[1..], root);
    }
    if ok && number != 0 {
      skip := number;
      number := 0;
    }
  }

  /** The walk over the edges of one package passes exactly when every clause holds. */
  method CheckPackage(tb: Tables, edges: seq<Edge>, ghost table: seq<Entry>, ghost find: Edge -> nat, ghost clauses: seq<Clause>) returns (outcome: Outcome)
    requires tb.Valid() && table == tb.Table() && find == tb.Finder() && Readable(tb.strings, edges)
    requires ProperClauses(clauses) && edges == Layouts(clauses)
    ensures outcome.Passes? <==> AllHold(table, find, clauses)
    ensures !outcome.Corrupt?
  {
    hide *;
    var number: nat, root := 0, NoRoot;
    ghost var cs: seq<Clause>, plain: seq<Edge>, inside := clauses, [], false;
    var j: nat := 0;
    StartWalking(edges, clauses, table, find);
    assert edges[0..] == edges;
    while j < |edges|
      invariant j <= |edges| && Walking(edges[j..], table, find, plain, cs, inside, number, root)
      invariant AllHold(table, find, clauses) <==> AllHold(table, find, cs)
      decreases |edges| - j
    {
      var e := edges[j];
      Dependencies.Shift(edges, j, 1);
      NextEdge(edges[j..], table, find, plain, cs, inside, number, root);
      if IsOr(e.kind) {
        number := e.version;
        root := Root(e);
        plain, inside := [], true;
        j := j + 1;
        continue;
      }
      if number == 0 {
        number := 1;
        root := NoRoot;
      }
      if Depends(e.kind) {
        if root.Root? && e.kind != root.edge.kind - 1 {
          return Corrupt;
        }
        ReadableRest(tb.strings, edges, j);
        InsidePlain(edges[j..], table, find, plain, cs, inside, number, root);
        var failed, skip;
        failed, skip, number, cs, inside := Dependency(tb, edges[j..], table, find, cs, inside, number, root);
        if failed {
          return Unsatisfied(j);
        }
        Dependencies.Shift(edges, j, 1 + skip);
        plain := [];
        j := j + skip;
      } else {
        plain, cs := OtherStep(edges[j..], table, find, plain, cs, inside, number, root);
      }
      j := j + 1;
    }
    Finished(edges[j..], table, find, plain, cs, inside, number, root);
    outcome := Passes;
  }

  // ---------- all packages ----------

  /** The edges of every package are laid out from its clauses. */
  ghost predicate LaidOut(tb: Tables, clauses: seq<seq<Clause>>)
  {
    && |clauses| == |tb.edges|
    && forall i :: 0 <= i < |clauses| ==>
         ProperClauses(clauses[i]) && tb.edges[i] == Layouts(clauses[i]) && Readable(tb.strings, tb.edges[i])
  }

  /** A package that is to be installed has what it depends on. */
  ghost predicate PackageHolds(tb: Tables, i: nat, cs: seq<Clause>)
    requires tb.Valid() && i < PACKAGE_HASH_PRIME
    reads tb.statuses.slots, tb.statuses.packages.table
  {
    Satisfies(tb.statuses.slots[..], tb.statuses.packages.table[..], i, EDGE_DEPENDS) ==> AllHold(tb.Table(), tb.Finder(), cs)
  }

  /** All packages to be installed have what they depend on; otherwise the first one that has not is reported. */
  method CheckDependencies(tb: Tables, ghost clauses: seq<seq<Clause>>) returns (failed: nat, ok: bool)
    requires tb.Valid() && LaidOut(tb, clauses)
    ensures ok <==> forall i :: 0 <= i < PACKAGE_HASH_PRIME ==> PackageHolds(tb, i, clauses[i])
    ensures !ok ==> failed < PACKAGE_HASH_PRIME && !PackageHolds(tb, failed, clauses[failed])
  {
    hide AllHold, Layouts, ProperClauses, Readable, Statuses.Valid, HasWord, Tables.Table, Tables.Finder;
    failed := 0;
    PackageSlots(tb);
    while failed < PACKAGE_HASH_PRIME
      invariant failed <= PACKAGE_HASH_PRIME
      invariant forall i :: 0 <= i < failed ==> PackageHolds(tb, i, clauses[i])
    {
      if tb.statuses.packages.table[failed].Package? {
        var found, word := StatusWord(tb, failed, 1);
        if found && word == INSTALL {
          var outcome := CheckPackage(tb, tb.edges[failed], tb.Table(), tb.Finder(), clauses[failed]);
          if !outcome.Passes? {
            return failed, false;
          }
        }
      } else {
        NoWord(tb, failed);
      }
      failed := failed + 1;
    }
    ok := true;
  }

  lemma NoWord(tb: Tables, i: nat)
    requires i < tb.statuses.packages.table.Length && tb.statuses.packages.table[i].Nothing?
    ensures !HasWord(tb.statuses.slots[..], tb.statuses.packages.table[..], i, 1, INSTALL)
  {
  }
}
