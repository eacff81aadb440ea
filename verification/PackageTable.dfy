/** search_package_hashtable: packages are found by name and version condition. */
module PackageTable {
  import opened Arith
  import opened VersionOrder
  import opened VersionCompare
  import opened DoubleHashing
  import opened NameTable
  import opened VersionLaws

  /** A package node; names and versions are written out instead of their indices. */
  datatype Package = Nothing | Package(name: seq<Byte>, version: seq<Byte>)

  /** What the hash table knows of the packages: their names. */
  ghost function Keys(t: seq<Package>): (r: seq<Slot>)
    ensures |r| == |t| && forall a :: 0 <= a < |t| ==> r[a] == if t[a].Nothing? then Free else Used(t[a].name)
  {
    seq(|t|, a requires 0 <= a < |t| => if t[a].Nothing? then Free else Used(t[a].name))
  }

  ghost predicate AllAscii(t: seq<Package>)
  {
    forall a :: 0 <= a < |t| && t[a].Package? ==> Ascii(t[a].version)
  }

  /** The package has the name, and its version meets the condition. */
  ghost predicate Meets(q: Package, name: seq<Byte>, version: seq<Byte>, operator: nat)
  {
    q.Package? && q.name == name && (operator == VER_ANY || Test(VersionOf(q.version), VersionOf(version), operator))
  }

  /** The search ends at a free slot or at a package that meets the condition. */
  ghost predicate Stops(q: Package, name: seq<Byte>, version: seq<Byte>, operator: nat)
  {
    q.Nothing? || Meets(q, name, version, operator)
  }

  /** A package that meets the condition, or the free slot that shows that there is none. */
  method SearchPackage(table: array<Package>, name: seq<Byte>, version: seq<Byte>, operator: nat, ghost stop: nat)
    returns (address: nat, ghost k: nat)
    requires Placed(Keys(table[..]), PACKAGE_HASH_PRIME) && AllAscii(table[..]) && Ascii(version)
    requires stop < PACKAGE_HASH_PRIME < table.Length && Stops(table[stop], name, version, operator)
    ensures address < PACKAGE_HASH_PRIME && k < PACKAGE_HASH_PRIME
    ensures address == Way(name, PACKAGE_HASH_PRIME, k) && Occupied(Keys(table[..]), name, PACKAGE_HASH_PRIME, k)
    ensures forall j :: 0 <= j < k ==> !Stops(table[Way(name, PACKAGE_HASH_PRIME, j)], name, version, operator)
    ensures table[address].Package? ==> Meets(table[address], name, version, operator)
    ensures table[address].Nothing? ==> forall a :: 0 <= a < PACKAGE_HASH_PRIME ==> !Meets(table[a], name, version, operator)
  {
    hide Way, Start, Step, Prime, Placed, VersionOf, Test;
    ghost var p, t := PACKAGE_HASH_PRIME, Keys(table[..]);
    PackagePrime();
    TableSize(t, p);
    ghost var last := WayReaches(name, p, stop);
    FirstWay(name, p);
    var decrement;
    address, decrement := MakeHash(name, PACKAGE_HASH_PRIME);
    k := 0;
    while table[address].Package?
      invariant 0 <= k <= last && address == Way(name, p, k) && Occupied(t, name, p, k)
      invariant forall j :: 0 <= j < k ==> !Stops(table[Way(name, p, j)], name, version, operator)
      decreases last - k
    {
      if table[address].name == name {
        if operator == VER_ANY {
          return;
        }
        var ok := TestVersion(table[address].version, version, operator);
        if ok {
          return;
        }
      }
      NextWay(name, p, k);
      var next: int := address - decrement;
      if next < 0 {
        next := next + PACKAGE_HASH_PRIME;
      }
      address := next;
      k := k + 1;
    }
    AllPassed(t, name, p, k);
    forall a | 0 <= a < p ensures !Meets(table[a], name, version, operator) {
      if t[a] == Used(name) {
        assert Before(name, p, k, a);
      }
    }
  }

  /** A package with a smaller number in its version does not meet a larger one from below, and meets it from above. */
  lemma MeetsByNumber(name: seq<Byte>, v: seq<Byte>, a: seq<Byte>, b: seq<Byte>, x: seq<Byte>, y: seq<Byte>)
    requires AllDigits(a) && AllDigits(b) && a != [] && b != [] && Value(a) < Value(b)
    requires !IsDigit(At(x, 0)) && !IsDigit(At(y, 0)) && (v != [] ==> !IsDigit(v[|v| - 1]))
    requires forall c :: c in {':' as int, '-' as int} ==> Without(v + (a + x), c) && Without(v + (b + y), c)
    ensures var earlier, later := v + (a + x), v + (b + y);
            && !Meets(Package(name, earlier), name, later, VER_MORE_EQUAL) && Meets(Package(name, earlier), name, later, VER_LESS)
            && Meets(Package(name, earlier), name, later, VER_ANY) && !Meets(Package(name, earlier), name, later, VER_EQUAL)
  {
    hide VersionOf, Value, CompareVersions;
    NumberIsLess(v, a, b, x, y);
    OperatorsMean(VersionOf(v + (a + x)), VersionOf(v + (b + y)));
  }

  // ---------- storing packages ----------

  /** Versions that compare as equal; their strings may differ. */
  ghost predicate Same(v: seq<Byte>, w: seq<Byte>)
  {
    Test(VersionOf(v), VersionOf(w), VER_EQUAL)
  }

  lemma SameIsEquivalence(u: seq<Byte>, v: seq<Byte>, w: seq<Byte>)
    ensures Same(u, v) ==> Same(v, u)
    ensures Same(u, v) && Same(v, w) ==> Same(u, w)
  {
    hide VersionOf, Test;
    OperatorsConsistent(VersionOf(u), VersionOf(v), VersionOf(w));
    OperatorsConsistent(VersionOf(v), VersionOf(u), VersionOf(w));
  }

  ghost predicate Twins(q: Package, r: Package)
  {
    q.Package? && r.Package? && q.name == r.name && Same(q.version, r.version)
  }

  /** No package is stored twice in the same version. */
  ghost predicate NoTwins(t: seq<Package>)
  {
    forall a, b :: 0 <= a < |t| && 0 <= b < |t| && a < PACKAGE_HASH_PRIME && b < PACKAGE_HASH_PRIME && a != b ==> !Twins(t[a], t[b])
  }

  lemma MeetingTwins(q: Package, r: Package, name: seq<Byte>, version: seq<Byte>)
    requires Meets(q, name, version, VER_EQUAL) && Meets(r, name, version, VER_EQUAL)
    ensures Twins(q, r)
  {
    hide VersionOf, Test;
    SameIsEquivalence(q.version, version, r.version);
    SameIsEquivalence(r.version, version, version);
  }

  /** A slot takes `q`, which replaces an equal package or has no equal anywhere. */
  lemma TwinsKept(t: seq<Package>, n: nat, q: Package)
    requires NoTwins(t) && n < |t| && n < PACKAGE_HASH_PRIME && q.Package?
    requires if t[n].Package? then Twins(t[n], q) else forall a :: 0 <= a < |t| && a < PACKAGE_HASH_PRIME ==> !Twins(t[a], q)
    ensures NoTwins(t[n := q])
  {
    hide Same;
    forall a | 0 <= a < |t| && a < PACKAGE_HASH_PRIME && a != n ensures !Twins(t[a], q) && !Twins(q, t[a]) {
      if t[a].Package? {
        SameIsEquivalence(q.version, t[a].version, q.version);
        SameIsEquivalence(t[a].version, q.version, q.version);
        if t[n].Package? {
          SameIsEquivalence(t[n].version, q.version, t[a].version);
          assert !Twins(t[n], t[a]);
        }
      }
    }
  }

  /** A free slot that takes `q` keeps packages unique exactly when `q` has no equal. */
  lemma FreshTwins(t: seq<Package>, n: nat, q: Package)
    requires NoTwins(t) && |t| > PACKAGE_HASH_PRIME > n && t[n].Nothing? && q.Package?
    ensures NoTwins(t[n := q]) <==> forall a :: 0 <= a < PACKAGE_HASH_PRIME ==> !Twins(t[a], q)
  {
    hide Same;
    if forall a :: 0 <= a < PACKAGE_HASH_PRIME ==> !Twins(t[a], q) {
      TwinsKept(t, n, q);
    } else {
      var a :| 0 <= a < PACKAGE_HASH_PRIME && Twins(t[a], q);
      assert Twins(t[n := q][a], t[n := q][n]);
    }
  }

  /** With these operators an equal version always meets the condition, so what is added is unique. */
  lemma TwinsMeet(r: Package, q: Package, operator: nat)
    requires Twins(r, q)
    ensures Meets(r, q.name, q.version, operator) <==> operator in {VER_ANY, VER_EQUAL, VER_LESS_EQUAL, VER_MORE_EQUAL}
  {
    hide VersionOf;
  }

  /** A package equals itself, but does not meet its own version with a strict comparison. */
  lemma StrictTwin(q: Package)
    requires q.Package?
    ensures Twins(q, q) && !Meets(q, q.name, q.version, VER_LESS) && !Meets(q, q.name, q.version, VER_MORE)
  {
    hide VersionOf;
    OneVersion(q.version);
  }

  lemma OneVersion(version: seq<Byte>)
    ensures Same(version, version)
    ensures !Test(VersionOf(version), VersionOf(version), VER_LESS) && !Test(VersionOf(version), VersionOf(version), VER_MORE)
  {
    hide VersionOf;
    var v := VersionOf(version);
    VersionsPreordered(v, v, v);
  }

  lemma KeysKept(t: seq<Package>, n: nat, q: Package, k: nat)
    requires Placed(Keys(t), PACKAGE_HASH_PRIME) && n < |t| && q.Package? && k < PACKAGE_HASH_PRIME
    requires n == Way(q.name, PACKAGE_HASH_PRIME, k) && Occupied(Keys(t), q.name, PACKAGE_HASH_PRIME, k)
    requires t[n].Package? ==> t[n].name == q.name
    ensures Placed(Keys(t[n := q]), PACKAGE_HASH_PRIME)
  {
    hide Way, Placed, Occupied;
    assert Keys(t[n := q]) == Keys(t)[n := Used(q.name)];
    if t[n].Nothing? {
      StoreKeeps(Keys(t), q.name, PACKAGE_HASH_PRIME, k);
    } else {
      assert Keys(t[n := q]) == Keys(t);
    }
  }

  class Packages {
    const table: array<Package>

    ghost predicate Valid()
      reads table
    {
      && table.Length == PACKAGE_HASH_PRIME + 1
      && Placed(Keys(table[..]), PACKAGE_HASH_PRIME) && AllAscii(table[..])
    }

    constructor ()
      ensures Valid() && fresh(table) && NoTwins(table[..]) && forall a :: 0 <= a < table.Length ==> table[a].Nothing?
    {
      table := new Package[PACKAGE_HASH_PRIME + 1](i => Nothing);
    }

    /** Every stored package is found again under its own name and version, and nothing else is. */
    method Find(name: seq<Byte>, version: seq<Byte>, operator: nat, ghost stop: nat) returns (address: nat, ghost k: nat)
      requires Valid() && Ascii(version) && stop < PACKAGE_HASH_PRIME && Stops(table[stop], name, version, operator)
      ensures address < PACKAGE_HASH_PRIME
      ensures k < PACKAGE_HASH_PRIME && address == Way(name, PACKAGE_HASH_PRIME, k)
      ensures Occupied(Keys(table[..]), name, PACKAGE_HASH_PRIME, k)
      ensures forall j :: 0 <= j < k ==> !Stops(table[Way(name, PACKAGE_HASH_PRIME, j)], name, version, operator)
      ensures table[address].Package? ==> Meets(table[address], name, version, operator)
      ensures table[address].Nothing? ==> forall a :: 0 <= a < PACKAGE_HASH_PRIME ==> !Meets(table[a], name, version, operator)
      ensures NoTwins(table[..]) && operator == VER_EQUAL ==>
                forall a :: 0 <= a < PACKAGE_HASH_PRIME && Meets(table[a], name, version, operator) ==> a == address
    {
      hide Way, Placed, Occupied, VersionOf, Test;
      address, k := SearchPackage(table, name, version, operator, stop);
      if operator == VER_EQUAL {
        forall a | 0 <= a < PACKAGE_HASH_PRIME && Meets(table[a], name, version, operator) ensures Twins(table[address], table[a]) {
          MeetingTwins(table[address], table[a], name, version);
        }
      }
      assert forall a :: 0 <= a < PACKAGE_HASH_PRIME ==> table[a] == table[..][a];
    }

    /** The end of fill_package_struct: the package replaces its equal, or takes the free slot of its way. */
    method Store(q: Package, ghost stop: nat) returns (address: nat)
      requires Valid() && q.Package? && Ascii(q.version)
      requires stop < PACKAGE_HASH_PRIME && Stops(table[stop], q.name, q.version, VER_EQUAL)
      modifies table
      ensures Valid() && address < PACKAGE_HASH_PRIME && table[..] == old(table[..])[address := q]
      ensures if old(table[address]).Package? then Meets(old(table[address]), q.name, q.version, VER_EQUAL)
              else forall a :: 0 <= a < PACKAGE_HASH_PRIME ==> !Meets(old(table[a]), q.name, q.version, VER_EQUAL)
      ensures old(NoTwins(table[..])) ==> NoTwins(table[..])
    {
      hide Way, Placed, Occupied, VersionOf, Test;
      ghost var t, k := table[..], 0;
      address, k := SearchPackage(table, q.name, q.version, VER_EQUAL, stop);
      KeysKept(t, address, q, k);
      if NoTwins(t) {
        TwinsKept(t, address, q);
      }
      table[address] := q;
      assert table[..] == t[address := q];
    }

    /** In check_conflicts: a package that is only provided gets a node of its own, unless one meets the condition already. */
    method AddProvided(q: Package, operator: nat, ghost stop: nat) returns (address: nat)
      requires Valid() && q.Package? && Ascii(q.version)
      requires stop < PACKAGE_HASH_PRIME && Stops(table[stop], q.name, q.version, operator)
      modifies table
      ensures Valid() && address < PACKAGE_HASH_PRIME
      ensures if exists a :: 0 <= a < PACKAGE_HASH_PRIME && Meets(old(table[a]), q.name, q.version, operator)
              then Meets(table[address], q.name, q.version, operator) && table[..] == old(table[..])
              else old(table[address]).Nothing? && table[..] == old(table[..])[address := q]
      ensures old(NoTwins(table[..])) ==>
                (NoTwins(table[..]) <==> (exists a :: 0 <= a < PACKAGE_HASH_PRIME && Meets(old(table[a]), q.name, q.version, operator))
                                         || forall a :: 0 <= a < PACKAGE_HASH_PRIME ==> !Twins(old(table[a]), q))
    {
      hide Way, Placed, Occupied, VersionOf, Test;
      ghost var t, k := table[..], 0;
      address, k := SearchPackage(table, q.name, q.version, operator, stop);
      if table[address].Nothing? {
        KeysKept(t, address, q, k);
        if NoTwins(t) {
          FreshTwins(t, address, q);
        }
        table[address] := q;
        assert table[..] == t[address := q];
      }
    }
  }

  /** A package that provides its own name and version with `<<` is stored a second time. */
  method StoredTwice(q: Package) returns (p: Packages)
    requires q.Package? && Ascii(q.version)
    ensures p.Valid() && !NoTwins(p.table[..])
  {
    hide Placed, Test, VersionOf;
    p := new Packages();
    var a := p.Store(q, 0);
    StrictTwin(q);
    ghost var free := if a == 0 then 1 else 0;
    assert forall i :: 0 <= i < PACKAGE_HASH_PRIME ==> p.table[i] == if i == a then q else Nothing;
    ghost var t := p.table[..];
    var b := p.AddProvided(q, VER_LESS, free);
    assert p.table[..] == t[b := q] && a != b;
    assert Twins(p.table[..][a], p.table[..][b]);
  }
}
