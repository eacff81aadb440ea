/** search_status_hashtable and index_status_file: the states of packages, found by the name of the package. */
module StatusTable {
  import opened Arith
  import opened VersionOrder
  import opened DoubleHashing
  import opened NameTable
  import opened VersionCompare
  import opened PackageTable

  /** A status node: the number of a package, and its line of three words. */
  datatype Status = NoStatus | Status(package: nat, status: seq<Byte>)

  /** The slots are keyed by the names of the packages they refer to. */
  ghost function StatusKeys(st: seq<Status>, pk: seq<Package>): (r: seq<Slot>)
    requires Linked(st, pk)
    ensures |r| == |st|
    ensures forall a :: 0 <= a < |st| ==> r[a] == if st[a].NoStatus? then Free else Used(pk[st[a].package].name)
  {
    seq(|st|, a requires 0 <= a < |st| => if st[a].NoStatus? then Free else Used(pk[st[a].package].name))
  }

  /** Every status refers to a package. */
  ghost predicate Linked(st: seq<Status>, pk: seq<Package>)
  {
    forall a :: 0 <= a < |st| && st[a].Status? ==> st[a].package < |pk| && pk[st[a].package].Package?
  }

  ghost predicate Indexed(st: seq<Status>, pk: seq<Package>)
  {
    && |st| == STATUS_HASH_PRIME + 1 && Linked(st, pk)
    && Placed(StatusKeys(st, pk), STATUS_HASH_PRIME) && Distinct(StatusKeys(st, pk), STATUS_HASH_PRIME)
  }

  /** Packages keep their names when others are stored or they are replaced by an equal one. */
  ghost predicate NamesKept(pk: seq<Package>, pk': seq<Package>)
  {
    |pk| == |pk'| && forall a :: 0 <= a < |pk| && pk[a].Package? ==> pk'[a].Package? && pk'[a].name == pk[a].name
  }

  lemma IndexKept(st: seq<Status>, pk: seq<Package>, pk': seq<Package>)
    requires Indexed(st, pk) && NamesKept(pk, pk')
    ensures Indexed(st, pk')
  {
    hide Placed, Distinct;
    assert StatusKeys(st, pk') == StatusKeys(st, pk);
  }

  lemma StatusStored(st: seq<Status>, pk: seq<Package>, n: nat, x: Status, k: nat)
    requires Indexed(st, pk) && x.Status? && x.package < |pk| && pk[x.package].Package? && n < STATUS_HASH_PRIME
    requires k < STATUS_HASH_PRIME && n == Way(pk[x.package].name, STATUS_HASH_PRIME, k)
    requires Occupied(StatusKeys(st, pk), pk[x.package].name, STATUS_HASH_PRIME, k)
    requires if st[n].Status? then pk[st[n].package].name == pk[x.package].name
             else forall a :: 0 <= a < STATUS_HASH_PRIME ==> StatusKeys(st, pk)[a] != Used(pk[x.package].name)
    ensures Indexed(st[n := x], pk)
  {
    hide Way, Placed, Occupied;
    var name, keys := pk[x.package].name, StatusKeys(st, pk);
    assert StatusKeys(st[n := x], pk) == keys[n := Used(name)];
    if st[n].NoStatus? {
      StoreKeeps(keys, name, STATUS_HASH_PRIME, k);
    } else {
      assert keys[n := Used(name)] == keys;
    }
  }

  class Statuses {
    const slots: array<Status>
    const packages: Packages

    ghost predicate Valid()
      reads slots, packages.table
    {
      packages.Valid() && Indexed(slots[..], packages.table[..])
    }

    /** The search for `key` ends at this slot. */
    ghost predicate Stops(a: nat, key: seq<Byte>)
      requires Valid() && a < STATUS_HASH_PRIME
      reads slots, packages.table
    {
      slots[a].Status? ==> packages.table[slots[a].package].name == key
    }

    constructor (packages: Packages)
      requires packages.Valid()
      ensures Valid() && fresh(slots) && this.packages == packages
      ensures forall a :: 0 <= a < slots.Length ==> slots[a].NoStatus?
    {
      slots := new Status[STATUS_HASH_PRIME + 1](i => NoStatus);
      this.packages := packages;
    }

    /** The status of the package called `key`, or the free slot that shows that it has none. */
    method Search(key: seq<Byte>, ghost stop: nat) returns (address: nat, ghost k: nat)
      requires Valid() && stop < STATUS_HASH_PRIME && Stops(stop, key)
      ensures address < STATUS_HASH_PRIME && k < STATUS_HASH_PRIME && address == Way(key, STATUS_HASH_PRIME, k)
      ensures Occupied(StatusKeys(slots[..], packages.table[..]), key, STATUS_HASH_PRIME, k)
      ensures slots[address].Status? ==> packages.table[slots[address].package].name == key
      ensures forall a :: 0 <= a < STATUS_HASH_PRIME && slots[a].Status? && packages.table[slots[a].package].name == key ==> a == address
    {
      hide Way, Start, Step, Prime, Placed, Packages.Valid;
      ghost var p, t := STATUS_HASH_PRIME, StatusKeys(slots[..], packages.table[..]);
      StatusPrime();
      ghost var last := WayReaches(key, p, stop);
      FirstWay(key, p);
      var decrement;
      address, decrement := MakeHash(key, STATUS_HASH_PRIME);
      k := 0;
      while slots[address].Status?
        invariant 0 <= k <= last && address == Way(key, p, k) && Occupied(t, key, p, k)
        invariant forall j :: 0 <= j < k ==> t[Way(key, p, j)] != Used(key)
        decreases last - k
      {
        if packages.table[slots[address].package].name == key {
          assert t[address] == Used(key);
          return;
        }
        NextWay(key, p, k);
        var next: int := address - decrement;
        if next < 0 {
          next := next + STATUS_HASH_PRIME;
        }
        address := next;
        k := k + 1;
      }
      AllPassed(t, key, p, k);
      assert forall a :: 0 <= a < STATUS_HASH_PRIME ==> t[a] != Used(key);
    }

    /** The status replaces that of the same name, or takes the free slot of its way. */
    method Store(package: nat, status: seq<Byte>, ghost stop: nat) returns (address: nat)
      requires Valid() && package < PACKAGE_HASH_PRIME && packages.table[package].Package?
      requires stop < STATUS_HASH_PRIME && Stops(stop, packages.table[package].name)
      modifies slots
      ensures Valid() && address < STATUS_HASH_PRIME && slots[..] == old(slots[..])[address := Status(package, status)]
      ensures old(slots[address]).Status? ==> packages.table[old(slots[address]).package].name == packages.table[package].name
    {
      hide Way, Placed, Occupied, Distinct, Indexed;
      ghost var st, k := slots[..], 0;
      IndexedSize(st, packages.table[..]);
      address, k := Search(packages.table[package].name, stop);
      StatusStored(st, packages.table[..], address, Status(package, status), k);
      slots[address] := Status(package, status);
      assert slots[..] == st[address := Status(package, status)];
    }

    /** One paragraph of the status file: the package, and then its status. */
    method Index(q: Package, status: seq<Byte>, ghost stopPackage: nat, ghost stopStatus: nat) returns (package: nat, address: nat)
      requires Valid() && q.Package? && Ascii(q.version)
      requires stopPackage < PACKAGE_HASH_PRIME && PackageTable.Stops(packages.table[stopPackage], q.name, q.version, VER_EQUAL)
      requires stopStatus < STATUS_HASH_PRIME && Stops(stopStatus, q.name)
      modifies packages.table, slots
      ensures Valid() && package < PACKAGE_HASH_PRIME && packages.table[..] == old(packages.table[..])[package := q]
      ensures address < STATUS_HASH_PRIME && slots[..] == old(slots[..])[address := Status(package, status)]
      ensures NamesKept(old(packages.table[..]), packages.table[..])
      ensures old(NoTwins(packages.table[..])) ==> NoTwins(packages.table[..])
    {
      hide Placed, NoTwins, Indexed, NamesKept, Linked, AllAscii;
      ghost var st, pk := slots[..], packages.table[..];
      IndexedSize(st, pk);
      package := packages.Store(q, stopPackage);
      NameKept(pk, package, q);
      IndexKept(slots[..], pk, packages.table[..]);
      address := Store(package, status, stopStatus);
    }
  }

  lemma NameKept(pk: seq<Package>, n: nat, q: Package)
    requires n < |pk| && q.Package? && (pk[n].Package? ==> pk[n].name == q.name)
    ensures NamesKept(pk, pk[n := q])
  {
  }

  lemma IndexedSize(st: seq<Status>, pk: seq<Package>)
    requires Indexed(st, pk)
    ensures |st| == STATUS_HASH_PRIME + 1 && Linked(st, pk)
  {
  }
}
