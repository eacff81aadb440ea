/** search_name_hashtable: strings are interned in an open-addressed table with double hashing. */
module NameTable {
  import opened Arith
  import opened VersionCompare
  import opened DoubleHashing

  datatype Slot = Free | Used(key: seq<Byte>)

  const ULONG: nat := 0x1_0000_0000_0000_0000

  // ---------- make_hash ----------

  /**
   The hash of the first `n` characters; the first one is read even from an empty string.
   Characters count as 0 .. 255 and `unsigned long` has 64 bits.
   */
  function HashNum(key: seq<Byte>, n: nat): (r: nat)
    requires 1 <= n
    ensures r < ULONG
  {
    if n == 1 then At(key, 0)
    else (HashNum(key, n - 1) + (At(key, n - 1) + At(key, n - 2)) * Pow2(At(key, n - 1) * (n - 1) % 24)) % ULONG
  }

  /** For ASCII characters the sum that make_hash shifts as an `int` stays in range. */
  lemma ShiftFits(a: Byte, b: Byte, n: nat)
    requires a < 128 && b < 128 && n < 24
    ensures (a + b) * Pow2(n) < 0x8000_0000
  {
    hide Pow2;
    Pow2Mono(n, 23);
    LargestShift();
    MulMono(a + b, Pow2(n), 8388608);
  }

  lemma LargestShift()
    ensures Pow2(23) == 8388608
  {
    assert Pow2(8) == 256 && Pow2(16) == 65536;
  }

  /** For others it may not: a character 131 at place 13. */
  lemma ShiftOverflows()
    ensures 131 * 13 % 24 == 23 && (131 + 131) * Pow2(23) >= 0x8000_0000
  {
    LargestShift();
  }

  function Hash(key: seq<Byte>): (r: nat)
    ensures r < ULONG
  {
    HashNum(key, if key == [] then 1 else |key|)
  }

  function Start(key: seq<Byte>, p: nat): nat
    requires p > 1
  {
    Hash(key) % 0x1_0000_0000 % p
  }

  function Step(key: seq<Byte>, p: nat): (r: nat)
    requires p > 1
    ensures 0 < r < p
  {
    1 + Hash(key) % (p - 1)
  }

  method MakeHash(key: seq<Byte>, p: nat) returns (start: nat, decrement: nat)
    requires p > 1
    ensures start == Start(key, p) && decrement == Step(key, p)
  {
    var hashNum: nat := At(key, 0);
    var i := 1;
    while i < |key|
      invariant 1 <= i && (i <= |key| || i == 1) && hashNum == HashNum(key, i)
    {
      hashNum := (hashNum + (key[i] + key[i - 1]) * Pow2(key[i] * i % 24)) % ULONG;
      i := i + 1;
    }
    start := hashNum % 0x1_0000_0000 % p;
    decrement := 1 + hashNum % (p - 1);
  }

  // ---------- the state of the table ----------

  /** Slot number `k` on the way of `key`. */
  function Way(key: seq<Byte>, p: nat, k: nat): (a: nat)
    requires p > 1
    ensures a < p
  {
    Probe(Start(key, p), Step(key, p), p, k)
  }

  ghost predicate Occupied(t: seq<Slot>, key: seq<Byte>, p: nat, k: nat)
    requires |t| >= p > 1
  {
    forall j :: 0 <= j < k ==> t[Way(key, p, j)].Used?
  }

  /** The slot `a` is on the way of `key`, after `k` slots that are all in use. */
  ghost predicate OnWay(t: seq<Slot>, key: seq<Byte>, p: nat, k: nat, a: nat)
    requires |t| >= p > 1
  {
    k < p && Way(key, p, k) == a && Occupied(t, key, p, k)
  }

  /** Every stored key can be found on its way. */
  ghost predicate Placed(t: seq<Slot>, p: nat)
  {
    && |t| > p > 1
    && forall a :: 0 <= a < p && t[a].Used? ==> exists k: nat :: OnWay(t, t[a].key, p, k, a)
  }

  /** No key is stored twice. */
  ghost predicate Distinct(t: seq<Slot>, p: nat)
    requires |t| >= p
  {
    forall a, b :: 0 <= a < p && 0 <= b < p && t[a].Used? && t[b].Used? && t[a].key == t[b].key ==> a == b
  }

  /** The slot `a` comes before slot `k` on the way of `key`. */
  ghost predicate Before(key: seq<Byte>, p: nat, k: nat, a: nat)
    requires p > 1
  {
    exists l: nat :: l < k && Way(key, p, l) == a
  }

  lemma BeforeFree(t: seq<Slot>, key: seq<Byte>, p: nat, k: nat, l: nat, a: nat)
    requires |t| >= p > 1 && a < p && t[a].Used? && OnWay(t, t[a].key, p, l, a)
    requires Occupied(t, key, p, k) && t[Way(key, p, k)].Free?
    ensures t[a].key == key ==> l < k && Way(key, p, l) == a
  {
    hide Way;
  }

  /** When the way of `key` has led to a free slot, every slot with `key` has been passed. */
  lemma AllPassed(t: seq<Slot>, key: seq<Byte>, p: nat, k: nat)
    requires Placed(t, p) && Occupied(t, key, p, k) && t[Way(key, p, k)].Free?
    ensures forall a :: 0 <= a < p && t[a] == Used(key) ==> Before(key, p, k, a)
  {
    hide Way;
    forall a | 0 <= a < p && t[a] == Used(key) ensures Before(key, p, k, a) {
      var l: nat :| OnWay(t, t[a].key, p, l, a);
      BeforeFree(t, key, p, k, l, a);
    }
  }

  /** Using the free slot at the end of its way for `key` keeps everything in its place. */
  lemma StoreKeeps(t: seq<Slot>, key: seq<Byte>, p: nat, k: nat)
    requires Placed(t, p) && k < p && Occupied(t, key, p, k) && t[Way(key, p, k)].Free?
    ensures Placed(t[Way(key, p, k) := Used(key)], p)
  {
    hide Way;
    var n := Way(key, p, k);
    var u := t[n := Used(key)];
    forall a | 0 <= a < p && u[a].Used? ensures exists l: nat :: OnWay(u, u[a].key, p, l, a) {
      if a == n {
        assert OnWay(u, key, p, k, n);
      } else {
        var l: nat :| OnWay(t, t[a].key, p, l, a);
        assert OnWay(u, u[a].key, p, l, a);
      }
    }
  }

  lemma FirstWay(key: seq<Byte>, p: nat)
    requires p > 1
    ensures Way(key, p, 0) == Start(key, p)
  {
    hide Hash;
    ProbeFirst(Start(key, p), Step(key, p), p);
  }

  /** The free slot is found on the way of any key. */
  lemma WayReaches(key: seq<Byte>, p: nat, free: nat) returns (k: nat)
    requires Prime(p) && free < p
    ensures k < p && Way(key, p, k) == free
  {
    hide Hash;
    k := ProbeReaches(Start(key, p), Step(key, p), p, free);
  }

  lemma NextWay(key: seq<Byte>, p: nat, k: nat)
    requires p > 1
    ensures var a, d := Way(key, p, k), Step(key, p); Way(key, p, k + 1) == if a - d < 0 then a - d + p else a - d
  {
    hide Hash;
    ProbeNext(Start(key, p), Step(key, p), p, k);
  }

  lemma TableSize(t: seq<Slot>, p: nat)
    requires Placed(t, p)
    ensures |t| > p > 1
  {
  }

  /**
   A search on the way of `key` ends if and only if some slot of the table ends it: a free
   one, or one that holds what is searched for.  The table may be full.
   */
  lemma SearchEnds(key: seq<Byte>, p: nat, stops: nat -> bool)
    requires Prime(p)
    ensures p > 1 && ((exists k: nat :: stops(Way(key, p, k))) <==> (exists a: nat :: a < p && stops(a)))
  {
    hide Way, Prime;
    PrimeSize(p);
    if a: nat :| a < p && stops(a) {
      var k := WayReaches(key, p, a);
      assert stops(Way(key, p, k));
    }
  }

  lemma PrimeSize(p: nat)
    requires Prime(p)
    ensures p > 1
  {
  }

  /** The loop of search_name_hashtable: the slot of `key`, or the free slot where it belongs; `stop` is such a slot. */
  method FindKey(slots: array<Slot>, p: nat, key: seq<Byte>, ghost stop: nat) returns (address: nat, ghost k: nat)
    requires Placed(slots[..], p) && Prime(p) && p < slots.Length && stop < p && slots[stop] in {Free, Used(key)}
    ensures address < p && (slots[address].Used? ==> slots[address].key == key)
    ensures k < p && address == Way(key, p, k) && Occupied(slots[..], key, p, k)
    ensures slots[address].Free? ==> forall a :: 0 <= a < p ==> slots[a] != Used(key)
  {
    hide Way, Start, Step, Prime, Placed;
    ghost var t := slots[..];
    TableSize(t, p);
    ghost var last := WayReaches(key, p, stop);
    FirstWay(key, p);
    var decrement;
    address, decrement := MakeHash(key, p);
    k := 0;
    while slots[address].Used?
      invariant 0 <= k <= last && address == Way(key, p, k) && Occupied(t, key, p, k)
      invariant forall j :: 0 <= j < k ==> t[Way(key, p, j)] != Used(key)
      decreases last - k
    {
      if slots[address].key == key {
        return;
      }
      NextWay(key, p, k);
      var next: int := address - decrement;
      if next < 0 {
        next := next + p;
      }
      address := next;
      k := k + 1;
    }
    AllPassed(t, key, p, k);
    assert forall a :: 0 <= a < p ==> slots[a] == t[a];
  }

  class Names {
    const slots: array<Slot>

    ghost predicate Valid()
      reads slots
    {
      Placed(slots[..], NAME_HASH_PRIME) && Distinct(slots[..], NAME_HASH_PRIME)
    }

    constructor ()
      ensures Valid() && fresh(slots) && forall a :: 0 <= a < NAME_HASH_PRIME ==> slots[a].Free?
    {
      slots := new Slot[NAME_HASH_PRIME + 1](i => Free);
    }

    /**
     The index of `key`, which is stored if it was not.  Stored strings keep their indices,
     so equal indices mean equal strings.
     */
    method Search(key: seq<Byte>, ghost stop: nat) returns (address: nat)
      requires Valid() && stop < NAME_HASH_PRIME && slots[stop] in {Free, Used(key)}
      modifies slots
      ensures Valid() && address < NAME_HASH_PRIME && slots[address] == Used(key)
      ensures forall a :: 0 <= a < NAME_HASH_PRIME && old(slots[a]).Used? ==> slots[a] == old(slots[a])
      ensures forall a :: 0 <= a < NAME_HASH_PRIME && a != address ==> slots[a] == old(slots[a])
      ensures (exists a :: 0 <= a < NAME_HASH_PRIME && old(slots[a]) == Used(key)) <==> old(slots[address]).Used?
    {
      hide Way, Occupied, Placed, Prime;
      ghost var t := slots[..];
      TableSize(t, NAME_HASH_PRIME);
      NamePrime();
      ghost var k;
      address, k := FindKey(slots, NAME_HASH_PRIME, key, stop);
      if slots[address].Free? {
        StoreKeeps(t, key, NAME_HASH_PRIME, k);
        slots[address] := Used(key);
        assert slots[..] == t[address := Used(key)];
      }
    }
  }
}
