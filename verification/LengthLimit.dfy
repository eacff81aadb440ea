/** Second part of gen_bitlen: make room in an overfull code space and redistribute the lengths. */
module LengthLimit {
  import opened Arith
  import opened Canonical
  import opened HuffmanCost
  import opened HuffmanTree
  import opened CodeSpace

  // ---------- a length-limited code is never better than the greedy one ----------

  ghost function Items(freq: seq<nat>, lens: Lengths): seq<Item>
    requires |freq| == |lens|
  {
    if freq == [] then []
    else
      var e := |freq| - 1;
      Items(freq[..e], lens[..e]) + (if lens[e] > 0 then [Item(freq[e], lens[e])] else [])
  }

  lemma LiveSnoc(freq: seq<nat>, x: nat)
    ensures LiveWeights(freq + [x]) == if x > 0 then LiveWeights(freq) + multiset{x} else LiveWeights(freq)
  {
    assert multiset(freq + [x]) == multiset(freq) + multiset{x};
  }

  lemma {:induction false} ItemsSums(freq: seq<nat>, lens: Lengths, m: nat)
    requires |freq| == |lens| && Bounded(lens, m)
    requires forall i :: 0 <= i < |freq| ==> (lens[i] > 0 <==> freq[i] > 0)
    ensures Below(Items(freq, lens), m)
    ensures Weights(Items(freq, lens)) == LiveWeights(freq)
    ensures Space(Items(freq, lens), m) == Kraft(lens, m)
    ensures Cost(Items(freq, lens)) == WeightedLength(freq, lens)
  {
    hide LiveWeights, Pow2, Weights, Cost, Space, Below, WeightedLength, Kraft;
    if freq == [] {
      ItemsEmpty(m);
      assert lens == [];
    } else {
      var e := |freq| - 1;
      ItemsSums(freq[..e], lens[..e], m);
      assert freq == freq[..e] + [freq[e]];
      LiveSnoc(freq[..e], freq[e]);
      WeightedSnoc(freq, lens);
      KraftSnoc(lens, m);
      if lens[e] > 0 {
        AddItem(Items(freq[..e], lens[..e]), Item(freq[e], lens[e]), m);
      } else {
        ZeroLength(freq[e]);
        assert Items(freq, lens) == Items(freq[..e], lens[..e]);
      }
    }
  }

  lemma ItemsEmpty(m: nat)
    ensures Bounded([], m) && Below([], m) && Weights([]) == LiveWeights([]) && Space([], m) == Kraft([], m)
    ensures Cost([]) == WeightedLength([], [])
  {
    ZeroWeights([]);
    assert seq(0, i requires 0 <= i < 0 => 0) == [];
  }

  lemma ZeroLength(f: nat)
    ensures f * 0 == 0
  {
  }

  lemma WeightedSnoc(freq: seq<nat>, lens: Lengths)
    requires |freq| == |lens| > 0
    ensures var e := |freq| - 1;
            WeightedLength(freq, lens) == WeightedLength(freq[..e], lens[..e]) + freq[e] * lens[e]
  {
    var e := |freq| - 1;
    var s := seq(|freq|, i requires 0 <= i < |freq| => freq[i] * lens[i]);
    assert s[..e] == seq(e, i requires 0 <= i < e => freq[..e][i] * lens[..e][i]);
  }

  lemma KraftSnoc(lens: Lengths, m: nat)
    requires lens != [] && Bounded(lens, m)
    ensures var e := |lens| - 1;
            Kraft(lens, m) == Kraft(lens[..e], m) + (if lens[e] > 0 then Pow2(m - lens[e]) else 0)
  {
  }

  /** No lengths that fill the code space beat the greedy cost. */
  lemma AtLeastGreedy(freq: seq<nat>, lens: Lengths, m: nat)
    requires |freq| == |lens| && Bounded(lens, m)
    requires forall i :: 0 <= i < |freq| ==> (lens[i] > 0 <==> freq[i] > 0)
    requires Kraft(lens, m) == Pow2(m)
    ensures Greedy(LiveWeights(freq)) <= WeightedLength(freq, lens)
  {
    hide Greedy, LiveWeights, WeightedLength;
    ItemsSums(freq, lens, m);
    assert Items(freq, lens) != [];
    GreedyIsLeast(Items(freq, lens), m);
  }

  // ---------- making room ----------

  ghost function BlKraft(bl: seq<nat>, m: nat, k: nat): nat
    requires k <= m && k < |bl|
  {
    if k == 0 then 0 else BlKraft(bl, m, k - 1) + bl[k] * Pow2(m - k)
  }

  ghost function BlTotal(bl: seq<nat>, k: nat): nat
    requires k < |bl|
  {
    if k == 0 then 0 else BlTotal(bl, k - 1) + bl[k]
  }

  ghost predicate Repairing(bl: seq<nat>, m: nat, n: nat, overflow: int)
  {
    && |bl| == MAX_BITS + 1 && 1 <= m <= MAX_BITS && bl[0] == 0
    && (forall b :: m < b <= MAX_BITS ==> bl[b] == 0)
    && overflow >= 0 && overflow % 2 == 0
    && BlKraft(bl, m, m) == Pow2(m) + overflow / 2
    && BlTotal(bl, m) == n
    && (overflow > 0 ==> bl[m] > overflow / 2)
  }

  lemma {:induction false} BlUpdate(bl: seq<nat>, m: nat, k: nat, b: nat, v: nat)
    requires k <= m && k < |bl| && 1 <= b < |bl|
    ensures BlKraft(bl[b := v], m, k) + (if b <= k then bl[b] * Pow2(m - b) else 0)
         == BlKraft(bl, m, k) + (if b <= k then v * Pow2(m - b) else 0)
    ensures BlTotal(bl[b := v], k) + (if b <= k then bl[b] else 0) == BlTotal(bl, k) + (if b <= k then v else 0)
  {
    hide Pow2;
    if k > 0 {
      BlUpdate(bl, m, k - 1, b, v);
    }
  }

  lemma {:induction false} BlEmpty(bl: seq<nat>, m: nat, k: nat)
    requires k <= m && k < |bl| && forall b :: 1 <= b <= k ==> bl[b] == 0
    ensures BlKraft(bl, m, k) == 0 && BlTotal(bl, k) == 0
  {
    if k > 0 {
      BlEmpty(bl, m, k - 1);
      assert 0 * Pow2(m - k) == 0;
    }
  }

  /** While the code space is overfull some code is shorter than the limit. */
  lemma ShorterExists(bl: seq<nat>, m: nat, n: nat, overflow: int)
    requires Repairing(bl, m, n, overflow) && overflow > 0 && n <= Pow2(m)
    ensures exists b :: 1 <= b < m && bl[b] > 0
  {
    if forall b :: 1 <= b <= m - 1 ==> bl[b] == 0 {
      AllAtLimit(bl, m);
    }
  }

  lemma AllAtLimit(bl: seq<nat>, m: nat)
    requires 1 <= m < |bl| && forall b :: 1 <= b <= m - 1 ==> bl[b] == 0
    ensures BlKraft(bl, m, m) == BlTotal(bl, m)
  {
    BlEmpty(bl, m, m - 1);
    Pow2Zero();
  }

  /** Move one leaf of length `b` down a level, next to one that was too deep. */
  ghost function OneDown(bl: seq<nat>, m: nat, b: nat): (r: seq<nat>)
    requires 1 <= b < m < |bl| && bl[b] > 0 && bl[m] > 0
    ensures |r| == |bl|
  {
    var r := bl[b := bl[b] - 1];
    var s := r[b + 1 := r[b + 1] + 2];
    s[m := s[m] - 1]
  }

  lemma RepairStep(bl: seq<nat>, m: nat, n: nat, overflow: int, b: nat)
    requires Repairing(bl, m, n, overflow) && overflow > 0 && 1 <= b < m && bl[b] > 0
    ensures bl[m] > 0
    ensures Repairing(OneDown(bl, m, b), m, n, overflow - 2)
  {
    hide Pow2, BlKraft, BlTotal;
    var r: seq<nat> := bl[b := bl[b] - 1];
    var s: seq<nat> := r[b + 1 := r[b + 1] + 2];
    BlUpdate(bl, m, m, b, bl[b] - 1);
    BlUpdate(r, m, m, b + 1, r[b + 1] + 2);
    BlUpdate(s, m, m, m, s[m] - 1);
    var p := Pow2(m - (b + 1));
    assert Pow2(m - b) == 2 * p by { Pow2Double(m - b); }
    Pow2Zero();
    MoveDown(bl[b], r[b + 1], p);
  }

  lemma Pow2Double(k: nat)
    requires k > 0
    ensures Pow2(k) == 2 * Pow2(k - 1)
  {
  }

  lemma MoveDown(x: nat, y: nat, p: nat)
    requires x > 0
    ensures (x - 1) * (2 * p) == x * (2 * p) - 2 * p
    ensures (y + 2) * p == y * p + 2 * p
  {
  }

  /** The do-while loop of gen_bitlen. */
  method MakeRoom(blCount: array<nat>, maxLength: nat, overflow0: int, ghost n: nat)
    requires Repairing(blCount[..], maxLength, n, overflow0) && overflow0 > 0 && n <= Pow2(maxLength)
    modifies blCount
    ensures Repairing(blCount[..], maxLength, n, 0) && maxLength < blCount.Length && blCount[maxLength] > 0
  {
    hide Repairing, OneDown;
    var overflow := overflow0;
    RepairingSize(blCount[..], maxLength, n, overflow);
    while overflow > 0
      invariant Repairing(blCount[..], maxLength, n, overflow) && overflow >= 0
      invariant blCount[maxLength] > overflow / 2
      decreases overflow
    {
      var bits := maxLength - 1;
      ShorterExists(blCount[..], maxLength, n, overflow);
      ghost var w :| 1 <= w < maxLength && blCount[w] > 0;
      while blCount[bits] == 0
        invariant w <= bits < maxLength
        decreases bits
      {
        bits := bits - 1;
      }
      ghost var bl := blCount[..];
      RepairStep(bl, maxLength, n, overflow, bits);
      OneDownIs(bl, maxLength, bits);
      blCount[bits] := blCount[bits] - 1;
      blCount[bits + 1] := blCount[bits + 1] + 2;
      blCount[maxLength] := blCount[maxLength] - 1;
      assert blCount[..] == OneDown(bl, maxLength, bits);
      overflow := overflow - 2;
      RepairingSize(blCount[..], maxLength, n, overflow);
    }
  }

  lemma RepairingSize(bl: seq<nat>, m: nat, n: nat, overflow: int)
    requires Repairing(bl, m, n, overflow)
    ensures |bl| == MAX_BITS + 1 && 1 <= m <= MAX_BITS && overflow >= 0
    ensures overflow <= 0 ==> overflow == 0
    ensures overflow > 0 ==> bl[m] > overflow / 2
  {
  }

  lemma OneDownIs(bl: seq<nat>, m: nat, b: nat)
    requires 1 <= b < m < |bl| && bl[b] > 0 && bl[m] > 0
    ensures OneDown(bl, m, b)
         == bl[b := bl[b] - 1][b + 1 := bl[b + 1] + 2][m := (if b + 1 == m then bl[m] + 2 else bl[m]) - 1]
  {
  }
}
