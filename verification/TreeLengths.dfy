/** gen_bitlen as a whole: complete, length-limited code lengths and their exact cost. */
module TreeLengths {
  import opened Arith
  import opened Canonical
  import opened CodeTables
  import opened TreeHeap
  import opened HuffmanCost
  import opened HuffmanTree
  import opened TreeSums
  import opened BitLengths
  import opened CodeSpace
  import opened LengthLimit
  import opened TreeDepths

  // ---------- from counted lengths to the repair loop ----------

  lemma {:induction false} BlKraftIs(bl: seq<nat>, done: Lengths, m: nat, k: nat)
    requires Counted(bl, done) && Bounded(done, m) && k <= m <= MAX_BITS
    ensures BlKraft(bl, m, k) == KraftBelow(done, m, k + 1)
  {
    KraftStep(done, m, k);
    if k == 0 {
      KraftBelowZero(done, m);
    } else {
      BlKraftIs(bl, done, m, k - 1);
    }
  }

  /** The number of symbols with a length in 1 .. k. */
  ghost function Within(lens: Lengths, k: nat): (r: seq<int>)
    ensures |r| == |lens|
  {
    seq(|lens|, i requires 0 <= i < |lens| => if 1 <= lens[i] <= k then 1 else 0)
  }

  lemma {:induction false} BlTotalIs(bl: seq<nat>, done: Lengths, k: nat)
    requires Counted(bl, done) && k <= MAX_BITS
    ensures BlTotal(bl, k) == Sum(Within(done, k))
  {
    if k == 0 {
      SumZero(Within(done, 0));
    } else {
      BlTotalIs(bl, done, k - 1);
      var at := seq(|done|, i requires 0 <= i < |done| => if done[i] == k then 1 else 0);
      CountIsSum(done, k, at);
      SumAdd(Within(done, k - 1), at, Within(done, k));
    }
  }

  lemma CountedAbove(bl: seq<nat>, done: Lengths, m: nat)
    requires Counted(bl, done) && Bounded(done, m)
    ensures forall b :: m < b <= MAX_BITS ==> bl[b] == 0
  {
    forall b | m < b <= MAX_BITS ensures bl[b] == 0 {
      CountNone(done, b);
    }
  }

  lemma {:induction false} CountNone(lens: Lengths, b: nat)
    requires forall i :: 0 <= i < |lens| ==> lens[i] != b
    ensures Count(lens, b) == 0
  {
    if lens != [] {
      CountNone(lens[..|lens| - 1], b);
    }
  }

  lemma TotalIsLeaves(l: seq<nat>, fc: seq<nat>, dl: seq<nat>, done: Lengths, freq: seq<nat>, n: nat, m: nat)
    requires Labels(l, fc, dl, done, freq, n, m)
    ensures Sum(Within(done, m)) == n
  {
    hide Labels, Sum;
    LeafLengths(l, fc, dl, done, freq, n, m);
    LabelsListing(l, fc, dl, done, freq, n, m);
    LeafCount(l, fc, freq, n);
    assert Within(done, m) == LeafValues(freq, seq(|freq| + n - 1, i => 1));
  }

  lemma RepairingStart(l: seq<nat>, fc: seq<nat>, dl: seq<nat>, done: Lengths, freq: seq<nat>, desc: TreeDesc, n: nat,
                       bl: seq<nat>, overflow: int)
    requires ValidDesc(desc) && Listing(l, fc, freq, n) && |freq| == desc.elems
    requires PassState(l, dl, done, freq, desc, n, 2 * n - 2, bl, overflow)
    ensures Labels(l, fc, dl, done, freq, n, desc.maxLength)
    ensures Repairing(bl, desc.maxLength, n, overflow)
  {
    hide Listing, Labelling, Clipped, BlKraft, BlTotal, Sum;
    var m := desc.maxLength;
    LeafLengths(l, fc, dl, done, freq, n, m);
    RootLabel(l, fc, dl, done, freq, n, m);
    OverfullBy(l, fc, dl, done, freq, n, m, overflow);
    CodesAtLimit(l, fc, dl, done, freq, n, m, overflow);
    TotalIsLeaves(l, fc, dl, done, freq, n, m);
    BlKraftIs(bl, done, m, m);
    BlTotalIs(bl, done, m);
    CountedAbove(bl, done, m);
  }

  // ---------- handing out the repaired lengths ----------

  /** Leaves among the first `p` listed nodes. */
  ghost function LeavesTo(l: seq<nat>, elems: nat, p: nat): nat
    requires p <= |l|
  {
    if p == 0 then 0 else LeavesTo(l, elems, p - 1) + (if l[p - 1] < elems then 1 else 0)
  }

  ghost predicate Handed(l: seq<nat>, dl: seq<nat>, done: Lengths, p: nat)
    requires p <= |l|
  {
    && (forall k :: p <= k < |l| && l[k] < |done| ==> l[k] < |dl| && done[l[k]] == dl[l[k]])
    && (forall k :: 0 <= k < p && l[k] < |done| ==> done[l[k]] == 0)
  }

  /**
   The nodes from place `p` of the list on have their final length; `left` codes
   of length `bits` and all shorter ones are still to be handed out.
   */
  ghost predicate Rescanning(l: seq<nat>, dl: seq<nat>, done: Lengths, freq: seq<nat>, bl: seq<nat>, m: nat,
                             p: nat, bits: nat, left: nat)
  {
    && |done| == |freq| <= |dl| && |bl| == MAX_BITS + 1 && bits <= m <= MAX_BITS && p <= |l|
    && Handed(l, dl, done, p)
    && (forall i :: 0 <= i < |freq| && freq[i] == 0 ==> done[i] == 0)
    && Bounded(done, m)
    && (forall b :: bits < b <= m ==> Count(done, b) == bl[b])
    && (bits > 0 ==> Count(done, bits) + left == bl[bits]) && (bits == 0 ==> left == 0)
    && (forall b :: 1 <= b < bits ==> Count(done, b) == 0)
    && LeavesTo(l, |freq|, p) == left + (if bits == 0 then 0 else BlTotal(bl, bits - 1))
  }

  lemma LeavesToIsSum(l: seq<nat>, elems: nat, g: seq<int>, p: nat)
    requires p <= |l| && elems <= |g| && (forall k :: 0 <= k < |l| ==> l[k] < |g|)
    requires forall v :: 0 <= v < |g| ==> g[v] == if v < elems then 1 else 0
    ensures LeavesTo(l, elems, p) == Sum(Picked(l, g)[..p])
  {
    if p > 0 {
      LeavesToIsSum(l, elems, g, p - 1);
      assert Picked(l, g)[..p] == Picked(l, g)[..p - 1] + [g[l[p - 1]]];
      SumSnoc(Picked(l, g)[..p - 1], g[l[p - 1]]);
    }
  }

  /** As many leaves are listed as there are codes to hand out. */
  lemma AllLeaves(l: seq<nat>, fc: seq<nat>, freq: seq<nat>, n: nat)
    requires Listing(l, fc, freq, n)
    ensures LeavesTo(l, |freq|, |l|) == n
  {
    hide SonsAt, Used, Masked, LeafValues;
    var g: seq<int> := seq(|freq| + n - 1, v => if v < |freq| then 1 else 0);
    ListingBelow(l, fc, freq, n);
    LeavesToIsSum(l, |freq|, g, |l|);
    assert Picked(l, g)[..|l|] == Picked(l, g);
    PickedSum(l, Used(freq, |freq| + n - 1), g);
    MaskedSplit(freq, n, g);
    SumConcat(LeafValues(freq, g), g[|freq|..]);
    SumZero(g[|freq|..]);
    LeafCount(l, fc, freq, n);
    assert LeafValues(freq, g) == LeafValues(freq, seq(|freq| + n - 1, i => 1)) by { LeafOnes(freq, n, g); }
  }

  lemma LeafOnes(freq: seq<nat>, n: nat, g: seq<int>)
    requires n >= 1 && |g| == |freq| + n - 1 && forall v :: 0 <= v < |freq| ==> g[v] == 1
    ensures LeafValues(freq, g) == LeafValues(freq, seq(|freq| + n - 1, i => 1))
  {
  }

  lemma RescanStart(l: seq<nat>, fc: seq<nat>, dl: seq<nat>, freq: seq<nat>, bl: seq<nat>, m: nat, n: nat)
    requires Listing(l, fc, freq, n) && |freq| <= |dl| && Repairing(bl, m, n, 0)
    ensures Rescanning(l, dl, seq(|freq|, i => 0), freq, bl, m, |l|, m, bl[m])
  {
    hide Listing, BlKraft;
    AllLeaves(l, fc, freq, n);
    var z := seq(|freq|, i => 0);
    forall b | 1 <= b <= m ensures Count(z, b) == 0 {
      CountZeros(|freq|, b);
    }
  }

  lemma RescanNext(l: seq<nat>, dl: seq<nat>, done: Lengths, freq: seq<nat>, bl: seq<nat>, m: nat, p: nat, bits: nat)
    requires Rescanning(l, dl, done, freq, bl, m, p, bits, 0) && 1 <= bits
    ensures Rescanning(l, dl, done, freq, bl, m, p, bits - 1, if bits == 1 then 0 else bl[bits - 1])
  {
  }

  lemma RescanSkip(l: seq<nat>, dl: seq<nat>, done: Lengths, freq: seq<nat>, bl: seq<nat>, m: nat, p: nat, bits: nat, left: nat)
    requires Rescanning(l, dl, done, freq, bl, m, p, bits, left) && left > 0
    ensures p > 0
    ensures l[p - 1] >= |freq| ==> Rescanning(l, dl, done, freq, bl, m, p - 1, bits, left)
  {
    hide BlTotal, Count;
  }

  lemma RescanGive(l: seq<nat>, fc: seq<nat>, dl: seq<nat>, done: Lengths, freq: seq<nat>, bl: seq<nat>, m: nat, n: nat,
                   p: nat, bits: nat, left: nat)
    requires Listing(l, fc, freq, n) && Rescanning(l, dl, done, freq, bl, m, p, bits, left) && left > 0
    requires 1 <= p <= |l| && l[p - 1] < |freq|
    ensures freq[l[p - 1]] > 0
    ensures Rescanning(l, dl[l[p - 1] := bits], done[l[p - 1] := bits], freq, bl, m, p - 1, bits, left - 1)
  {
    hide BlTotal;
    var x := l[p - 1];
    ListingBelow(l, fc, freq, n);
    assert IsUsed(freq, |freq| + n - 1, x);
    forall b ensures Count(done[x := bits], b) == Count(done, b) - (if done[x] == b then 1 else 0) + (if bits == b then 1 else 0) {
      CountUpdate(done, x, bits, b);
    }
    assert done[x] == 0;
    assert LeavesTo(l, |freq|, p) == LeavesTo(l, |freq|, p - 1) + 1;
    assert Bounded(done[x := bits], m);
    assert Handed(l, dl[x := bits], done[x := bits], p - 1) by { HandedStep(l, fc, dl, done, freq, n, p, bits); }
    var d := done[x := bits];
    assert bits > 0;
    assert forall i :: 0 <= i < |freq| && freq[i] == 0 ==> d[i] == 0;
    assert forall b :: bits < b <= m ==> Count(d, b) == bl[b];
    assert Count(d, bits) + (left - 1) == bl[bits];
    forall b: nat | 1 <= b < bits ensures Count(d, b) == 0 {
      assert Count(done, b) == 0;
      CountUpdate(done, x, bits, b);
    }
    assert LeavesTo(l, |freq|, p - 1) == left - 1 + BlTotal(bl, bits - 1);
  }

  lemma HandedStep(l: seq<nat>, fc: seq<nat>, dl: seq<nat>, done: Lengths, freq: seq<nat>, n: nat, p: nat, v: nat)
    requires Listing(l, fc, freq, n) && 1 <= p <= |l| && Handed(l, dl, done, p)
    requires l[p - 1] < |done| == |freq| <= |dl|
    ensures Handed(l, dl[l[p - 1] := v], done[l[p - 1] := v], p - 1)
  {
    forall k | 0 <= k < |l| && k != p - 1 ensures l[k] != l[p - 1] {
      if k < p - 1 {
        ListedLater(l, fc, freq, n, k, p - 1);
      } else {
        ListedLater(l, fc, freq, n, p - 1, k);
      }
    }
  }

  lemma {:induction false} LeavesToZero(l: seq<nat>, elems: nat, p: nat)
    requires p <= |l| && LeavesTo(l, elems, p) == 0
    ensures forall k :: 0 <= k < p ==> l[k] >= elems
  {
    if p > 0 {
      LeavesToZero(l, elems, p - 1);
    }
  }

  lemma RescanDone(l: seq<nat>, fc: seq<nat>, dl: seq<nat>, done: Lengths, freq: seq<nat>, bl: seq<nat>, m: nat, n: nat, p: nat)
    requires Listing(l, fc, freq, n) && Rescanning(l, dl, done, freq, bl, m, p, 0, 0)
    requires bl[0] == 0 && forall b :: m < b <= MAX_BITS ==> bl[b] == 0
    ensures Counted(bl, done) && Bounded(done, m)
    ensures |done| == |freq| <= |dl| && forall i :: 0 <= i < |freq| && freq[i] > 0 ==> done[i] == dl[i]
  {
    hide Listing;
    LeavesToZero(l, |freq|, p);
    forall i | 0 <= i < |freq| && freq[i] > 0 ensures done[i] == dl[i] {
      ListingHas(l, fc, freq, n, i);
    }
    forall b | m < b <= MAX_BITS ensures Count(done, b) == 0 {
      CountNone(done, b);
    }
  }

  lemma ListingHas(l: seq<nat>, fc: seq<nat>, freq: seq<nat>, n: nat, i: nat)
    requires Listing(l, fc, freq, n) && i < |freq| && freq[i] > 0
    ensures i in l
  {
    assert IsUsed(freq, |freq| + n - 1, i);
    ListedIs(l, Used(freq, |freq| + n - 1), i);
  }

  ghost predicate LengthsFit(lens: Lengths, freq: seq<nat>)
  {
    |lens| == |freq| && forall i :: 0 <= i < |freq| ==> (lens[i] > 0 <==> freq[i] > 0)
  }

  lemma CostShift(f: nat, x: nat, a: nat, b: nat)
    ensures Price(f, b, x) - Price(f, a, x) == (b - a) * f
  {
    assert f * (b + x) - f * (a + x) == (b - a) * f;
  }

  lemma LensUpdate(t: seq<CtData>, elems: nat, x: nat, v: nat)
    requires x < elems <= |t|
    ensures Lens(t[x := t[x].(dl := v)], elems) == Lens(t, elems)[x := v]
    ensures Dads(t[x := t[x].(dl := v)]) == Dads(t)[x := v]
    ensures Freqs(t[x := t[x].(dl := v)]) == Freqs(t)
  {
  }

  method Rescan(tree: array<CtData>, heap: array<nat>, heapMax: nat, maxCode: nat, desc: TreeDesc, blCount: array<nat>,
                optLen0: int, ghost freq: seq<nat>, ghost n: nat)
    returns (optLen: int, ghost done: Lengths)
    requires heap != blCount && heapMax <= HEAP_SIZE == heap.Length && blCount.Length == MAX_BITS + 1
    requires ValidDesc(desc) && |freq| == desc.elems <= tree.Length && maxCode < desc.elems
    requires forall i :: maxCode < i < |freq| ==> freq[i] == 0
    requires Listing(heap[heapMax..], Freqs(tree[..]), freq, n)
    requires forall k :: heapMax <= k < HEAP_SIZE ==> heap[k] < tree.Length
    requires Repairing(blCount[..], desc.maxLength, n, 0)
    requires LengthsFit(Lens(tree[..], desc.elems), freq)
    modifies tree
    ensures Freqs(tree[..]) == old(Freqs(tree[..]))
    ensures LengthsFit(done, freq) && done == Lens(tree[..], desc.elems)
    ensures Counted(blCount[..], done) && Bounded(done, desc.maxLength)
    ensures optLen - Sum(Costs(freq, done, desc)) == optLen0 - Sum(Costs(freq, old(Lens(tree[..], desc.elems)), desc))
  {
    hide Rescanning, Listing, Repairing, Sum, Costs, Bounded, Counted;
    ghost var l, fc, bl := heap[heapMax..], Freqs(tree[..]), blCount[..];
    ghost var m := desc.maxLength;
    RepairingSize(bl, m, n, 0);
    optLen := optLen0;
    RescanStart(l, fc, Dads(tree[..]), freq, bl, m, n);
    done := seq(|freq|, i => 0);
    var h := HEAP_SIZE;
    var bits := desc.maxLength;
    while bits != 0
      invariant 0 <= bits <= m && heapMax <= h <= HEAP_SIZE && |done| == |freq|
      invariant Freqs(tree[..]) == fc && LengthsFit(Lens(tree[..], desc.elems), freq)
      invariant Rescanning(l, Dads(tree[..]), done, freq, bl, m, h - heapMax, bits, if bits == 0 then 0 else bl[bits])
      invariant optLen - Sum(Costs(freq, Lens(tree[..], desc.elems), desc)) == optLen0 - Sum(Costs(freq, old(Lens(tree[..], desc.elems)), desc))
    {
      h, optLen, done := HandOut(tree, heap, heapMax, h, maxCode, desc, blCount, bits, optLen, freq, n, done);
      RescanNext(l, Dads(tree[..]), done, freq, bl, m, h - heapMax, bits);
      bits := bits - 1;
    }
    RepairingBounds(bl, m, n);
    RescanDone(l, fc, Dads(tree[..]), done, freq, bl, m, n, h - heapMax);
    UnusedZero(l, Dads(tree[..]), done, freq, bl, m, h - heapMax);
    assert done == Lens(tree[..], desc.elems);
  }

  lemma RepairingBounds(bl: seq<nat>, m: nat, n: nat)
    requires Repairing(bl, m, n, 0)
    ensures |bl| == MAX_BITS + 1 && bl[0] == 0 && (forall b :: m < b <= MAX_BITS ==> bl[b] == 0)
    ensures BlKraft(bl, m, m) == Pow2(m)
  {
  }

  lemma UnusedZero(l: seq<nat>, dl: seq<nat>, done: Lengths, freq: seq<nat>, bl: seq<nat>, m: nat, p: nat)
    requires Rescanning(l, dl, done, freq, bl, m, p, 0, 0)
    ensures |done| == |freq| && forall i :: 0 <= i < |freq| && freq[i] == 0 ==> done[i] == 0
  {
  }

  /** The inner loop of the rescan: hand out all codes of one length. */
  method HandOut(tree: array<CtData>, heap: array<nat>, heapMax: nat, h0: nat, maxCode: nat, desc: TreeDesc,
                 blCount: array<nat>, bits: nat, optLen0: int, ghost freq: seq<nat>, ghost n: nat, ghost done0: Lengths)
    returns (h: nat, optLen: int, ghost done: Lengths)
    requires heap != blCount && heapMax <= h0 <= HEAP_SIZE == heap.Length && blCount.Length == MAX_BITS + 1
    requires ValidDesc(desc) && |freq| == |done0| == desc.elems <= tree.Length && maxCode < desc.elems
    requires forall i :: maxCode < i < |freq| ==> freq[i] == 0
    requires forall k :: heapMax <= k < HEAP_SIZE ==> heap[k] < tree.Length
    requires 1 <= bits <= desc.maxLength
    requires Listing(heap[heapMax..], Freqs(tree[..]), freq, n)
    requires LengthsFit(Lens(tree[..], desc.elems), freq)
    requires Rescanning(heap[heapMax..], Dads(tree[..]), done0, freq, blCount[..], desc.maxLength, h0 - heapMax, bits, blCount[bits])
    modifies tree
    ensures heapMax <= h <= HEAP_SIZE && |done| == |freq|
    ensures Freqs(tree[..]) == old(Freqs(tree[..])) && LengthsFit(Lens(tree[..], desc.elems), freq)
    ensures Rescanning(heap[heapMax..], Dads(tree[..]), done, freq, blCount[..], desc.maxLength, h - heapMax, bits, 0)
    ensures optLen - Sum(Costs(freq, Lens(tree[..], desc.elems), desc))
         == optLen0 - Sum(Costs(freq, old(Lens(tree[..], desc.elems)), desc))
  {
    hide Rescanning, Listing, Sum, Costs, Price, Extra;
    ghost var l, fc, bl := heap[heapMax..], Freqs(tree[..]), blCount[..];
    optLen, h, done := optLen0, h0, done0;
    var left := blCount[bits];
    while left != 0
      invariant heapMax <= h <= HEAP_SIZE && |done| == |freq|
      invariant Freqs(tree[..]) == fc && LengthsFit(Lens(tree[..], desc.elems), freq)
      invariant Rescanning(l, Dads(tree[..]), done, freq, bl, desc.maxLength, h - heapMax, bits, left)
      invariant optLen - Sum(Costs(freq, Lens(tree[..], desc.elems), desc)) == optLen0 - Sum(Costs(freq, old(Lens(tree[..], desc.elems)), desc))
      decreases h
    {
      ghost var p, t := h - heapMax, tree[..];
      RescanSkip(l, Dads(t), done, freq, bl, desc.maxLength, p, bits, left);
      h := h - 1;
      var x := heap[h];
      assert x == l[p - 1];
      NotLeaf(l, fc, freq, n, p - 1);
      if x > maxCode { continue; }
      RescanGive(l, fc, Dads(t), done, freq, bl, desc.maxLength, n, p, bits, left);
      ListingFreq(l, fc, freq, n, x);
      LensUpdate(t, desc.elems, x, bits);
      if tree[x].dl != bits {
        CostUpdate(freq, Lens(t, desc.elems), desc, x, bits);
        CostShift(freq[x], Extra(desc, x), tree[x].dl, bits);
        optLen := optLen + (bits - tree[x].dl) * tree[x].fc;
        tree[x] := tree[x].(dl := bits);
      }
      assert tree[..] == t[x := t[x].(dl := bits)];
      done := done[x := bits];
      left := left - 1;
    }
  }

  lemma NotLeaf(l: seq<nat>, fc: seq<nat>, freq: seq<nat>, n: nat, k: nat)
    requires Listing(l, fc, freq, n) && k < |l|
    ensures l[k] < |freq| ==> freq[l[k]] > 0
  {
    ListingBelow(l, fc, freq, n);
    assert IsUsed(freq, |freq| + n - 1, l[k]);
  }

  // ---------- gen_bitlen ----------

  /** Complete code lengths for exactly the symbols that occur. */
  ghost predicate CompleteCode(lens: Lengths, freq: seq<nat>, m: nat)
  {
    LengthsFit(lens, freq) && Bounded(lens, m) && Kraft(lens, m) == Pow2(m)
  }

  lemma CompleteFrom(bl: seq<nat>, lens: Lengths, freq: seq<nat>, m: nat, n: nat)
    requires LengthsFit(lens, freq) && Counted(bl, lens) && Bounded(lens, m) && Repairing(bl, m, n, 0)
    ensures CompleteCode(lens, freq, m)
  {
    hide BlKraft, BlTotal;
    BlKraftIs(bl, lens, m, m);
  }

  lemma FixedSame(freq: seq<nat>, a: Lengths, b: Lengths, fixed: seq<CtData>, useFixed: bool, desc: TreeDesc)
    requires ValidDesc(desc) && |freq| == desc.elems && (useFixed ==> |fixed| >= desc.elems)
    requires LengthsFit(a, freq) && LengthsFit(b, freq)
    ensures FixedTotal(freq, a, fixed, useFixed, desc) == FixedTotal(freq, b, fixed, useFixed, desc)
  {
    hide Sum, Price, Extra;
    if useFixed {
      assert FixedCosts(freq, a, Dads(fixed), desc) == FixedCosts(freq, b, Dads(fixed), desc);
    }
  }

  /** The first pass leaves lengths for the symbols that occur, optimal unless it had to clip. */
  lemma FirstPassResult(l: seq<nat>, t: seq<CtData>, done: Lengths, freq: seq<nat>, desc: TreeDesc, n: nat,
                        bl: seq<nat>, overflow: int)
    requires ValidDesc(desc) && |freq| == desc.elems <= |t| && Listing(l, Freqs(t), freq, n)
    requires PassState(l, Dads(t), done, freq, desc, n, 2 * n - 2, bl, overflow)
    requires |freq| + n - 1 <= |t| && InnerWeight(t, |freq|, n - 1) == Greedy(LiveWeights(freq))
    ensures done == Lens(t, desc.elems) && LengthsFit(done, freq) && Bounded(done, desc.maxLength) && Counted(bl, done)
    ensures overflow == 0 ==> WeightedLength(freq, done) == Greedy(LiveWeights(freq))
    ensures Repairing(bl, desc.maxLength, n, overflow) && n <= |freq|
  {
    hide Listing, Labelling, Clipped, Greedy, LiveWeights, Sum, InnerWeight, Repairing;
    var m := desc.maxLength;
    RepairingStart(l, Freqs(t), Dads(t), done, freq, desc, n, bl, overflow);
    LeafLengths(l, Freqs(t), Dads(t), done, freq, n, m);
    LeavesAtMost(l, Freqs(t), freq, n);
    if overflow == 0 {
      ListingFreqs(l, Freqs(t), freq, n);
      Unclipped(l, t, done, freq, n, m);
    }
  }

  lemma Unclipped(l: seq<nat>, t: seq<CtData>, done: Lengths, freq: seq<nat>, n: nat, m: nat)
    requires Labels(l, Freqs(t), Dads(t), done, freq, n, m) && n >= 2 && |freq| + n - 1 <= |t| && |done| == |freq|
    requires forall i :: 0 <= i < |freq| ==> done[i] == t[i].dl && (done[i] > 0 <==> freq[i] > 0)
    requires Sum(Clipped(Dads(t), |freq|, n, m, 2 * n - 2)) == 0
    ensures WeightedLength(freq, done) == InnerWeight(t, |freq|, n - 1)
  {
    hide Labels, Listing, Clipped, Sum, InnerWeight;
    NothingClipped(l, Freqs(t), Dads(t), done, freq, n, m);
    PathSum(l, t, Dads(t), done, freq, n, m);
    LabelsListing(l, Freqs(t), Dads(t), done, freq, n, m);
    ListingFreqs(l, Freqs(t), freq, n);
    PathIsWeighted(Freqs(t), Dads(t), done, freq, |freq| + n - 1);
  }

  lemma ListingFreqs(l: seq<nat>, fc: seq<nat>, freq: seq<nat>, n: nat)
    requires Listing(l, fc, freq, n)
    ensures |freq| + n - 1 <= |fc| && n >= 2 && forall i :: 0 <= i < |freq| ==> fc[i] == freq[i]
  {
  }

  lemma LeavesAtMost(l: seq<nat>, fc: seq<nat>, freq: seq<nat>, n: nat)
    requires Listing(l, fc, freq, n)
    ensures n <= |freq|
  {
    LeafCount(l, fc, freq, n);
    SumLe(LeafValues(freq, seq(|freq| + n - 1, i => 1)), seq(|freq|, i => 1));
    SumOnes(|freq|);
  }

  lemma NothingClipped(l: seq<nat>, fc: seq<nat>, dl: seq<nat>, done: Lengths, freq: seq<nat>, n: nat, m: nat)
    requires Labels(l, fc, dl, done, freq, n, m) && n >= 2 && |freq| + n - 1 <= |dl|
    requires Sum(Clipped(dl, |freq|, n, m, 2 * n - 2)) == 0
    ensures forall v :: |freq| <= v < |freq| + n - 1 ==> dl[v] < m
  {
    hide Labels, Clipped, Sum;
    OverflowTwice(dl, |freq|, n, m);
    var a := AtLimit(dl, |freq|, n, m);
    SumNonNeg(a);
    ListedBound(l, fc, dl, done, freq, n, m);
    forall v | |freq| <= v < |freq| + n - 1 ensures dl[v] < m {
      assert a[|freq| + n - 2 - v] == if dl[v] == m then 1 else 0;
    }
  }

  lemma PathIsWeighted(fc: seq<nat>, dl: seq<nat>, done: Lengths, freq: seq<nat>, k: nat)
    requires |freq| <= k <= |fc| && k <= |dl| && LengthsFit(done, freq)
    requires forall i :: 0 <= i < |freq| ==> fc[i] == freq[i] && done[i] == dl[i]
    ensures Sum(LeafValues(freq, PathCosts(fc, dl, k))) == WeightedLength(freq, done)
  {
    hide Sum;
    forall i | 0 <= i < |freq| ensures LeafValues(freq, PathCosts(fc, dl, k))[i] == freq[i] * done[i] {
      if freq[i] == 0 { ZeroTimes(done[i]); }
    }
    assert LeafValues(freq, PathCosts(fc, dl, k)) == seq(|freq|, i requires 0 <= i < |freq| => freq[i] * done[i]);
  }

  lemma ZeroTimes(x: nat)
    ensures 0 * x == 0
  {
  }

  method GenBitlen(tree: array<CtData>, heap: array<nat>, heapMax: nat, maxCode: nat, desc: TreeDesc,
                   blCount: array<nat>, fixed: array?<CtData>, optLen0: int, staticLen0: int,
                   ghost freq: seq<nat>, ghost n: nat)
    returns (optLen: int, staticLen: int)
    requires heap != blCount && blCount.Length == MAX_BITS + 1
    requires ValidDesc(desc) && |freq| == desc.elems && maxCode < desc.elems
    requires TreeListed(heap[..], tree[..], freq, heapMax, n)
    requires forall i :: maxCode < i < |freq| ==> freq[i] == 0
    requires fixed != null ==> fixed != tree && fixed.Length >= desc.elems
    modifies tree, blCount
    ensures Freqs(tree[..]) == old(Freqs(tree[..])) && desc.elems <= tree.Length
    ensures CompleteCode(Lens(tree[..], desc.elems), freq, desc.maxLength)
    ensures Counted(blCount[..], Lens(tree[..], desc.elems))
    ensures optLen == optLen0 + Sum(Costs(freq, Lens(tree[..], desc.elems), desc))
    ensures staticLen == staticLen0 + FixedTotal(freq, Lens(tree[..], desc.elems), if fixed == null then [] else fixed[..], fixed != null, desc)
    ensures n >= 2 && (DepthsFit(old(Dads(tree[..])), freq, n, desc.maxLength) ==>
                         AreDepths(Lens(tree[..], desc.elems), freq, old(Dads(tree[..])), |freq| + n - 2)
                         && WeightedLength(freq, Lens(tree[..], desc.elems)) == Greedy(LiveWeights(freq)))
    ensures BelowLimit(Lens(tree[..], desc.elems), desc.maxLength) ==>
              WeightedLength(freq, Lens(tree[..], desc.elems)) == Greedy(LiveWeights(freq))
  {
    hide DepthsFit, AreDepths, BelowLimit, FathersAre, TreeListed, Listing, PassState, Sum, Costs, FixedTotal, CompleteCode, Counted, Repairing, Bounded, Greedy, LiveWeights, WeightedLength;
    ghost var t0 := tree[..];
    ListedSize(heap[..], t0, freq, heapMax, n);
    ghost var l := heap[heapMax..];
    ListingOf(heap[..], t0, freq, heapMax, n);
    ghost var done;
    var overflow;
    overflow, optLen, staticLen, done := FirstPass(tree, heap, heapMax, maxCode, desc, blCount, fixed, optLen0, staticLen0, freq, n);
    InnerWeightSame(t0, tree[..], |freq|, n - 1) by { SameFreqs(t0, tree[..]); }
    FirstPassResult(l, tree[..], done, freq, desc, n, blCount[..], overflow);
    if DepthsFit(Dads(t0), freq, n, desc.maxLength) {
      LengthsAreDepths(l, tree[..], Dads(t0), done, freq, desc, n, blCount[..], overflow);
    }
    if overflow == 0 {
      CompleteFrom(blCount[..], done, freq, desc.maxLength, n);
      return;
    }
    ghost var fixedT := if fixed == null then [] else fixed[..];
    RepairingSize(blCount[..], desc.maxLength, n, overflow);
    MakeRoom(blCount, desc.maxLength, overflow, n);
    ListedSlots(heap[..], tree[..], freq, heapMax, n, l);
    ghost var last;
    optLen, last := Rescan(tree, heap, heapMax, maxCode, desc, blCount, optLen, freq, n);
    CompleteFrom(blCount[..], last, freq, desc.maxLength, n);
    LimitCounted(blCount[..], last, desc.maxLength);
    FixedSame(freq, done, last, fixedT, fixed != null, desc);
  }

  /** Every symbol that occurs has its depth as code length. */
  ghost predicate AreDepths(lens: Lengths, freq: seq<nat>, dads: seq<nat>, root: nat)
    requires |lens| == |freq|
  {
    forall i :: 0 <= i < |freq| && freq[i] > 0 ==> lens[i] == Depth(dads, root, i)
  }

  lemma LengthsAreDepths(l: seq<nat>, t: seq<CtData>, dads: seq<nat>, done: Lengths, freq: seq<nat>, desc: TreeDesc, n: nat,
                         bl: seq<nat>, overflow: int)
    requires ValidDesc(desc) && |freq| == desc.elems <= |t| && Listing(l, Freqs(t), freq, n) && FathersAre(l, dads, |freq|, n)
    requires PassState(l, Dads(t), done, freq, desc, n, 2 * n - 2, bl, overflow)
    requires DepthsFit(dads, freq, n, desc.maxLength)
    ensures overflow == 0 && AreDepths(Lens(t, desc.elems), freq, dads, |freq| + n - 2)
  {
    hide Listing, Labelling, FathersAre, Clipped, DepthsFit;
    RootLabel(l, Freqs(t), Dads(t), done, freq, n, desc.maxLength);
    FittingDepths(l, Freqs(t), dads, Dads(t), done, freq, n, desc.maxLength);
  }

  lemma LimitCounted(bl: seq<nat>, lens: Lengths, m: nat)
    requires Counted(bl, lens) && 1 <= m <= MAX_BITS && bl[m] > 0
    ensures !BelowLimit(lens, m)
  {
    SomeAtLimit(lens, m);
  }

  lemma ListedSize(h: seq<nat>, t: seq<CtData>, freq: seq<nat>, max: nat, n: nat)
    requires TreeListed(h, t, freq, max, n)
    ensures |h| == HEAP_SIZE && max <= HEAP_SIZE && n >= 2 && |freq| + n - 1 <= |t|
    ensures InnerWeight(t, |freq|, n - 1) == Greedy(LiveWeights(freq))
    ensures forall i :: 0 <= i < |freq| && freq[i] == 0 ==> t[i].dl == 0
  {
  }

  lemma SameFreqs(t: seq<CtData>, u: seq<CtData>)
    requires Freqs(t) == Freqs(u)
    ensures |t| == |u| && forall i :: 0 <= i < |t| ==> t[i].fc == u[i].fc
  {
    forall i | 0 <= i < |t| ensures t[i].fc == u[i].fc {
      assert Freqs(t)[i] == Freqs(u)[i];
    }
  }

  lemma ListedSlots(h: seq<nat>, t: seq<CtData>, freq: seq<nat>, max: nat, n: nat, l: seq<nat>)
    requires max <= |h| && l == h[max..] && Listing(l, Freqs(t), freq, n)
    ensures forall k :: max <= k < |h| ==> h[k] < |t|
  {
    ListingBelow(l, Freqs(t), freq, n);
    forall k | max <= k < |h| ensures h[k] < |t| {
      assert h[k] == l[k - max];
    }
  }
}
