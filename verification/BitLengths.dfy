/** First pass of gen_bitlen: label every node with its depth, clipped to the limit. */
module BitLengths {
  import opened Arith
  import opened Canonical
  import opened CodeTables
  import opened TreeHeap
  import opened HuffmanTree
  import opened TreeSums

  /** The constant part of a tree_desc. */
  datatype TreeDesc = TreeDesc(elems: nat, maxLength: nat, extraBase: nat, extraBits: seq<nat>)

  predicate ValidDesc(desc: TreeDesc)
  {
    && 3 <= desc.elems <= L_CODES && 1 <= desc.maxLength <= MAX_BITS
    && desc.elems <= Pow2(desc.maxLength) && desc.elems <= desc.extraBase + |desc.extraBits|
  }

  /** Extra bits sent after the code of symbol `i`. */
  function Extra(desc: TreeDesc, i: nat): nat
    requires ValidDesc(desc) && i < desc.elems
  {
    if i >= desc.extraBase then desc.extraBits[i - desc.extraBase] else 0
  }

  /** Bits for sending a symbol `f` times with a code of `len` bits and `x` extra bits. */
  function Price(f: nat, len: nat, x: nat): nat
  {
    f * (len + x)
  }

  /** Bits that symbol `i` costs in a block, for each `i`. */
  ghost function Costs(freq: seq<nat>, lens: Lengths, desc: TreeDesc): (r: seq<int>)
    requires ValidDesc(desc) && |freq| == |lens| == desc.elems
    ensures |r| == |freq|
  {
    FixedCosts(freq, lens, lens, desc)
  }

  /** The same with the lengths `fixed` of another code, for the symbols that have a length in `lens`. */
  ghost function FixedCosts(freq: seq<nat>, lens: Lengths, fixed: Lengths, desc: TreeDesc): (r: seq<int>)
    requires ValidDesc(desc) && |freq| == |lens| == desc.elems && |fixed| >= desc.elems
    ensures |r| == |freq|
  {
    seq(|freq|, i requires 0 <= i < |freq| => if lens[i] == 0 then 0 else Price(freq[i], fixed[i], Extra(desc, i)))
  }

  function Clip(d: nat, m: nat): nat
  {
    if d > m then m else d
  }

  /** Entry `k + 1` of the list is one level below its father, but not below level `m`. */
  ghost predicate LabelIs(l: seq<nat>, dl: seq<nat>, elems: nat, n: nat, m: nat, k: nat)
    requires n >= 2 && |l| == 2 * n - 1 && k < 2 * n - 2 && elems + n - 1 <= |dl|
  {
    l[k + 1] < |dl| && dl[l[k + 1]] == Clip(dl[Father(elems, n, k)] + 1, m)
  }

  /** Nodes whose depth had to be clipped, among the first `k` below the root. */
  ghost function Clipped(dl: seq<nat>, elems: nat, n: nat, m: nat, k: nat): (r: seq<int>)
    requires n >= 2 && k <= 2 * n - 2 && elems + n - 1 <= |dl|
    ensures |r| == k
  {
    seq(k, i requires 0 <= i < k => if dl[Father(elems, n, i)] == m then 1 else 0)
  }

  /** State of the first pass: the first `k` nodes below the root are labelled. */
  ghost predicate Labelling(l: seq<nat>, dl: seq<nat>, done: Lengths, freq: seq<nat>, n: nat, m: nat, k: nat)
  {
    var elems := |freq|;
    && n >= 2 && |l| == 2 * n - 1 && k <= 2 * n - 2 && elems + n - 1 <= |dl| && |done| == elems
    && dl[elems + n - 2] == 0
    && (forall i :: 0 <= i < k ==> LabelIs(l, dl, elems, n, m, i))
    && (forall i :: k <= i < 2 * n - 2 ==> FatherIs(l, dl, elems, n, i))
    && (forall i :: 0 <= i < k ==> DoneIs(l, dl, done, i))
    && (forall i :: k <= i < 2 * n - 2 ==> NotDone(l, done, i))
    && (forall i :: 0 <= i < elems && freq[i] == 0 ==> done[i] == 0 && dl[i] == 0)
  }

  ghost predicate DoneIs(l: seq<nat>, dl: seq<nat>, done: Lengths, i: nat)
    requires i + 1 < |l|
  {
    l[i + 1] < |done| ==> l[i + 1] < |dl| && done[l[i + 1]] == dl[l[i + 1]]
  }

  ghost predicate NotDone(l: seq<nat>, done: Lengths, i: nat)
    requires i + 1 < |l|
  {
    l[i + 1] < |done| ==> done[l[i + 1]] == 0
  }

  /** `done` after the node listed at `k + 1` got length `v`. */
  ghost function Marked(l: seq<nat>, done: Lengths, k: nat, v: nat): Lengths
    requires k + 1 < |l|
  {
    if l[k + 1] < |done| then done[l[k + 1] := v] else done
  }

  lemma LabelTarget(l: seq<nat>, fc: seq<nat>, dl: seq<nat>, done: Lengths, freq: seq<nat>, n: nat, m: nat, k: nat)
    requires Listing(l, fc, freq, n) && Labelling(l, dl, done, freq, n, m, k) && k < 2 * n - 2
    ensures l[k + 1] < |freq| + n - 1 <= |dl| && dl[l[k + 1]] == Father(|freq|, n, k) < |dl|
    ensures l[k + 1] < |freq| ==> freq[l[k + 1]] > 0 && done[l[k + 1]] == 0
  {
    hide Used;
    ListingBelow(l, fc, freq, n);
    assert FatherIs(l, dl, |freq|, n, k);
    assert NotDone(l, done, k);
    assert IsUsed(freq, |freq| + n - 1, l[k + 1]);
  }

  lemma KeepLabel(l: seq<nat>, fc: seq<nat>, dl: seq<nat>, freq: seq<nat>, n: nat, m: nat, k: nat, i: nat, v: nat)
    requires Listing(l, fc, freq, n) && |freq| + n - 1 <= |dl| && i < k < 2 * n - 2 && l[k + 1] < |dl|
    requires LabelIs(l, dl, |freq|, n, m, i)
    ensures LabelIs(l, dl[l[k + 1] := v], |freq|, n, m, i) && l[i + 1] != l[k + 1]
  {
    hide Used;
    ListedOnce(l, Used(freq, |freq| + n - 1), i + 1, k + 1);
    FatherIsNot(l, fc, freq, n, i, k);
  }

  lemma LabellingStep(l: seq<nat>, fc: seq<nat>, dl: seq<nat>, done: Lengths, freq: seq<nat>, n: nat, m: nat, k: nat)
    requires Listing(l, fc, freq, n) && Labelling(l, dl, done, freq, n, m, k) && k < 2 * n - 2
    requires l[k + 1] < |freq| + n - 1 && dl[l[k + 1]] < |dl|
    ensures var v := Clip(dl[dl[l[k + 1]]] + 1, m);
            Labelling(l, dl[l[k + 1] := v], Marked(l, done, k, v), freq, n, m, k + 1)
  {
    hide Used, Listing, SonsAt;
    var elems := |freq|;
    var x := l[k + 1];
    LabelTarget(l, fc, dl, done, freq, n, m, k);
    var v := Clip(dl[dl[x]] + 1, m);
    var dl', done' := dl[x := v], Marked(l, done, k, v);
    FatherIsNot(l, fc, freq, n, k, k);
    assert LabelIs(l, dl', elems, n, m, k);
    forall i | 0 <= i < k ensures LabelIs(l, dl', elems, n, m, i) && DoneIs(l, dl', done', i) {
      KeepLabel(l, fc, dl, freq, n, m, k, i, v);
      assert DoneIs(l, dl, done, i);
    }
    assert DoneIs(l, dl', done', k);
    forall i | k + 1 <= i < 2 * n - 2 ensures FatherIs(l, dl', elems, n, i) && NotDone(l, done', i) {
      ListedLater(l, fc, freq, n, k + 1, i + 1);
      assert FatherIs(l, dl, elems, n, i) && NotDone(l, done, i);
    }
    RootIsNot(l, fc, freq, n, k);
  }

  lemma ListedLater(l: seq<nat>, fc: seq<nat>, freq: seq<nat>, n: nat, p: nat, q: nat)
    requires Listing(l, fc, freq, n) && p < q < |l|
    ensures l[p] != l[q]
  {
    ListedOnce(l, Used(freq, |freq| + n - 1), p, q);
  }

  lemma RootIsNot(l: seq<nat>, fc: seq<nat>, freq: seq<nat>, n: nat, k: nat)
    requires Listing(l, fc, freq, n) && k < 2 * n - 2
    ensures l[k + 1] != |freq| + n - 2
  {
    ListedOnce(l, Used(freq, |freq| + n - 1), 0, k + 1);
  }

  lemma ClippedStep(l: seq<nat>, fc: seq<nat>, dl: seq<nat>, freq: seq<nat>, n: nat, m: nat, k: nat, v: nat)
    requires Listing(l, fc, freq, n) && |freq| + n - 1 <= |dl| && |l| == 2 * n - 1 && k < 2 * n - 2 && l[k + 1] < |dl|
    ensures Sum(Clipped(dl[l[k + 1] := v], |freq|, n, m, k + 1))
         == Sum(Clipped(dl, |freq|, n, m, k)) + (if dl[Father(|freq|, n, k)] == m then 1 else 0)
  {
    hide Used, SonsAt;
    var dl' := dl[l[k + 1] := v];
    forall i | 0 <= i <= k ensures dl'[Father(|freq|, n, i)] == dl[Father(|freq|, n, i)] {
      FatherIsNot(l, fc, freq, n, i, k);
    }
    assert Clipped(dl', |freq|, n, m, k + 1)[..k] == Clipped(dl, |freq|, n, m, k);
  }

  lemma {:induction false} CountUpdate(s: Lengths, i: nat, v: nat, b: nat)
    requires i < |s|
    ensures Count(s[i := v], b) == Count(s, b) - (if s[i] == b then 1 else 0) + (if v == b then 1 else 0)
  {
    var e := |s| - 1;
    if i == e {
      assert s[i := v][..e] == s[..e];
    } else {
      assert s[i := v][..e] == s[..e][i := v];
      CountUpdate(s[..e], i, v, b);
    }
  }

  lemma CostUpdate(freq: seq<nat>, lens: Lengths, desc: TreeDesc, i: nat, v: nat)
    requires ValidDesc(desc) && |freq| == |lens| == desc.elems && i < |lens| && v > 0
    ensures Sum(Costs(freq, lens[i := v], desc)) == Sum(Costs(freq, lens, desc)) + Price(freq[i], v, Extra(desc, i))
                - (if lens[i] == 0 then 0 else Price(freq[i], lens[i], Extra(desc, i)))
  {
    hide Price, Extra;
    var c := Price(freq[i], v, Extra(desc, i));
    assert Costs(freq, lens[i := v], desc) == Costs(freq, lens, desc)[i := c];
    SumUpdate(Costs(freq, lens, desc), i, c);
  }

  lemma FixedCostUpdate(freq: seq<nat>, lens: Lengths, fixed: Lengths, desc: TreeDesc, i: nat, v: nat)
    requires ValidDesc(desc) && |freq| == |lens| == desc.elems && i < |lens| && v > 0
    requires |fixed| >= desc.elems && lens[i] == 0
    ensures Sum(FixedCosts(freq, lens[i := v], fixed, desc))
         == Sum(FixedCosts(freq, lens, fixed, desc)) + Price(freq[i], fixed[i], Extra(desc, i))
  {
    hide Price, Extra;
    var f := Price(freq[i], fixed[i], Extra(desc, i));
    assert FixedCosts(freq, lens[i := v], fixed, desc) == FixedCosts(freq, lens, fixed, desc)[i := f];
    SumUpdate(FixedCosts(freq, lens, fixed, desc), i, f);
  }

  // ---------- the loop ----------

  ghost predicate Counted(bl: seq<nat>, done: Lengths)
  {
    |bl| == MAX_BITS + 1 && bl[0] == 0 && forall b :: 1 <= b <= MAX_BITS ==> bl[b] == Count(done, b)
  }

  /** What the loop has computed after `k` nodes below the root. */
  ghost predicate PassState(l: seq<nat>, dl: seq<nat>, done: Lengths, freq: seq<nat>, desc: TreeDesc, n: nat, k: nat,
                            bl: seq<nat>, overflow: int)
  {
    && Labelling(l, dl, done, freq, n, desc.maxLength, k)
    && Counted(bl, done)
    && overflow == Sum(Clipped(dl, |freq|, n, desc.maxLength, k))
  }

  lemma CountedStep(bl: seq<nat>, done: Lengths, i: nat, v: nat)
    requires Counted(bl, done) && i < |done| && done[i] == 0 && 1 <= v <= MAX_BITS
    ensures Counted(bl[v := bl[v] + 1], done[i := v])
  {
    var bl' := bl[v := bl[v] + 1];
    forall b | 1 <= b <= MAX_BITS ensures bl'[b] == Count(done[i := v], b) {
      CountUpdate(done, i, v, b);
    }
  }

  lemma PassTarget(l: seq<nat>, fc: seq<nat>, dl: seq<nat>, done: Lengths, freq: seq<nat>, desc: TreeDesc, n: nat, k: nat,
                   bl: seq<nat>, overflow: int)
    requires Listing(l, fc, freq, n) && PassState(l, dl, done, freq, desc, n, k, bl, overflow) && k < 2 * n - 2
    ensures |l| == 2 * n - 1 && l[k + 1] < |freq| + n - 1 <= |dl| && dl[l[k + 1]] < |dl| && |done| == |freq|
    ensures l[k + 1] < |freq| ==> freq[l[k + 1]] > 0 && done[l[k + 1]] == 0
  {
    LabelTarget(l, fc, dl, done, freq, n, desc.maxLength, k);
  }

  lemma PassStep(l: seq<nat>, fc: seq<nat>, dl: seq<nat>, done: Lengths, freq: seq<nat>, desc: TreeDesc, n: nat, k: nat,
                 bl: seq<nat>, overflow: int)
    requires ValidDesc(desc) && |freq| == desc.elems
    requires Listing(l, fc, freq, n) && PassState(l, dl, done, freq, desc, n, k, bl, overflow) && k < 2 * n - 2
    requires |l| == 2 * n - 1 && l[k + 1] < |freq| + n - 1 <= |dl| && dl[l[k + 1]] < |dl| && |done| == |freq|
    ensures var bits := dl[dl[l[k + 1]]] + 1;
            var v := Clip(bits, desc.maxLength);
            1 <= v <= MAX_BITS && |bl| == MAX_BITS + 1 &&
            PassState(l, dl[l[k + 1] := v], Marked(l, done, k, v), freq, desc, n, k + 1,
                      if l[k + 1] < |freq| then bl[v := bl[v] + 1] else bl,
                      if bits > desc.maxLength then overflow + 1 else overflow)
  {
    hide Listing, Labelling, Counted, Clipped, Sum;
    var m := desc.maxLength;
    var x := l[k + 1];
    var v := Clip(dl[dl[x]] + 1, m);
    LabelTarget(l, fc, dl, done, freq, n, m, k);
    LabellingStep(l, fc, dl, done, freq, n, m, k);
    ClippedStep(l, fc, dl, freq, n, m, k, v);
    LabelBound(l, fc, dl, done, freq, n, m, k);
    assert |bl| == MAX_BITS + 1 by { CountedSize(bl, done); }
    if x < |freq| {
      CountedStep(bl, done, x, v);
    }
  }

  lemma CountedSize(bl: seq<nat>, done: Lengths)
    requires Counted(bl, done)
    ensures |bl| == MAX_BITS + 1 && bl[0] == 0
  {
  }

  /** The father of the next node is labelled, so its label does not exceed the limit. */
  lemma LabelBound(l: seq<nat>, fc: seq<nat>, dl: seq<nat>, done: Lengths, freq: seq<nat>, n: nat, m: nat, k: nat)
    requires Listing(l, fc, freq, n) && Labelling(l, dl, done, freq, n, m, k) && k < 2 * n - 2
    ensures Father(|freq|, n, k) < |dl| && dl[Father(|freq|, n, k)] <= m
  {
    hide Used, SonsAt;
    var q := FatherEarlier(l, fc, freq, n, k);
    if q > 0 {
      assert LabelIs(l, dl, |freq|, n, m, q - 1);
    }
  }

  lemma PassStart(l: seq<nat>, fc: seq<nat>, dl: seq<nat>, freq: seq<nat>, desc: TreeDesc, n: nat, bl: seq<nat>)
    requires Listing(l, fc, freq, n) && FathersAre(l, dl, |freq|, n) && |dl| == |fc|
    requires forall i :: 0 <= i < |freq| && freq[i] == 0 ==> dl[i] == 0
    requires bl == seq(MAX_BITS + 1, i => 0)
    ensures PassState(l, dl[l[0] := 0], seq(|freq|, i => 0), freq, desc, n, 0, bl, 0)
  {
    hide Used, SonsAt;
    var done := seq(|freq|, i => 0);
    var dl' := dl[l[0] := 0];
    forall i | 0 <= i < 2 * n - 2 ensures FatherIs(l, dl', |freq|, n, i) && NotDone(l, done, i) {
      RootIsNot(l, fc, freq, n, i);
      assert FatherIs(l, dl, |freq|, n, i);
    }
    forall b | 1 <= b <= MAX_BITS ensures bl[b] == Count(done, b) {
      CountZeros(|freq|, b);
    }
  }

  lemma {:induction false} CountZeros(n: nat, b: nat)
    requires b > 0
    ensures Count(seq(n, i => 0), b) == 0
  {
    if n > 0 {
      assert seq(n, i => 0)[..n - 1] == seq(n - 1, i => 0);
      CountZeros(n - 1, b);
    }
  }

  ghost function FixedTotal(freq: seq<nat>, done: Lengths, fixed: seq<CtData>, useFixed: bool, desc: TreeDesc): int
    requires ValidDesc(desc) && |freq| == |done| == desc.elems && (useFixed ==> |fixed| >= desc.elems)
  {
    if useFixed then Sum(FixedCosts(freq, done, Dads(fixed), desc)) else 0
  }

  method ClearCounts(blCount: array<nat>)
    requires blCount.Length == MAX_BITS + 1
    modifies blCount
    ensures blCount[..] == seq(MAX_BITS + 1, i => 0)
  {
    var bits := 0;
    while bits < blCount.Length
      invariant 0 <= bits <= blCount.Length
      invariant forall i :: 0 <= i < bits ==> blCount[i] == 0
    {
      blCount[bits] := 0;
      bits := bits + 1;
    }
  }

  method FirstPass(tree: array<CtData>, heap: array<nat>, heapMax: nat, maxCode: nat, desc: TreeDesc,
                   blCount: array<nat>, fixed: array?<CtData>, optLen0: int, staticLen0: int,
                   ghost freq: seq<nat>, ghost n: nat)
    returns (overflow: int, optLen: int, staticLen: int, ghost done: Lengths)
    requires heap != blCount && blCount.Length == MAX_BITS + 1
    requires ValidDesc(desc) && |freq| == desc.elems && maxCode < desc.elems
    requires TreeListed(heap[..], tree[..], freq, heapMax, n)
    requires forall i :: 0 <= i < |freq| && freq[i] == 0 ==> tree[i].dl == 0
    requires forall i :: maxCode < i < |freq| ==> freq[i] == 0
    requires fixed != null ==> fixed != tree && fixed.Length >= desc.elems
    modifies tree, blCount
    ensures Freqs(tree[..]) == old(Freqs(tree[..]))
    ensures heapMax <= HEAP_SIZE == heap.Length && PassState(heap[heapMax..], Dads(tree[..]), done, freq, desc, n, 2 * n - 2, blCount[..], overflow)
    ensures optLen == optLen0 + Sum(Costs(freq, done, desc))
    ensures staticLen == staticLen0 + FixedTotal(freq, done, if fixed == null then [] else fixed[..], fixed != null, desc)
  {
    hide Listing, Sum, Costs, FixedCosts, PassState;
    ghost var l := heap[heapMax..];
    ghost var fc := Freqs(tree[..]);
    ListingOf(heap[..], tree[..], freq, heapMax, n);
    ListingSize(l, fc, freq, n);
    ClearCounts(blCount);
    PassStart(l, fc, Dads(tree[..]), freq, desc, n, blCount[..]);
    ghost var t0 := tree[..];
    tree[heap[heapMax]] := tree[heap[heapMax]].(dl := 0);
    assert Dads(tree[..]) == Dads(t0)[l[0] := 0];
    done := seq(|freq|, i => 0);
    optLen, staticLen, overflow := optLen0, staticLen0, 0;
    NoCosts(freq, if fixed == null then [] else fixed[..], fixed != null, desc);
    var h := heapMax + 1;
    while h < HEAP_SIZE
      invariant heapMax + 1 <= h <= HEAP_SIZE && |done| == |freq|
      invariant Freqs(tree[..]) == fc
      invariant PassState(l, Dads(tree[..]), done, freq, desc, n, h - heapMax - 1, blCount[..], overflow)
      invariant optLen == optLen0 + Sum(Costs(freq, done, desc))
      invariant staticLen == staticLen0 + FixedTotal(freq, done, if fixed == null then [] else fixed[..], fixed != null, desc)
    {
      ghost var k := h - heapMax - 1;
      overflow, optLen, staticLen, done := Visit(tree, heap, heapMax, h, maxCode, desc, blCount, fixed, overflow, optLen, staticLen, freq, n, done);
      h := h + 1;
    }
  }

  lemma ListingSize(l: seq<nat>, fc: seq<nat>, freq: seq<nat>, n: nat)
    requires Listing(l, fc, freq, n)
    ensures n >= 2 && |l| == 2 * n - 1 && l[0] == |freq| + n - 2 < |fc|
  {
  }

  lemma NoCosts(freq: seq<nat>, fixed: seq<CtData>, useFixed: bool, desc: TreeDesc)
    requires ValidDesc(desc) && |freq| == desc.elems && (useFixed ==> |fixed| >= desc.elems)
    ensures Sum(Costs(freq, seq(|freq|, i => 0), desc)) == 0
    ensures FixedTotal(freq, seq(|freq|, i => 0), fixed, useFixed, desc) == 0
  {
    var z := seq(|freq|, i => 0);
    SumZero(Costs(freq, z, desc));
    if useFixed {
      SumZero(FixedCosts(freq, z, Dads(fixed), desc));
    }
  }

  /** The loop body for the node in slot `h`. */
  method Visit(tree: array<CtData>, heap: array<nat>, heapMax: nat, h: nat, maxCode: nat, desc: TreeDesc,
               blCount: array<nat>, fixed: array?<CtData>, overflow0: int, optLen0: int, staticLen0: int,
               ghost freq: seq<nat>, ghost n: nat, ghost done0: Lengths)
    returns (overflow: int, optLen: int, staticLen: int, ghost done: Lengths)
    requires heap != blCount && heap.Length == HEAP_SIZE && blCount.Length == MAX_BITS + 1
    requires ValidDesc(desc) && |freq| == |done0| == desc.elems && maxCode < desc.elems
    requires forall i :: maxCode < i < |freq| ==> freq[i] == 0
    requires fixed != null ==> fixed != tree && fixed.Length >= desc.elems
    requires heapMax < h < HEAP_SIZE && h - heapMax - 1 < 2 * n - 2
    requires Listing(heap[heapMax..], Freqs(tree[..]), freq, n)
    requires PassState(heap[heapMax..], Dads(tree[..]), done0, freq, desc, n, h - heapMax - 1, blCount[..], overflow0)
    modifies tree, blCount
    ensures Freqs(tree[..]) == old(Freqs(tree[..]))
    ensures |done| == |freq|
    ensures PassState(heap[heapMax..], Dads(tree[..]), done, freq, desc, n, h - heapMax, blCount[..], overflow)
    ensures optLen - Sum(Costs(freq, done, desc)) == optLen0 - Sum(Costs(freq, done0, desc))
    ensures staticLen - FixedTotal(freq, done, if fixed == null then [] else fixed[..], fixed != null, desc)
         == staticLen0 - FixedTotal(freq, done0, if fixed == null then [] else fixed[..], fixed != null, desc)
  {
    hide Listing, Sum, Costs, FixedCosts, PassState, ValidDesc;
    ghost var l, fc, t0 := heap[heapMax..], Freqs(tree[..]), tree[..];
    ghost var k := h - heapMax - 1;
    PassTarget(l, fc, Dads(t0), done0, freq, desc, n, k, blCount[..], overflow0);
    PassStep(l, fc, Dads(t0), done0, freq, desc, n, k, blCount[..], overflow0);
    overflow, optLen, staticLen := overflow0, optLen0, staticLen0;
    var x := heap[h];
    assert x == l[k + 1];
    var bits := tree[tree[x].dl].dl + 1;
    if bits > desc.maxLength {
      bits := desc.maxLength;
      overflow := overflow + 1;
    }
    done := Marked(l, done0, k, bits);
    tree[x] := tree[x].(dl := bits);
    assert Dads(tree[..]) == Dads(t0)[x := bits];
    assert Freqs(tree[..]) == fc;
    if x > maxCode {
      return;
    }
    ghost var bl := blCount[..];
    blCount[bits] := blCount[bits] + 1;
    assert blCount[..] == bl[bits := bl[bits] + 1];
    var xbits := Extra(desc, x);
    ListingFreq(l, fc, freq, n, x);
    optLen := optLen + Price(tree[x].fc, bits, xbits);
    CostUpdate(freq, done0, desc, x, bits);
    if fixed != null {
      staticLen := staticLen + Price(tree[x].fc, fixed[x].dl, xbits);
      FixedCostUpdate(freq, done0, Dads(fixed[..]), desc, x, bits);
    }
  }

  lemma ListingFreq(l: seq<nat>, fc: seq<nat>, freq: seq<nat>, n: nat, x: nat)
    requires Listing(l, fc, freq, n) && x < |freq|
    ensures x < |fc| && fc[x] == freq[x]
  {
  }
}
