/** UPDATE_HASH: the rolling hash of three bytes that selects a hash chain. */
module RollingHash {
  import opened Arith

  const HASH_SIZE: nat := 8192
  /** H_SHIFT is 5, so a byte leaves the 13 bits after three updates. */
  const H_STEP: nat := 32

  function UpdateHash(h: nat, c: Byte): (r: nat)
    ensures r < HASH_SIZE
  {
    BitXor(h * H_STEP, c) % HASH_SIZE
  }

  function Hash3(a: Byte, b: Byte, c: Byte): (r: nat)
    ensures r < HASH_SIZE
  {
    UpdateHash(UpdateHash(UpdateHash(0, a), b), c)
  }

  lemma XorLow(x: nat, y: nat, c: nat, k: nat)
    requires x % Pow2(k) == y % Pow2(k)
    ensures BitXor(x, c) % Pow2(k) == BitXor(y, c) % Pow2(k)
  {
    BitXorMod(x, c, k);
    BitXorMod(y, c, k);
  }

  lemma ShiftLow(h: nat, g: nat)
    requires h % 256 == g % 256
    ensures h * H_STEP % 8192 == g * H_STEP % 8192
  {
    ModMul(h, 32, 256);
    ModMul(g, 32, 256);
  }

  lemma ShiftLower(h: nat, g: nat)
    requires h % 8 == g % 8
    ensures h * H_STEP % 256 == g * H_STEP % 256
  {
    ModMul(h, 32, 8);
    ModMul(g, 32, 8);
  }

  /** Only the low eight bits of the old hash take part in the new one. */
  lemma UpdateDependsOnLow(h: nat, g: nat, c: Byte)
    requires h % 256 == g % 256
    ensures UpdateHash(h, c) == UpdateHash(g, c)
  {
    hide BitXor;
    Pow2Thirteen();
    ShiftLow(h, g);
    XorLow(h * H_STEP, g * H_STEP, c, 13);
  }

  lemma Pow2Thirteen()
    ensures Pow2(13) == 8192 && Pow2(8) == 256 && Pow2(5) == 32 && Pow2(3) == 8
  {
    Pow2Values();
    Pow2Of8();
    Pow2Add(8, 5);
  }

  lemma LowOfUpdate(h: nat, c: Byte)
    ensures UpdateHash(h, c) % 256 == BitXor(h * H_STEP, c) % 256
    ensures UpdateHash(h, c) % 8 == BitXor(h * H_STEP, c) % 8
  {
    hide BitXor;
    var v := BitXor(h * H_STEP, c);
    assert v % 8192 % 256 == v % 256;
    assert v % 8192 % 8 == v % 8;
  }

  /** After two updates the start no longer matters for the low eight bits. */
  lemma TwoUpdates(h: nat, g: nat, a: Byte, b: Byte)
    ensures UpdateHash(UpdateHash(h, a), b) % 256 == UpdateHash(UpdateHash(g, a), b) % 256
  {
    hide BitXor, UpdateHash;
    Pow2Thirteen();
    LowOfUpdate(h, a);
    LowOfUpdate(g, a);
    assert h * H_STEP % 8 == 0 && g * H_STEP % 8 == 0;
    XorLow(h * H_STEP, g * H_STEP, a, 3);
    var x, y := UpdateHash(h, a), UpdateHash(g, a);
    LowOfUpdate(x, b);
    LowOfUpdate(y, b);
    ShiftLower(x, y);
    XorLow(x * H_STEP, y * H_STEP, b, 8);
  }

  /** The running key before the string at some place: its low bits come from the first two bytes. */
  predicate Rolling(h: nat, a: Byte, b: Byte)
  {
    h % 256 == UpdateHash(UpdateHash(0, a), b) % 256
  }

  /** Inserting a string updates the running key to the hash of its three bytes. */
  lemma RollForward(h: nat, a: Byte, b: Byte, c: Byte)
    requires Rolling(h, a, b)
    ensures UpdateHash(h, c) == Hash3(a, b, c)
    ensures Rolling(UpdateHash(h, c), b, c)
  {
    hide UpdateHash;
    UpdateDependsOnLow(h, UpdateHash(UpdateHash(0, a), b), c);
    TwoUpdates(UpdateHash(0, a), 0, b, c);
  }

  /** Equal hashes and two equal bytes leave no choice for the third: why it need not be compared. */
  lemma ThirdByte(a: Byte, b: Byte, c: Byte, d: Byte)
    requires Hash3(a, b, c) == Hash3(a, b, d)
    ensures c == d
  {
    hide BitXor, UpdateHash, Pow2;
    var h := UpdateHash(UpdateHash(0, a), b);
    SameUpdate(h, c, d);
  }

  lemma SameUpdate(h: nat, c: Byte, d: Byte)
    requires UpdateHash(h, c) == UpdateHash(h, d)
    ensures c == d
  {
    hide BitXor, Pow2;
    Pow2Thirteen();
    var x := h * H_STEP % 8192;
    BitXorMod(h * H_STEP, c, 13);
    BitXorMod(h * H_STEP, d, 13);
    BitXorCancel(x, c, d);
  }
}
