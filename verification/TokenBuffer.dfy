/** The buffers l_buf, d_buf and flag_buf that hold the tokens of the current block. */
module TokenBuffer {
  import opened Arith
  import opened Bits
  import opened MatchCodes
  import opened Tokens

  const LIT_BUFSIZE: nat := 0x2000
  const DIST_BUFSIZE: nat := 0x2000

  /** One flag per token: is it a match? */
  function FlagBits(toks: seq<Token>): (r: BitString)
    ensures |r| == |toks|
  {
    seq(|toks|, i requires 0 <= i < |toks| => toks[i].Pair?)
  }

  /** Number of matches among the tokens. */
  function Pairs(toks: seq<Token>): (r: nat)
    ensures r <= |toks|
  {
    if toks == [] then 0 else Pairs(toks[..|toks| - 1]) + (if toks[|toks| - 1].Pair? then 1 else 0)
  }

  /** Tokens 8k up to at most 8k + 7. */
  function Group(toks: seq<Token>, k: nat): seq<Token>
    requires 8 * k <= |toks|
  {
    if |toks| <= 8 * k + 8 then toks[8 * k..] else toks[8 * k..8 * k + 8]
  }

  function FlagByte(toks: seq<Token>, k: nat): nat
    requires 8 * k <= |toks|
  {
    LsbValue(FlagBits(Group(toks, k)))
  }

  ghost predicate Entry(lBuf: seq<Byte>, dBuf: seq<nat>, toks: seq<Token>, i: nat)
    requires i < |toks|
  {
    && i < |lBuf| && Proper(toks[i])
    && match toks[i]
       case Literal(x) => lBuf[i] == x
       case Pair(dist, len) =>
         lBuf[i] == len - MIN_MATCH && Pairs(toks[..i]) < |dBuf| && dBuf[Pairs(toks[..i])] == dist - 1
  }

  ghost predicate HoldsTokens(lBuf: seq<Byte>, dBuf: seq<nat>, toks: seq<Token>)
  {
    forall i :: 0 <= i < |toks| ==> Entry(lBuf, dBuf, toks, i)
  }

  /** The flag bytes of all finished groups. */
  ghost predicate HoldsFlags(flagBuf: seq<Byte>, toks: seq<Token>)
  {
    |toks| / 8 <= |flagBuf| && forall k :: 0 <= k < |toks| / 8 ==> flagBuf[k] == FlagByte(toks, k)
  }

  /** The flag bytes of all groups, including an unfinished last one. */
  ghost predicate FlagsSaved(flagBuf: seq<Byte>, toks: seq<Token>)
  {
    forall k :: 0 <= k && 8 * k <= |toks| ==> k < |flagBuf| && flagBuf[k] == FlagByte(toks, k)
  }

  lemma LastFlagBound(toks: seq<Token>)
    ensures FlagByte(toks, |toks| / 8) < 256
  {
    FlagAppend(toks, Literal(0));
    Pow2Mono(|toks| % 8, 8);
    Pow2Of8();
  }

  lemma {:induction false} LsbValueSnoc(b: BitString, x: bool)
    ensures LsbValue(b + [x]) == LsbValue(b) + (if x then Pow2(|b|) else 0)
  {
    if b == [] {
      assert [x][1..] == [];
    } else {
      assert (b + [x])[1..] == b[1..] + [x];
      LsbValueSnoc(b[1..], x);
    }
  }

  lemma {:induction false} LsbValueBound(b: BitString)
    ensures LsbValue(b) < Pow2(|b|)
  {
    if b != [] {
      LsbValueBound(b[1..]);
    }
  }

  class Buffer {
    const lBuf: array<Byte>
    const dBuf: array<nat>
    const flagBuf: array<Byte>
    var lastLit: nat
    var lastDist: nat
    var lastFlags: nat
    var flags: nat
    var flagBit: nat
    ghost var toks: seq<Token>

    /** The buffers hold the tokens; flags of the last, unfinished group are in `flags`. */
    ghost predicate Valid()
      reads this, lBuf, dBuf, flagBuf
    {
      && lBuf.Length == LIT_BUFSIZE && dBuf.Length == DIST_BUFSIZE && flagBuf.Length == LIT_BUFSIZE / 8
      && lBuf != flagBuf
      && lastLit == |toks| < LIT_BUFSIZE && lastDist == Pairs(toks) && lastFlags == lastLit / 8
      && HoldsTokens(lBuf[..], dBuf[..], toks)
      && HoldsFlags(flagBuf[..], toks)
      && flags == FlagByte(toks, lastFlags) && flagBit == Pow2(lastLit % 8)
    }

    constructor ()
      ensures Valid() && fresh(lBuf) && fresh(dBuf) && fresh(flagBuf) && toks == []
    {
      lBuf := new Byte[LIT_BUFSIZE];
      dBuf := new nat[DIST_BUFSIZE];
      flagBuf := new Byte[LIT_BUFSIZE / 8];
      lastLit, lastDist, lastFlags, flags, flagBit := 0, 0, 0, 0, 1;
      toks := [];
    }

    /** The part of init_block that concerns the buffers. */
    method Clear()
      requires Valid()
      modifies this
      ensures Valid() && toks == []
    {
      lastLit, lastDist, lastFlags, flags, flagBit := 0, 0, 0, 0, 1;
      toks := [];
    }

    /** flush_block first saves the flags of the last items. */
    method SaveFlags()
      requires Valid()
      modifies flagBuf
      ensures Valid() && FlagsSaved(flagBuf[..], toks)
    {
      hide FlagByte, HoldsTokens;
      ghost var f0 := flagBuf[..];
      LastFlagBound(toks);
      flagBuf[lastFlags] := flags;
      ghost var fb: Byte := flags;
      assert flagBuf[..] == f0[lastFlags := fb];
      assert HoldsFlags(flagBuf[..], toks);
    }

    /** The part of ct_tally that stores the token; `dist` is 0 for a literal. */
    method Add(dist: nat, lc: Byte)
      requires Valid() && |toks| + 1 < LIT_BUFSIZE && dist <= 32768
      modifies this, lBuf, dBuf, flagBuf
      ensures Valid()
      ensures toks == old(toks) + [TokenOf(dist, lc)]
    {
      hide HoldsTokens, HoldsFlags, FlagByte, Pow2, Pairs;
      ghost var t := TokenOf(dist, lc);
      ghost var l0, d0 := lBuf[..], dBuf[..];
      PairsSnoc(toks, t);
      lBuf[lastLit] := lc;
      lastLit := lastLit + 1;
      if dist != 0 {
        dBuf[lastDist] := dist - 1;
        lastDist := lastDist + 1;
      }
      AddFlag(dist != 0, t);
      toks := toks + [t];
      StoreToken(l0, d0, old(toks), t, lBuf[..], dBuf[..]);
    }

    /** Record the flag of token `t`, which is about to join `toks`; write out a full byte of flags. */
    method AddFlag(isMatch: bool, ghost t: Token)
      requires flagBuf.Length == LIT_BUFSIZE / 8 && isMatch == t.Pair?
      requires lastLit == |toks| + 1 < LIT_BUFSIZE && lastFlags == |toks| / 8
      requires HoldsFlags(flagBuf[..], toks) && flags == FlagByte(toks, lastFlags) && flagBit == Pow2(|toks| % 8)
      modifies this`flags, this`flagBit, this`lastFlags, flagBuf
      ensures lastFlags == lastLit / 8
      ensures HoldsFlags(flagBuf[..], toks + [t])
      ensures flags == FlagByte(toks + [t], lastFlags) && flagBit == Pow2(lastLit % 8)
    {
      hide HoldsFlags, FlagByte, Pow2;
      ghost var f0 := flagBuf[..];
      FlagAppend(toks, t);
      StoreFlags(f0, toks, t);
      NextGroup(|toks|);
      if isMatch {
        FlagOr(flags, |toks| % 8);
        flags := BitOr(flags, flagBit);
      }
      flagBit := flagBit * 2 % 256;
      if lastLit % 8 == 0 {
        flagBuf[lastFlags] := flags;
        ghost var fb: Byte := flags;
        assert flagBuf[..] == f0[lastFlags := fb];
        lastFlags := lastFlags + 1;
        flags := 0;
        flagBit := 1;
      }
    }
  }

  lemma PairsSnoc(toks: seq<Token>, t: Token)
    ensures Pairs(toks + [t]) == Pairs(toks) + (if t.Pair? then 1 else 0)
  {
    assert (toks + [t])[..|toks|] == toks;
  }

  lemma PairsPrefix(toks: seq<Token>, i: nat, j: nat)
    requires i <= j <= |toks|
    ensures Pairs(toks[..i]) <= Pairs(toks[..j])
    ensures i < j && toks[i].Pair? ==> Pairs(toks[..i]) < Pairs(toks[..j])
    decreases j
  {
    if i < j {
      PairsPrefix(toks, i, j - 1);
      assert toks[..j] == toks[..j - 1] + [toks[j - 1]];
      PairsSnoc(toks[..j - 1], toks[j - 1]);
    }
  }

  /** `l2` and `d2` are the buffers after storing `t` behind `toks`. */
  ghost predicate Stores(l: seq<Byte>, d: seq<nat>, toks: seq<Token>, t: Token, l2: seq<Byte>, d2: seq<nat>)
  {
    && |toks| < |l| == |l2| && Pairs(toks) < |d| == |d2| && Proper(t)
    && l2 == l[|toks| := l2[|toks|]]
    && match t
       case Literal(x) => l2[|toks|] == x && d2 == d
       case Pair(dist, len) => l2[|toks|] == len - MIN_MATCH && d2 == d[Pairs(toks) := d2[Pairs(toks)]] && d2[Pairs(toks)] == dist - 1
  }

  lemma StoreToken(l: seq<Byte>, d: seq<nat>, toks: seq<Token>, t: Token, l2: seq<Byte>, d2: seq<nat>)
    requires Stores(l, d, toks, t, l2, d2) && HoldsTokens(l, d, toks)
    ensures HoldsTokens(l2, d2, toks + [t])
    ensures Pairs(toks + [t]) == Pairs(toks) + (if t.Pair? then 1 else 0)
  {
    hide Entry, Stores;
    PairsSnoc(toks, t);
    forall i | 0 <= i < |toks + [t]| ensures Entry(l2, d2, toks + [t], i) {
      if i < |toks| {
        KeepEntry(l, d, toks, t, l2, d2, i);
      } else {
        NewEntry(l, d, toks, t, l2, d2);
      }
    }
  }

  lemma NewEntry(l: seq<Byte>, d: seq<nat>, toks: seq<Token>, t: Token, l2: seq<Byte>, d2: seq<nat>)
    requires Stores(l, d, toks, t, l2, d2)
    ensures Entry(l2, d2, toks + [t], |toks|)
  {
    assert (toks + [t])[..|toks|] == toks;
  }

  lemma KeepEntry(l: seq<Byte>, d: seq<nat>, toks: seq<Token>, t: Token, l2: seq<Byte>, d2: seq<nat>, i: nat)
    requires Stores(l, d, toks, t, l2, d2) && i < |toks| && Entry(l, d, toks, i)
    ensures Entry(l2, d2, toks + [t], i)
  {
    assert (toks + [t])[..i] == toks[..i];
    assert toks[..|toks|] == toks;
    PairsPrefix(toks, i, |toks|);
  }

  lemma StoreFlags(f: seq<Byte>, toks: seq<Token>, t: Token)
    requires HoldsFlags(f, toks) && FlagByte(toks + [t], |toks| / 8) < 256
    ensures (|toks| + 1) % 8 != 0 ==> HoldsFlags(f, toks + [t])
    ensures (|toks| + 1) % 8 == 0 && |toks| / 8 < |f| ==>
              HoldsFlags(f[|toks| / 8 := FlagByte(toks + [t], |toks| / 8)], toks + [t])
  {
    hide FlagByte;
    FlagAppend(toks, t);
  }

  lemma FlagGroup(toks: seq<Token>, t: Token, k: nat)
    requires 8 * k <= |toks|
    ensures k < |toks| / 8 ==> Group(toks + [t], k) == Group(toks, k)
    ensures k == |toks| / 8 ==> Group(toks + [t], k) == Group(toks, k) + [t] && |Group(toks, k)| == |toks| % 8
  {
    if k < |toks| / 8 {
      assert |toks| >= 8 * k + 8;
      assert (toks + [t])[8 * k..8 * k + 8] == toks[8 * k..8 * k + 8];
      assert |toks| == 8 * k + 8 ==> toks[8 * k..8 * k + 8] == toks[8 * k..];
    } else if k == |toks| / 8 {
      assert (toks + [t])[8 * k..] == toks[8 * k..] + [t];
      assert |toks| + 1 == 8 * k + 8 ==> (toks + [t])[8 * k..8 * k + 8] == (toks + [t])[8 * k..];
    }
  }

  lemma FlagAppend(toks: seq<Token>, t: Token)
    ensures forall k :: 0 <= k < |toks| / 8 ==> FlagByte(toks + [t], k) == FlagByte(toks, k)
    ensures var k, m := |toks| / 8, |toks| % 8;
            && FlagByte(toks, k) < Pow2(m) && FlagByte(toks + [t], k) == FlagByte(toks, k) + (if t.Pair? then Pow2(m) else 0)
            && FlagByte(toks + [t], k) < 256
            && (m == 7 ==> FlagByte(toks + [t], k + 1) == 0)
            && (m < 7 ==> Pow2(m) * 2 % 256 == Pow2(m + 1)) && Pow2(0) == 1
  {
    hide Group;
    var k, m := |toks| / 8, |toks| % 8;
    forall j | 0 <= j < k ensures FlagByte(toks + [t], j) == FlagByte(toks, j) {
      FlagGroup(toks, t, j);
    }
    FlagGroup(toks, t, k);
    var g := Group(toks, k);
    assert FlagBits(g + [t]) == FlagBits(g) + [t.Pair?];
    LsbValueSnoc(FlagBits(g), t.Pair?);
    LsbValueBound(FlagBits(g));
    LsbValueBound(FlagBits(g + [t]));
    if m == 7 {
      EmptyGroup(toks + [t], k + 1);
    }
    Pow2Mono(m + 1, 8);
    Pow2Of8();
    Pow2Below(m);
  }

  /** How the numbers of the last group and of its tokens move on. */
  lemma NextGroup(n: nat)
    ensures n % 8 == 7 ==> (n + 1) % 8 == 0 && (n + 1) / 8 == n / 8 + 1
    ensures n % 8 < 7 ==> (n + 1) % 8 == n % 8 + 1 && (n + 1) / 8 == n / 8
    ensures n < LIT_BUFSIZE ==> n / 8 < LIT_BUFSIZE / 8
  {
  }

  lemma Pow2Below(m: nat)
    requires m < 8
    ensures m < 7 ==> Pow2(m) * 2 % 256 == Pow2(m + 1)
    ensures Pow2(0) == 1
  {
    Pow2Mono(m + 1, 8);
    if m < 7 {
      Pow2Strict(m + 1, 8);
    }
    Pow2Of8();
  }

  lemma EmptyGroup(toks: seq<Token>, k: nat)
    requires 8 * k == |toks|
    ensures FlagByte(toks, k) == 0
  {
    assert Group(toks, k) == [];
    assert FlagBits([]) == [];
  }

  lemma FlagOr(flags: nat, m: nat)
    requires flags < Pow2(m)
    ensures BitOr(flags, Pow2(m)) == flags + Pow2(m)
  {
    BitOrDisjoint(flags, 1, m);
  }
}
