/**
 * The 32-bit varint reader on what pb_encode_varint writes: exactly when it agrees with the 64-bit
 * reader modulo 2^32, and that it reports an overflow otherwise.
 */
module VarintFast {
  import opened Bits
  import opened Varint

  // ----- the groups of a number

  /** `v` without its `j` lowest groups of seven bits. */
  function Shift(v: nat, j: nat): nat {
    if j == 0 then v else Shift(v / 128, j - 1)
  }

  /** The group of seven bits of `v` at bit position 7 * j. */
  function Group(v: nat, j: nat): nat {
    Shift(v, j) % 128
  }

  /** The number made of the `j` lowest groups of `v`. */
  function Low(v: nat, j: nat): nat {
    if j == 0 then 0 else v % 128 + 128 * Low(v / 128, j - 1)
  }

  lemma {:induction false} ShiftStep(v: nat, j: nat)
    ensures Shift(v, j + 1) == Shift(v, j) / 128
  {
    if j > 0 { ShiftStep(v / 128, j - 1); }
  }

  lemma {:induction false} LowStep(v: nat, j: nat)
    ensures Low(v, j + 1) == Low(v, j) + Shl(Group(v, j), 7 * j)
  {
    if j > 0 {
      LowStep(v / 128, j - 1);
      ShlTwice(Group(v, j), 7 * (j - 1), 7);
      ShlBy7(Shl(Group(v, j), 7 * (j - 1)));
    }
  }

  lemma {:induction false} Decompose(v: nat, j: nat)
    ensures v == Low(v, j) + Shl(Shift(v, j), 7 * j)
    ensures Low(v, j) < Shl(1, 7 * j)
  {
    if j > 0 {
      Decompose(v / 128, j - 1);
      ShlTwice(Shift(v, j), 7 * (j - 1), 7);
      ShlBy7(Shl(Shift(v, j), 7 * (j - 1)));
      ShlTwice(1, 7 * (j - 1), 7);
      ShlBy7(Shl(1, 7 * (j - 1)));
    }
  }

  // ----- what the reader makes of a number

  /** A group that the reader lets through beyond bit 32. */
  predicate Neutral(g: nat) {
    g == 0 || g == 127
  }

  /**
   * The 64-bit values of ten bytes that the 32-bit reader takes for negative numbers: bit 31 is set, and
   * so are either all or none of the bits of each group from bit 35 on. Bits 32 to 34 are free: they lie
   * in the group at bit 28, which is checked only when it is the last one.
   */
  predicate PassesAsNegative(v: nat) {
    v >= TWO63 && Group(v, 4) / 8 % 2 == 1 && NeutralFrom(v, 5)
  }

  /** So are the groups from `j` on, up to the one that holds bit 62. */
  predicate NeutralFrom(v: nat, j: nat) {
    forall k | j <= k <= 8 :: Neutral(Group(v, k))
  }

  /** What the 32-bit reader makes of the encoding of `v`. */
  function Read32(v: nat, rest: seq<byte>): Parse<nat> {
    if v < TWO32 || PassesAsNegative(v) then Ok(v % 0x1_0000_0000, rest) else Fail
  }

  /** The bytes of a number from a group on. */
  lemma EncodedStep(w: nat, rest: seq<byte>)
    ensures var e := EncVarint(w) + rest;
            e != [] && e[0] % 128 == w % 128 && (e[0] >= 128 <==> w >= 128) && (w < 128 ==> e[0] == w)
            && e[1..] == if w < 128 then rest else EncVarint(w / 128) + rest
  {
  }

  /** The reader's loop body below bit 28. */
  lemma ReadLow(s: seq<byte>, bitpos: nat, result: nat)
    requires s != [] && bitpos < 28 && result < TWO32
    requires BitOr(result, Shl(s[0] % 128, bitpos) % 0x1_0000_0000) == result + Shl(s[0] % 128, bitpos) < TWO32
    ensures Varint32From(s, bitpos, result)
         == (var result' := result + Shl(s[0] % 128, bitpos);
             if s[0] < 128 then Ok(result', s[1..]) else Varint32From(s[1..], bitpos + 7, result'))
  {
    var result' := BitOr(result, Shl(s[0] % 128, bitpos) % 0x1_0000_0000);
    assert (bitpos + 7) % 256 == bitpos + 7 != 35;
    assert Varint32From(s, bitpos, result)
        == if s[0] < 128 then Ok(result', s[1..]) else Varint32From(s[1..], bitpos + 7, result');
  }

  lemma SmallMod(x: nat)
    requires x < 0x1_0000_0000
    ensures x % 0x1_0000_0000 == x
  {
  }

  /** A group below bit 28 is collected. */
  lemma CollectGroup(v: nat, j: nat, rest: seq<byte>)
    requires 1 <= j <= 3 && Shift(v, j) > 0
    ensures Low(v, j) < TWO32 && Low(v, j + 1) < TWO32
    ensures Varint32From(EncVarint(Shift(v, j)) + rest, 7 * j, Low(v, j))
         == if Shift(v, j) < 128 then Ok(Low(v, j + 1), rest)
            else Varint32From(EncVarint(Shift(v, j + 1)) + rest, 7 * (j + 1), Low(v, j + 1))
  {
    var w := Shift(v, j);
    CollectLow(v, j);
    EncodedStep(w, rest);
    ReadLow(EncVarint(w) + rest, 7 * j, Low(v, j));
    ShiftStep(v, j);
  }

  /** The last group completes the number. */
  lemma LowIsAll(v: nat, j: nat)
    requires Shift(v, j) < 128
    ensures Low(v, j + 1) == v
  {
    ShiftStep(v, j);
    Decompose(v, j + 1);
    ShlZero(7 * (j + 1));
  }

  /** From the groups below bit 28 on. */
  lemma FromLow(v: nat, j: nat, rest: seq<byte>)
    requires v < TWO64 && 1 <= j <= 3 && Shift(v, j) > 0
    ensures Low(v, j) < TWO32
    ensures Varint32From(EncVarint(Shift(v, j)) + rest, 7 * j, Low(v, j)) == Read32(v, rest)
    decreases 4 - j
  {
    CollectGroup(v, j, rest);
    if Shift(v, j) < 128 {
      LowIsAll(v, j);
      SmallMod(v);
    } else {
      ShiftStep(v, j);
      if j < 3 { FromLow(v, j + 1, rest); } else { FromMiddle(v, rest); }
    }
  }

  lemma {:induction false} ShlZero(k: nat)
    ensures Shl(0, k) == 0
  {
    if k > 0 { ShlZero(k - 1); }
  }

  lemma CollectLow(v: nat, j: nat)
    requires 1 <= j <= 3
    ensures Low(v, j) < TWO32
    ensures BitOr(Low(v, j), Shl(Group(v, j), 7 * j) % 0x1_0000_0000)
         == Low(v, j) + Shl(Group(v, j), 7 * j) == Low(v, j + 1) < TWO32
  {
    LowStep(v, j);
    Decompose(v, j);
    Decompose(v, j + 1);
    ShlFarther(1, 7 * j, 28);
    ShlFarther(1, 7 * (j + 1), 28);
    ShlBy28(1);
    BitOrDisjoint(Low(v, j), Group(v, j), 7 * j);
    SmallMod(Shl(Group(v, j), 7 * j));
  }

  /** The group at bit 28: four bits are kept, and the rest is checked only if it ends the number. */
  lemma FromMiddle(v: nat, rest: seq<byte>)
    requires v < TWO64 && Shift(v, 4) > 0
    ensures Low(v, 4) < TWO32
    ensures Varint32From(EncVarint(Shift(v, 4)) + rest, 28, Low(v, 4)) == Read32(v, rest)
  {
    var w, low := Shift(v, 4), Low(v, 4);
    Decompose(v, 4);
    ShlBy28(1);
    ShlBy28(w);
    CutAt32(low, w);
    ShiftStep(v, 4);
    var result := v % 0x1_0000_0000;
    EncodedStep(w, rest);
    assert Varint32From(EncVarint(w) + rest, 28, low)
        == if w < 16 then Ok(result, rest)
           else if w < 128 then Fail
           else Varint32From(EncVarint(w / 128) + rest, 35, result) by {
      MiddleStep(w, rest, low, result);
    }
    if w >= 128 {
      FromHigh(v, rest);
    } else {
      Decompose(v, 9);
      ShlBy63(Shift(v, 9));
      assert v < TWO63;
    }
  }

  /** Cutting the group at bit 28 to 32 bits. */
  lemma CutAt32(low: nat, w: nat)
    requires low < 0x1000_0000
    ensures (low + 0x1000_0000 * w) % 0x1_0000_0000 == low + 0x1000_0000 * (w % 16)
  {
  }

  lemma MiddleStep(w: nat, rest: seq<byte>, low: nat, result: nat)
    requires low < 0x1000_0000 && result == low + 0x1000_0000 * (w % 16)
    ensures result < TWO32
    ensures Varint32From(EncVarint(w) + rest, 28, low)
         == if w < 16 then Ok(result, rest)
            else if w < 128 then Fail
            else Varint32From(EncVarint(w / 128) + rest, 35, result)
  {
    EncodedStep(w, rest);
    MiddleOr(w, low);
    ReadMiddle(EncVarint(w) + rest, low, result);
    UpperBitsOfGroup(w);
  }

  /** The reader's loop body at bit 28. */
  lemma ReadMiddle(s: seq<byte>, low: nat, result: nat)
    requires s != [] && low < TWO32 && result == BitOr(low, Shl(s[0] % 128, 28) % 0x1_0000_0000) < TWO32
    ensures Varint32From(s, 28, low)
         == if s[0] >= 128 then Varint32From(s[1..], 35, result)
            else if s[0] / 16 % 8 != 0 then Fail
            else Ok(result, s[1..])
  {
    var bitpos := 28;
    assert (bitpos + 7) % 256 == 35;
  }

  lemma UpperBitsOfGroup(w: nat)
    ensures w < 128 ==> (w / 16 % 8 == 0 <==> w < 16)
  {
  }

  lemma MiddleOr(w: nat, low: nat)
    requires low < 0x1000_0000
    ensures BitOr(low, Shl(w % 128, 28) % 0x1_0000_0000) == low + 0x1000_0000 * (w % 16)
  {
    NibbleOfGroup(w);
    var g := w % 128;
    var r := g % 16;
    assert Shl(g, 28) % 0x1_0000_0000 == 0x1000_0000 * r by {
      ShlBy28(g);
      CutAt32(0, g);
    }
    assert BitOr(low, 0x1000_0000 * r) == low + 0x1000_0000 * r by {
      ShlBy28(1);
      ShlBy28(r);
      BitOrDisjoint(low, r, 28);
    }
  }

  lemma RemainderOf16(q: nat, r: nat)
    requires r < 16
    ensures (16 * q + r) % 16 == r
  {
  }

  lemma BitThree(q: nat, r: nat)
    requires r < 16
    ensures (16 * q + r) / 8 == 2 * q + if r >= 8 then 1 else 0
  {
  }

  lemma NibbleOfGroup(w: nat)
    ensures w % 128 % 16 == w % 16
    ensures w % 128 / 8 % 2 == 1 <==> w % 16 >= 8
  {
    var q, g := w / 128, w % 128;
    var upper, lower := g / 16, g % 16;
    var rest := 8 * q + upper;
    assert w == 16 * rest + lower;
    RemainderOf16(rest, lower);
    BitThree(upper, lower);
  }

  /** Groups from bit 35 on must look like a sign extension. */
  lemma HighStep(w: nat, rest: seq<byte>, bitpos: nat, result: nat)
    requires bitpos in {35, 42, 49, 56} && result < TWO32 && w > 0
    ensures Varint32From(EncVarint(w) + rest, bitpos, result)
         == if w >= 128 && (w % 128 == 0 || (w % 128 == 127 && result >= TWO31))
            then Varint32From(EncVarint(w / 128) + rest, bitpos + 7, result)
            else Fail
  {
    EncodedStep(w, rest);
    assert result / 0x8000_0000 == 0 <==> result < TWO31;
  }

  /** The last group of a ten-byte number. */
  lemma TopStep(rest: seq<byte>, result: nat)
    requires result < TWO32
    ensures Varint32From(EncVarint(1) + rest, 63, result) == if result >= TWO31 then Ok(result, rest) else Fail
  {
  }

  lemma {:induction false} ShiftToZero(v: nat, j: nat, k: nat)
    requires j <= k && Shift(v, j) == 0
    ensures Shift(v, k) == 0
    decreases k
  {
    if j < k {
      ShiftToZero(v, j, k - 1);
      ShiftStep(v, k - 1);
    }
  }

  /** From group `j` on, once the 32 low bits have been collected as `result`. */
  lemma HighGroups(v: nat, j: nat, rest: seq<byte>, result: nat)
    requires v < TWO64 && 5 <= j <= 9 && Shift(v, j) > 0 && result < TWO32
    ensures Varint32From(EncVarint(Shift(v, j)) + rest, 7 * j, result)
         == if v >= TWO63 && NeutralFrom(v, j) && result >= TWO31 then Ok(result, rest) else Fail
    decreases 9 - j
  {
    TopGroup(v);
    if j == 9 {
      TopStep(rest, result);
    } else {
      HighStep(Shift(v, j), rest, 7 * j, result);
      ShiftStep(v, j);
      assert NeutralFrom(v, j) <==> Neutral(Group(v, j)) && NeutralFrom(v, j + 1);
      if Shift(v, j + 1) > 0 {
        HighGroups(v, j + 1, rest, result);
      } else {
        ShiftToZero(v, j + 1, 9);
      }
    }
  }

  /** The groups from bit 35 on of a number that is too long. */
  lemma FromHigh(v: nat, rest: seq<byte>)
    requires v < TWO64 && Shift(v, 5) > 0
    ensures Varint32From(EncVarint(Shift(v, 5)) + rest, 35, v % 0x1_0000_0000) == Read32(v, rest)
  {
    TooLong(v);
    HighGroups(v, 5, rest, v % 0x1_0000_0000);
  }

  lemma TooLong(v: nat)
    requires v < TWO64 && Shift(v, 5) > 0
    ensures v >= TWO32
    ensures if v >= TWO63 then Shift(v, 9) == 1 else Shift(v, 9) == 0
    ensures v % 0x1_0000_0000 >= TWO31 <==> Group(v, 4) / 8 % 2 == 1
  {
    TopGroup(v);
    BitThirtyOne(v);
    assert Shift(v, 4) >= 128 by { ShiftStep(v, 4); }
    Decompose(v, 4);
    ShlBy28(Shift(v, 4));
  }

  lemma TopGroup(v: nat)
    requires v < TWO64
    ensures if v >= TWO63 then Shift(v, 9) == 1 else Shift(v, 9) == 0
  {
    Decompose(v, 9);
    ShlBy63(1);
    ShlBy63(Shift(v, 9));
  }

  lemma BitThirtyOne(v: nat)
    ensures v % 0x1_0000_0000 >= TWO31 <==> Group(v, 4) / 8 % 2 == 1
  {
    var w := Shift(v, 4);
    Decompose(v, 4);
    ShlBy28(1);
    ShlBy28(w);
    CutAt32(Low(v, 4), w);
    NibbleOfGroup(w);
  }

  /**
   * Exactly what pb_decode_varint32 makes of a number written by pb_encode_varint: it returns the number
   * modulo 2^32 and consumes the same bytes if the number fits in 32 bits or passes as negative;
   * otherwise it fails.
   */
  lemma Varint32OfEncoded(v: nat, rest: seq<byte>)
    requires v < TWO64
    ensures Varint32(EncVarint(v) + rest)
         == if v < TWO32 || PassesAsNegative(v) then Ok(v % 0x1_0000_0000, rest) else Fail
  {
    EncodedStep(v, rest);
    if v < 128 {
      SmallMod(v);
    } else {
      assert Shift(v, 1) == v / 128;
      assert Low(v, 1) == v % 128;
      FromLow(v, 1, rest);
    }
  }

  /** Bits 35 to 63 are all ones. */
  lemma OnesFromBit35(v: nat)
    requires Shift(v, 5) == 0x1FFF_FFFF
    ensures NeutralFrom(v, 5)
  {
    ShiftStep(v, 5);
    ShiftStep(v, 6);
    ShiftStep(v, 7);
  }

  /** Sign extensions of 32-bit negative numbers pass. */
  lemma SignExtensionPasses(v: nat)
    requires TWO64 - TWO31 <= v < TWO64
    ensures PassesAsNegative(v)
  {
    var w := Shift(v, 4);
    assert 0xF_FFFF_FFF8 <= w <= 0xF_FFFF_FFFF by {
      Decompose(v, 4);
      ShlBy28(1);
      ShlBy28(w);
    }
    ShiftStep(v, 4);
    OnesFromBit35(v);
  }

  /** The fast reader refines the 64-bit one on 32-bit numbers and on sign-extended negative numbers. */
  lemma FastRefinesSlow(v: nat, rest: seq<byte>)
    requires v < TWO64
    ensures Varint64(EncVarint(v) + rest) == Ok(v, rest)
    ensures v < TWO32 || v >= TWO64 - TWO31 ==> Varint32(EncVarint(v) + rest) == Ok(v % 0x1_0000_0000, rest)
    ensures TWO32 <= v < TWO63 ==> Varint32(EncVarint(v) + rest) == Fail
  {
    Varint64OfEncoded(v, rest);
    Varint32OfEncoded(v, rest);
    if v >= TWO64 - TWO31 { SignExtensionPasses(v); }
  }

  /** Bits 32 to 34 are not checked: a ten-byte number that is no sign extension is read as -1. */
  lemma NotOnlySignExtensions()
    ensures var v := 0xFFFF_FFF8_FFFF_FFFF;
            v < TWO64 - TWO31 && Varint32(EncVarint(v)) == Ok(0xFFFF_FFFF, [])
  {
    var v := 0xFFFF_FFF8_FFFF_FFFF;
    assert PassesAsNegative(v) by {
      assert Shift(v, 4) == 0xF_FFFF_FF8F;
      ShiftStep(v, 4);
      OnesFromBit35(v);
    }
    Varint32OfEncoded(v, []);
    assert EncVarint(v) + [] == EncVarint(v);
  }

  function Padding(k: nat): seq<byte> {
    if k == 0 then [] else [0x80] + Padding(k - 1)
  }

  lemma ZeroGroup(s: seq<byte>, bitpos: nat, result: nat)
    requires bitpos < 256 && result < TWO32 && s != [] && s[0] == 0x80
    ensures Varint32From(s, bitpos, result) == Varint32From(s[1..], (bitpos + 7) % 256, result)
  {
    ShlZero(bitpos);
    assert s[0] % 128 == 0;
    assert BitOr(result, Shl(s[0] % 128, bitpos) % 0x1_0000_0000) == result;
  }

  /** The bit position after `k` more groups, counted in eight bits. */
  function Position(bitpos: nat, k: nat): (p: nat)
    requires bitpos < 256
    ensures p < 256
    decreases k
  {
    if k == 0 then bitpos else Position((bitpos + 7) % 256, k - 1)
  }

  lemma {:induction false} PositionValue(bitpos: nat, k: nat)
    requires bitpos < 256
    ensures Position(bitpos, k) == (bitpos + 7 * k) % 256
    decreases k
  {
    if k > 0 {
      PositionValue((bitpos + 7) % 256, k - 1);
      var more := 7 * (k - 1);
      assert bitpos + 7 * k == bitpos + 7 + more;
      AddWrapped(bitpos + 7, more);
    }
  }

  lemma AddWrapped(a: nat, b: nat)
    ensures (a % 256 + b) % 256 == (a + b) % 256
  {
  }

  /** Groups of zeros are passed anywhere. */
  lemma {:induction false} ZeroGroups(k: nat, t: seq<byte>, bitpos: nat, result: nat)
    requires bitpos < 256 && result < TWO32
    ensures Varint32From(Padding(k) + t, bitpos, result) == Varint32From(t, Position(bitpos, k), result)
    decreases k
  {
    var s := Padding(k) + t;
    if k == 0 {
      assert s == t;
    } else {
      assert s[1..] == Padding(k - 1) + t && s[0] == 0x80;
      ZeroGroup(s, bitpos, result);
      ZeroGroups(k - 1, t, (bitpos + 7) % 256, result);
    }
  }

  /** What follows padding is read where the wrapped counter has come to. */
  lemma PaddingIsPassed(k: nat, t: seq<byte>)
    requires k > 0
    ensures Varint32(Padding(k) + t) == Varint32From(t, 7 * k % 256, 0)
  {
    var s := Padding(k) + t;
    assert s[1..] == Padding(k - 1) + t && s[0] == 0x80;
    ZeroGroups(k - 1, t, 7, 0);
    PositionValue(7, k - 1);
  }

  lemma OneAtBitThree(t: seq<byte>, bitpos: nat)
    requires t == [1] && bitpos == 3
    ensures Varint32From(t, bitpos, 0) == Ok(8, [])
  {
    assert Shl(1, 1) == 2 && Shl(1, 2) == 4 && Shl(1, 3) == 8;
    assert BitOr(0, 8) == 8 && t[1..] == [];
  }

  /** After 37 groups of zeros, for one, the counter has wrapped around: a one is then read at bit 3. */
  lemma PaddingWraps(k: nat)
    requires k > 0 && 7 * k % 256 == 3
    ensures Varint32(Padding(k) + [1]) == Ok(8, [])
  {
    PaddingIsPassed(k, [1]);
    OneAtBitThree([1], 7 * k % 256);
  }
}
