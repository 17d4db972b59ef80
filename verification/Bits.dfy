/** Bytes, shifts and bitwise OR on natural numbers, and the result types of the parsers. */
module Bits {

  type byte = n: nat | n < 256

  const TWO31: int := 0x8000_0000
  const TWO32: int := 0x1_0000_0000
  const TWO63: int := 0x8000_0000_0000_0000
  const TWO64: int := 0x1_0000_0000_0000_0000

  datatype Option<+T> = None | Some(value: T)

  /** The result of reading from a stream: a failure, or a value and the bytes that are left. */
  datatype Parse<+T> = Fail | Ok(value: T, rest: seq<byte>)

  // ----- shifts

  /** C's `x << k`, before it is cut to the width of its type. */
  function Shl(x: nat, k: nat): nat {
    if k == 0 then x else 2 * Shl(x, k - 1)
  }

  lemma {:induction false} ShlSum(a: nat, b: nat, k: nat)
    ensures Shl(a + b, k) == Shl(a, k) + Shl(b, k)
  {
    if k > 0 { ShlSum(a, b, k - 1); }
  }

  lemma {:induction false} ShlMonotone(a: nat, b: nat, k: nat)
    requires a <= b
    ensures Shl(a, k) <= Shl(b, k)
  {
    if k > 0 { ShlMonotone(a, b, k - 1); }
  }

  lemma {:induction false} ShlTwice(x: nat, j: nat, k: nat)
    ensures Shl(Shl(x, j), k) == Shl(x, j + k)
  {
    if k > 0 { ShlTwice(x, j, k - 1); }
  }

  /** Shifting farther makes a number no smaller. */
  lemma {:induction false} ShlFarther(x: nat, j: nat, k: nat)
    requires j <= k
    ensures Shl(x, j) <= Shl(x, k)
    decreases k
  {
    if j < k { ShlFarther(x, j, k - 1); }
  }

  lemma ShlBy7(x: nat)
    ensures Shl(x, 7) == 128 * x
  {
    assert Shl(x, 1) == 2 * x;
    assert Shl(x, 2) == 4 * x;
    assert Shl(x, 3) == 8 * x;
    assert Shl(x, 4) == 16 * x;
    assert Shl(x, 5) == 32 * x;
    assert Shl(x, 6) == 64 * x;
  }

  lemma ShlBy28(x: nat)
    ensures Shl(x, 14) == 0x4000 * x && Shl(x, 21) == 0x20_0000 * x && Shl(x, 28) == 0x1000_0000 * x
  {
    ShlBy7(x);
    ShlTwice(x, 7, 7);
    ShlBy7(Shl(x, 7));
    ShlTwice(x, 14, 7);
    ShlBy7(Shl(x, 14));
    ShlTwice(x, 21, 7);
    ShlBy7(Shl(x, 21));
  }

  lemma ShlBy63(x: nat)
    ensures Shl(x, 56) == 0x100_0000_0000_0000 * x && Shl(x, 63) == 0x8000_0000_0000_0000 * x
    ensures Shl(x, 70) == 0x40_0000_0000_0000_0000 * x
  {
    ShlBy28(x);
    ShlTwice(x, 28, 28);
    ShlBy28(Shl(x, 28));
    ShlTwice(x, 56, 7);
    ShlBy7(Shl(x, 56));
    ShlTwice(x, 63, 7);
    ShlBy7(Shl(x, 63));
  }

  lemma ShlBy32(x: nat)
    ensures Shl(x, 31) == 0x8000_0000 * x && Shl(x, 32) == 0x1_0000_0000 * x
  {
    ShlBy28(x);
    var y := Shl(x, 28);
    assert Shl(y, 1) == 2 * y;
    assert Shl(y, 2) == 4 * y;
    assert Shl(y, 3) == 8 * y;
    assert Shl(y, 4) == 16 * y;
    ShlTwice(x, 28, 3);
    ShlTwice(x, 28, 4);
  }

  // ----- bitwise OR

  /** C's `|` on unsigned integers, binary digit by binary digit. */
  function BitOr(a: nat, b: nat): nat {
    if a == 0 then b
    else if b == 0 then a
    else 2 * BitOr(a / 2, b / 2) + (if a % 2 == 1 || b % 2 == 1 then 1 else 0)
  }

  lemma {:induction false} BitOrBound(a: nat, b: nat, k: nat)
    requires a < Shl(1, k) && b < Shl(1, k)
    ensures BitOr(a, b) < Shl(1, k)
  {
    if a != 0 && b != 0 {
      BitOrBound(a / 2, b / 2, k - 1);
    }
  }

  /** OR is addition when the operands occupy different digits. */
  lemma {:induction false} BitOrDisjoint(a: nat, c: nat, k: nat)
    requires a < Shl(1, k)
    ensures BitOr(a, Shl(c, k)) == a + Shl(c, k)
  {
    if k > 0 {
      BitOrDisjoint(a / 2, c, k - 1);
      assert Shl(c, k) / 2 == Shl(c, k - 1);
    }
  }

  /** C's `^` on unsigned integers. */
  function BitXor(a: nat, b: nat): nat {
    if a == 0 then b
    else if b == 0 then a
    else 2 * BitXor(a / 2, b / 2) + (if a % 2 != b % 2 then 1 else 0)
  }

  /** So is XOR. */
  lemma {:induction false} BitXorDisjoint(a: nat, c: nat, k: nat)
    requires a < Shl(1, k)
    ensures BitXor(a, Shl(c, k)) == a + Shl(c, k)
  {
    if k > 0 {
      BitXorDisjoint(a / 2, c, k - 1);
      assert Shl(c, k) / 2 == Shl(c, k - 1);
    }
  }

  /** Whether binary digit `i` of `n` is one. */
  predicate Bit(n: nat, i: nat) {
    if i == 0 then n % 2 == 1 else Bit(n / 2, i - 1)
  }

  lemma {:induction false} BitZero(i: nat)
    ensures !Bit(0, i)
  {
    if i > 0 { BitZero(i - 1); }
  }

  lemma {:induction false} BitOrBit(a: nat, b: nat, i: nat)
    ensures Bit(BitOr(a, b), i) == (Bit(a, i) || Bit(b, i))
  {
    BitZero(i);
    if a != 0 && b != 0 && i > 0 {
      BitOrBit(a / 2, b / 2, i - 1);
    }
  }

  lemma {:induction false} BitOfShifted(k: nat, i: nat)
    ensures Bit(Shl(1, k), i) == (i == k)
  {
    if k == 0 {
      if i > 0 { BitZero(i - 1); }
    } else if i > 0 {
      BitOfShifted(k - 1, i - 1);
    }
  }

  /** The k lowest binary digits of `n` are all one. */
  predicate OnesBelow(n: nat, k: nat) {
    k == 0 || (n % 2 == 1 && OnesBelow(n / 2, k - 1))
  }

  lemma {:induction false} OnesBelowBit(n: nat, k: nat, i: nat)
    requires OnesBelow(n, k) && i < k
    ensures Bit(n, i)
  {
    if i > 0 {
      OnesBelowBit(n / 2, k - 1, i - 1);
    }
  }

  /** If some of the k lowest digits is zero, it can be named. */
  lemma {:induction false} ZeroBelow(n: nat, k: nat) returns (i: nat)
    requires !OnesBelow(n, k)
    ensures i < k && !Bit(n, i)
  {
    if n % 2 == 0 {
      i := 0;
    } else {
      i := ZeroBelow(n / 2, k - 1);
      i := i + 1;
    }
  }

  lemma {:induction false} OnesBelowValue(n: nat, k: nat, w: nat)
    requires k <= w && n < Shl(1, w)
    requires forall i: nat | k <= i < w :: !Bit(n, i)
    ensures n == Shl(1, k) - 1 <==> OnesBelow(n, k)
    decreases w
  {
    if w > 0 {
      var k' := if k == 0 then 0 else k - 1;
      forall i: nat | k' <= i < w - 1 ensures !Bit(n / 2, i) {
        assert !Bit(n, i + 1);
      }
      if k == 0 { assert !Bit(n, 0); }
      OnesBelowValue(n / 2, k', w - 1);
    }
  }

  /** Binary digit `i` of `n` is one; for use in quantifiers. */
  predicate IsSet(n: nat, i: nat) {
    Bit(n, i)
  }

  /** A number below 2^w with no digit set from k on is 2^k - 1 exactly if its k lowest digits are all one. */
  lemma AllOnes(n: nat, k: nat, w: nat)
    requires k <= w && n < Shl(1, w)
    requires forall i: nat | k <= i < w :: !IsSet(n, i)
    ensures n == Shl(1, k) - 1 <==> forall i: nat | i < k :: IsSet(n, i)
  {
    forall i: nat | k <= i < w ensures !Bit(n, i) {
      assert !IsSet(n, i);
    }
    OnesBelowValue(n, k, w);
    if OnesBelow(n, k) {
      forall i: nat | i < k ensures IsSet(n, i) {
        OnesBelowBit(n, k, i);
      }
    } else {
      var i := ZeroBelow(n, k);
      assert !IsSet(n, i);
    }
  }
}
