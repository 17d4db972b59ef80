/**
 * pb_encode_negative_varint, which a build without 64-bit integers uses for negative numbers: it makes up for
 * the 32 upper bits, all ones, while it shifts the lower ones out.
 */
module NegativeVarint {
  import opened Bits
  import opened Varint
  import opened OStream
  import opened ScalarEncoder

  /** The 64-bit sign extension of a negative 32-bit integer. */
  function SignExtended(value: nat): nat {
    value + 0xFFFF_FFFF_0000_0000
  }

  /** The number that is still to be written, when `compensation` ones are missing above the 32 bits of `value`. */
  function Remaining(value: nat, compensation: nat): nat {
    value + 0x1_0000_0000 * Ones(compensation)
  }

  function Ones(k: nat): nat {
    if k == 0 then 0 else 2 * Ones(k - 1) + 1
  }

  /** The ones still missing when the loop is about to shift. */
  predicate Missing(compensation: nat) {
    compensation in {32, 25, 18, 11, 4, 0}
  }

  lemma OnesValues()
    ensures Ones(4) == 15 && Ones(7) == 127 && Ones(11) == 0x7FF && Ones(18) == 0x3_FFFF
    ensures Ones(25) == 0x1FF_FFFF && Ones(32) == 0xFFFF_FFFF
  {
    assert Ones(4) == 15;
    assert Ones(8) == 0xFF;
    assert Ones(11) == 0x7FF;
    assert Ones(15) == 0x7FFF;
    assert Ones(18) == 0x3_FFFF;
    assert Ones(22) == 0x3F_FFFF;
    assert Ones(25) == 0x1FF_FFFF;
    assert Ones(29) == 0x1FFF_FFFF;
  }

  lemma ShlBy25(x: nat)
    ensures Shl(x, 25) == 0x200_0000 * x
  {
    ShlBy28(x);
    ShlTwice(x, 21, 4);
    var y := Shl(x, 21);
    assert Shl(y, 1) == 2 * y;
    assert Shl(y, 2) == 4 * y;
    assert Shl(y, 3) == 8 * y;
  }

  /** Setting the missing ones: seven at a time, four at last. */
  function Compensate(value: nat, compensation: nat): (nat, nat) {
    if compensation == 0 then (value, 0)
    else
      var bits := if compensation > 7 then 7 else compensation;
      (BitXor(value, Shl(Ones(bits), 25)), compensation - bits)
  }

  /** The shift has made room for the ones, so XOR adds them. */
  lemma CompensateAdds(value: nat, compensation: nat)
    requires value < 0x200_0000
    ensures var bits := if compensation > 7 then 7 else compensation;
      Compensate(value, compensation) == (value + 0x200_0000 * Ones(bits), compensation - bits)
  {
    var bits := if compensation > 7 then 7 else compensation;
    ShlBy25(1);
    ShlBy25(Ones(bits));
    BitXorDisjoint(value, Ones(bits), 25);
  }

  /** A trip through the loop shifts the whole number by one group. */
  lemma StepShifts(value: nat, compensation: nat)
    requires value < TWO32 && Missing(compensation)
    ensures var r := Compensate(value / 128, compensation);
      && r.0 < TWO32 && Missing(r.1)
      && Remaining(r.0, r.1) == Remaining(value, compensation) / 128
      && value % 128 == Remaining(value, compensation) % 128
  {
    OnesValues();
    CompensateAdds(value / 128, compensation);
  }

  /** Nothing is left to be written exactly when the loop ends. */
  predicate Balanced(value: nat, compensation: nat) {
    value < TWO32 && Missing(compensation) && (value == 0 ==> compensation == 0)
  }

  lemma StepStaysBalanced(value: nat, compensation: nat)
    requires Balanced(value, compensation) && value != 0
    requires compensation == 32 ==> value >= TWO31
    ensures var r := Compensate(value / 128, compensation); Balanced(r.0, r.1) && r.1 != 32
  {
    OnesValues();
    CompensateAdds(value / 128, compensation);
  }

  /** The shift in the loop, and the ones that make up for what a 64-bit number would shift in. */
  method ShiftGroup(value0: nat, compensation0: nat) returns (value: nat, compensation: nat)
    requires Balanced(value0, compensation0) && value0 != 0 && (compensation0 == 32 ==> value0 >= TWO31)
    ensures Balanced(value, compensation) && compensation != 32
    ensures Remaining(value, compensation) == Remaining(value0, compensation0) / 128
  {
    StepShifts(value0, compensation0);
    StepStaysBalanced(value0, compensation0);
    value, compensation := value0 / 128, compensation0;
    if compensation != 0 {
      var bits := if compensation > 7 then 7 else compensation;
      value := BitXor(value, Shl(Ones(bits), 25));
      compensation := compensation - bits;
    }
  }

  lemma FirstRemaining(value: nat)
    requires TWO31 <= value < TWO32
    ensures Balanced(value, 32) && Remaining(value, 32) == SignExtended(value)
    ensures |Continued(SignExtended(value))| <= 10
  {
    OnesValues();
    LastGroup(SignExtended(value));
    EncVarintFits(SignExtended(value));
  }

  lemma GroupMoves(done: seq<byte>, whole: nat, all: seq<byte>)
    requires whole > 0 && done + Continued(whole) == all
    ensures done + [whole % 128 + 128] + Continued(whole / 128) == all
  {
    var group, more: seq<byte> := [whole % 128 + 128], Continued(whole / 128);
    assert Continued(whole) == group + more;
    assert done + (group + more) == done + group + more;
  }

  lemma NextGroupOf(done: seq<byte>, value: nat, compensation: nat, all: seq<byte>)
    requires Balanced(value, compensation) && value != 0
    requires done + Continued(Remaining(value, compensation)) == all
    ensures done + [value % 128 + 128] + Continued(Remaining(value, compensation) / 128) == all
  {
    var whole := Remaining(value, compensation);
    assert whole > 0 && value % 128 == whole % 128 by { StepShifts(value, compensation); }
    GroupMoves(done, whole, all);
  }

  /** The loop of pb_encode_negative_varint. */
  method FillNegative(buffer: array<byte>, value0: nat) returns (i: nat)
    requires buffer.Length == 10 && TWO31 <= value0 < TWO32
    modifies buffer
    ensures 0 < i <= 10 && buffer[..i] == Continued(SignExtended(value0))
  {
    var value: nat, compensation: nat := value0, 32;
    ghost var all := Continued(SignExtended(value0));
    FirstRemaining(value0);
    i := 0;
    while value != 0
      invariant i <= 10 && Balanced(value, compensation) && (compensation == 32 ==> value >= TWO31)
      invariant buffer[..i] + Continued(Remaining(value, compensation)) == all
      decreases Remaining(value, compensation)
    {
      ghost var done := buffer[..i];
      NextGroupOf(done, value, compensation, all);
      buffer[i] := value % 128 + 128;
      assert buffer[..i + 1] == done + [value % 128 + 128];
      value, compensation := ShiftGroup(value, compensation);
      i := i + 1;
    }
  }

  /** The result is what the 64-bit encoder writes for the same number, ten bytes in all. */
  method EncodeNegativeVarint(stream: OStream, value: nat) returns (ok: bool)
    requires stream.Valid() && TWO31 <= value < TWO32
    modifies stream, stream.buf
    ensures stream.Valid() && Wrote(old(stream.View()), stream.View(), ok, Some(EncVarint(SignExtended(value))))
    ensures |EncVarint(SignExtended(value))| == 10
  {
    var buffer := new byte[10] (_ => 0);
    var i := FillNegative(buffer, value);
    LastGroup(SignExtended(value));
    buffer[i - 1] := buffer[i - 1] % 128;
    assert buffer[..i] == EncVarint(SignExtended(value));
    TenBytes(value);
    ok := PbWrite(stream, buffer[..i]);
  }

  lemma TenBytes(value: nat)
    requires TWO31 <= value < TWO32
    ensures |EncVarint(SignExtended(value))| == 10
    ensures SignExtended(value) == ToU64(value - TWO32)
  {
    var e := EncVarint(SignExtended(value));
    EncVarintFits(SignExtended(value));
    EncVarintMeaning(SignExtended(value), []);
    Sum128Bound(e);
    ShlBy63(1);
    if |e| < 10 { ShlFarther(1, 7 * |e|, 63); }
  }
}
