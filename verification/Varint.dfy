/** Base-128 varints, zigzag and little-endian words: what the integer readers and writers compute. */
module Varint {
  import opened Bits

  // ----- writing

  /** The bytes pb_encode_varint writes: groups of seven bits, least significant first. */
  function EncVarint(v: nat): (e: seq<byte>)
    ensures |e| > 0
  {
    if v < 128 then [v] else [v % 128 + 128] + EncVarint(v / 128)
  }

  /** The bit pattern of a signed 64-bit integer. */
  function ToU64(n: int): (u: nat)
    requires -TWO63 <= n < TWO63
    ensures u < TWO64
  {
    if n < 0 then n + TWO64 else n
  }

  /** A cast to a signed integer type of `size` bytes. */
  function CastSigned(n: int, size: nat): int {
    if size == 1 then (n + 0x80) % 0x100 - 0x80
    else if size == 2 then (n + 0x8000) % 0x1_0000 - 0x8000
    else if size == 4 then (n + 0x8000_0000) % 0x1_0000_0000 - 0x8000_0000
    else (n + 0x8000_0000_0000_0000) % 0x1_0000_0000_0000_0000 - 0x8000_0000_0000_0000
  }

  /** A cast to an unsigned integer type of `size` bytes. */
  function CastUnsigned(n: int, size: nat): nat {
    if size == 1 then n % 0x100
    else if size == 2 then n % 0x1_0000
    else if size == 4 then n % 0x1_0000_0000
    else n % 0x1_0000_0000_0000_0000
  }

  /** `value << 1` for a non-negative value, `~(value << 1)` for a negative one. */
  function ZigZag(n: int): (u: nat)
    requires -TWO63 <= n < TWO63
  {
    if n < 0 then -2 * n - 1 else 2 * n
  }

  function UnZigZag(u: nat): int {
    if u % 2 == 1 then -(u / 2) - 1 else u / 2
  }

  /** The `n` low bytes of `v`, least significant first. */
  function LittleEndian(v: nat, n: nat): (e: seq<byte>)
    ensures |e| == n
  {
    if n == 0 then [] else [v % 256] + LittleEndian(v / 256, n - 1)
  }

  function FromLittleEndian(s: seq<byte>): nat {
    if s == [] then 0 else s[0] + 256 * FromLittleEndian(s[1..])
  }

  // ----- reading

  /** One trip after another through the loop of pb_decode_varint. */
  function Varint64From(s: seq<byte>, bitpos: nat, result: nat): (r: Parse<nat>)
    ensures r.Ok? ==> |r.rest| < |s|
  {
    if bitpos >= 64 || s == [] then Fail else
    var result' := BitOr(result, Shl(s[0] % 128, bitpos) % 0x1_0000_0000_0000_0000);
    if s[0] >= 128 then Varint64From(s[1..], bitpos + 7, result') else Ok(result', s[1..])
  }

  function Varint64(s: seq<byte>): (r: Parse<nat>)
    ensures r.Ok? ==> |r.rest| < |s|
  {
    Varint64From(s, 0, 0)
  }

  /**
   * The do-while loop of pb_decode_varint32_eof. `bitpos` is an 8-bit counter that wraps; from bit 32 on
   * only the sign extension of a negative number is let through.
   */
  function Varint32From(s: seq<byte>, bitpos: nat, result: nat): (r: Parse<nat>)
    requires bitpos < 256 && result < TWO32
    ensures r.Ok? ==> r.value < TWO32 && |r.rest| < |s|
  {
    if s == [] then Fail else
    var b := s[0];
    var ext := if bitpos < 63 then 0xFF else 0x01;
    if bitpos >= 32 && b % 128 != 0 && (result / 0x8000_0000 == 0 || b != ext) then Fail else
    var result' := if bitpos >= 32 then result else BitOr(result, Shl(b % 128, bitpos) % 0x1_0000_0000);
    var bitpos' := (bitpos + 7) % 256;
    assert result' < TWO32 by {
      ShlBy32(1);
      if bitpos < 32 { BitOrBound(result, Shl(b % 128, bitpos) % 0x1_0000_0000, 32); }
    }
    if b >= 128 then Varint32From(s[1..], bitpos', result')
    else if bitpos' == 35 && b / 16 % 8 != 0 then Fail
    else Ok(result', s[1..])
  }

  function Varint32(s: seq<byte>): (r: Parse<nat>)
    ensures r.Ok? ==> r.value < TWO32 && |r.rest| < |s|
  {
    if s == [] then Fail
    else if s[0] < 128 then Ok(s[0], s[1..])
    else Varint32From(s[1..], 7, s[0] % 128)
  }

  /** The bytes after the first one without a continuation bit. */
  function SkipVarint(s: seq<byte>): (r: Parse<()>)
    ensures r.Ok? ==> |r.rest| < |s|
  {
    if s == [] then Fail
    else if s[0] >= 128 then SkipVarint(s[1..])
    else Ok((), s[1..])
  }

  /** pb_read: exactly `n` bytes, or a failure. */
  function Take(s: seq<byte>, n: nat): (r: Parse<seq<byte>>) {
    if |s| < n then Fail else Ok(s[..n], s[n..])
  }

  // ----- what a varint means

  /** The number denoted by base-128 groups, least significant first. */
  function Sum128(s: seq<byte>): nat {
    if s == [] then 0 else s[0] % 128 + 128 * Sum128(s[1..])
  }

  /** `s[..k + 1]` is the first complete varint of `s`: byte `k` is the first without a continuation bit. */
  predicate EndsAt(s: seq<byte>, k: nat) {
    k < |s| && s[k] < 128 && forall i :: 0 <= i < k ==> s[i] >= 128
  }

  /** Group `j` as pb_decode_varint takes it in: only one bit of the tenth group is kept. */
  lemma NextGroup(g: nat, j: nat, result: nat)
    requires g < 128 && j <= 9 && result < Shl(1, 7 * j)
    ensures BitOr(result, Shl(g, 7 * j) % 0x1_0000_0000_0000_0000)
         == (result + Shl(g, 7 * j)) % 0x1_0000_0000_0000_0000
    ensures j < 9 ==> (result + Shl(g, 7 * j)) % 0x1_0000_0000_0000_0000 == result + Shl(g, 7 * j)
  {
    if j == 9 {
      TopBit(g, result);
      BitOrDisjoint(result, g % 2, 63);
    } else {
      LowGroup(g, j, result);
      BitOrDisjoint(result, g, 7 * j);
      Remainder(0, Shl(g, 7 * j));
      Remainder(0, result + Shl(g, 7 * j));
    }
  }

  lemma LowGroup(g: nat, j: nat, result: nat)
    requires g < 128 && j < 9 && result < Shl(1, 7 * j)
    ensures result + Shl(g, 7 * j) < TWO63
  {
    var bitpos := 7 * j;
    ShlMonotone(g, 127, bitpos);
    ShlSum(127, 1, bitpos);
    ShlTwice(1, 7, bitpos);
    ShlBy7(1);
    ShlFarther(1, bitpos + 7, 63);
    ShlBy63(1);
  }

  lemma TopBit(g: nat, result: nat)
    requires result < Shl(1, 63)
    ensures Shl(g, 63) % 0x1_0000_0000_0000_0000 == Shl(g % 2, 63)
    ensures (result + Shl(g, 63)) % 0x1_0000_0000_0000_0000 == result + Shl(g % 2, 63)
  {
    var q, r := g / 2, g % 2;
    ShlBy63(1);
    ShlBy63(g);
    ShlBy63(r);
    assert Shl(g, 63) == 0x1_0000_0000_0000_0000 * q + Shl(r, 63);
    Remainder(q, Shl(r, 63));
    Remainder(q, result + Shl(r, 63));
  }

  lemma Remainder(q: nat, r: nat)
    requires r < 0x1_0000_0000_0000_0000
    ensures (0x1_0000_0000_0000_0000 * q + r) % 0x1_0000_0000_0000_0000 == r
  {
  }

  /** A group and the ones above it. */
  lemma Regroup(g: nat, bitpos: nat, result: nat, more: nat)
    requires g < 128 && result < Shl(1, bitpos)
    ensures result + Shl(g, bitpos) < Shl(1, bitpos + 7)
    ensures result + Shl(g, bitpos) + Shl(more, bitpos + 7) == result + Shl(g + 128 * more, bitpos)
  {
    ShlMonotone(g, 127, bitpos);
    ShlSum(127, 1, bitpos);
    ShlTwice(1, 7, bitpos);
    ShlBy7(1);
    ShlSum(g, 128 * more, bitpos);
    ShlTwice(more, 7, bitpos);
    ShlBy7(more);
  }

  /** One trip through the loop of pb_decode_varint. */
  lemma ReadGroup(s: seq<byte>, j: nat, result: nat)
    requires s != [] && j <= 9 && result < Shl(1, 7 * j)
    ensures var result' := result + Shl(s[0] % 128, 7 * j);
      Varint64From(s, 7 * j, result)
      == if s[0] < 128 then Ok(result' % 0x1_0000_0000_0000_0000, s[1..])
         else Varint64From(s[1..], 7 * (j + 1), result' % 0x1_0000_0000_0000_0000)
    ensures j < 9 ==> (result + Shl(s[0] % 128, 7 * j)) % 0x1_0000_0000_0000_0000 == result + Shl(s[0] % 128, 7 * j)
  {
    NextGroup(s[0] % 128, j, result);
  }

  lemma OneGroup(s: seq<byte>)
    requires s != []
    ensures Sum128(s[..1]) == s[0] % 128
  {
    assert s[..1] == [s[0]];
    assert Sum128([s[0]]) == s[0] % 128;
  }

  /** The loop of pb_decode_varint adds up the groups it reads. */
  lemma {:induction false} Varint64Sum(s: seq<byte>, k: nat, j: nat, result: nat)
    requires EndsAt(s, k)
    requires j + k <= 9 && result < Shl(1, 7 * j)
    ensures Varint64From(s, 7 * j, result)
         == Ok((result + Shl(Sum128(s[..k + 1]), 7 * j)) % 0x1_0000_0000_0000_0000, s[k + 1..])
    decreases k
  {
    ReadGroup(s, j, result);
    if k == 0 {
      OneGroup(s);
    } else {
      MoreGroups(s, k, 7 * j, result);
      Varint64Sum(s[1..], k - 1, j + 1, result + Shl(s[0] % 128, 7 * j));
    }
  }

  lemma MoreGroups(s: seq<byte>, k: nat, bitpos: nat, result: nat)
    requires EndsAt(s, k) && k > 0 && result < Shl(1, bitpos)
    ensures var t := s[1..];
            && EndsAt(t, k - 1) && t[k..] == s[k + 1..]
            && result + Shl(s[0] % 128, bitpos) < Shl(1, bitpos + 7)
            && result + Shl(s[0] % 128, bitpos) + Shl(Sum128(t[..k]), bitpos + 7)
               == result + Shl(Sum128(s[..k + 1]), bitpos)
  {
    var t := s[1..];
    assert s[..k + 1] == [s[0]] + t[..k];
    assert Sum128(s[..k + 1]) == s[0] % 128 + 128 * Sum128(t[..k]);
    Regroup(s[0] % 128, bitpos, result, Sum128(t[..k]));
  }

  /** A varint that does not end within the bytes that are left, or not within the first ten, is refused. */
  lemma {:induction false} Varint64Refuses(s: seq<byte>, bitpos: nat, result: nat)
    requires forall i :: 0 <= i < |s| && bitpos + 7 * i < 64 ==> s[i] >= 128
    ensures Varint64From(s, bitpos, result).Fail?
  {
    if bitpos < 64 && s != [] {
      assert s[0] >= 128;
      forall i | 0 <= i < |s[1..]| && bitpos + 7 + 7 * i < 64 ensures s[1..][i] >= 128 {
        assert s[i + 1] >= 128;
      }
      Varint64Refuses(s[1..], bitpos + 7, BitOr(result, Shl(s[0] % 128, bitpos) % 0x1_0000_0000_0000_0000));
    }
  }

  lemma Varint64At(s: seq<byte>, k: nat)
    requires k < 10 && EndsAt(s, k)
    ensures Varint64(s) == Ok(Sum128(s[..k + 1]) % 0x1_0000_0000_0000_0000, s[k + 1..])
  {
    Varint64Sum(s, k, 0, 0);
  }

  /** pb_decode_varint: the exact inputs it accepts, and the number it returns. */
  lemma Varint64Exact(s: seq<byte>)
    ensures Varint64(s).Ok? <==> exists k: nat :: k < 10 && EndsAt(s, k)
    ensures forall k: nat :: k < 10 && EndsAt(s, k) ==> Varint64(s) == Ok(Sum128(s[..k + 1]) % 0x1_0000_0000_0000_0000, s[k + 1..])
  {
    forall k: nat | k < 10 && EndsAt(s, k)
      ensures Varint64(s) == Ok(Sum128(s[..k + 1]) % 0x1_0000_0000_0000_0000, s[k + 1..])
    {
      Varint64At(s, k);
    }
    if forall k: nat :: k < 10 ==> !EndsAt(s, k) {
      forall i: nat | i < |s| && 7 * i < 64 ensures s[i] >= 128 {
        if s[i] < 128 { var k := FirstEnd(s, i); }
      }
      Varint64Refuses(s, 0, 0);
    }
  }

  lemma {:induction false} FirstEnd(s: seq<byte>, i: nat) returns (k: nat)
    requires i < |s| && s[i] < 128
    ensures k <= i && EndsAt(s, k)
  {
    if j :| 0 <= j < i && s[j] < 128 {
      k := FirstEnd(s, j);
    } else {
      k := i;
    }
  }

  // ----- writing and reading back

  /** What pb_encode_varint writes is one complete varint denoting the value. */
  lemma {:induction false} EncVarintMeaning(v: nat, rest: seq<byte>)
    ensures EndsAt(EncVarint(v) + rest, |EncVarint(v)| - 1)
    ensures Sum128(EncVarint(v)) == v
  {
    if v < 128 {
      assert EncVarint(v)[1..] == [];
    } else {
      EncVarintMeaning(v / 128, rest);
      assert EncVarint(v)[1..] == EncVarint(v / 128);
      assert EncVarint(v) + rest == [v % 128 + 128] + (EncVarint(v / 128) + rest);
    }
  }

  /** It needs `k` bytes for a value below 128^k, so ten for any 64-bit value. */
  lemma {:induction false} EncVarintLength(v: nat, k: nat)
    requires k > 0 && v < Shl(1, 7 * k)
    ensures |EncVarint(v)| <= k
  {
    if v >= 128 {
      ShlBy7(1);
      ShlTwice(1, 7 * (k - 1), 7);
      ShlBy7(Shl(1, 7 * (k - 1)));
      EncVarintLength(v / 128, k - 1);
    }
  }

  lemma EncVarintFits(v: nat)
    requires v < TWO64
    ensures |EncVarint(v)| <= 10
  {
    ShlBy63(1);
    EncVarintLength(v, 10);
  }

  lemma {:induction false} Sum128Bound(s: seq<byte>)
    ensures Sum128(s) < Shl(1, 7 * |s|)
  {
    if s != [] {
      var n := |s| - 1;
      Sum128Bound(s[1..]);
      ShlTwice(1, 7 * n, 7);
      ShlBy7(Shl(1, 7 * n));
    }
  }

  /** The form is minimal: no group sequence for the same number is shorter. */
  lemma {:induction false} EncVarintMinimal(s: seq<byte>)
    requires s != []
    ensures |EncVarint(Sum128(s))| <= |s|
  {
    Sum128Bound(s);
    EncVarintLength(Sum128(s), |s|);
  }

  lemma Varint64OfEncoded(v: nat, rest: seq<byte>)
    requires v < TWO64
    ensures Varint64(EncVarint(v) + rest) == Ok(v, rest)
  {
    var e := EncVarint(v);
    EncVarintMeaning(v, rest);
    EncVarintFits(v);
    Varint64At(e + rest, |e| - 1);
    assert (e + rest)[..|e|] == e;
    assert (e + rest)[|e|..] == rest;
  }

  lemma {:induction false} SkipVarintOfEncoded(v: nat, rest: seq<byte>)
    ensures SkipVarint(EncVarint(v) + rest) == Ok((), rest)
  {
    var s := EncVarint(v) + rest;
    if v < 128 {
      assert s[1..] == rest;
    } else {
      assert s[1..] == EncVarint(v / 128) + rest;
      SkipVarintOfEncoded(v / 128, rest);
    }
  }
}
