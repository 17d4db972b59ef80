/**
 * What single values mean on the wire and in the struct, and what does not fit: the decoders accept exactly
 * what a field can hold, and the encoder refuses exactly what its descriptor does not allow.
 */
module Limits {
  import opened Bits
  import opened Varint
  import opened Descriptor
  import opened EncodeSpec
  import opened DecodeSpec

  // ----- decoding

  predicate SignedFits(n: int, size: nat) {
    match size
    case 1 => -0x80 <= n < 0x80
    case 2 => -0x8000 <= n < 0x8000
    case 4 => -0x8000_0000 <= n < 0x8000_0000
    case 8 => -0x8000_0000_0000_0000 <= n < 0x8000_0000_0000_0000
    case _ => false
  }

  predicate UnsignedFits(n: int, size: nat) {
    match size
    case 1 => 0 <= n < 0x100
    case 2 => 0 <= n < 0x1_0000
    case 4 => 0 <= n < 0x1_0000_0000
    case 8 => 0 <= n < 0x1_0000_0000_0000_0000
    case _ => false
  }

  /** A byte as a number. */
  function Digit(s: seq<byte>, k: nat): nat
    requires k < |s|
  {
    s[k]
  }

  /** `bs` is what a C string reader sees of `data` before its first NUL. */
  predicate StringIn(bs: seq<byte>, data: seq<byte>) {
    bs <= data && 0 !in bs && (|bs| < |data| ==> data[|bs|] == 0)
  }

  /** What a length and some bytes denote for a field of bytes, a string, or a field of fixed length. */
  predicate DenotesBytes(f: Field, n: nat, data: seq<byte>, v: Value, rest: seq<byte>) {
    v.Blob? &&
    match f.ltype
    case LBytes => n <= |data| && n + 4 <= f.dataSize && v.bs == data[..n] && rest == data[n..]
    case LString =>
      n <= |data| && n + 1 <= f.dataSize && n < 0xFFFF_FFFF && StringIn(v.bs, data[..n]) && rest == data[n..]
    case _ =>
      && |v.bs| == f.dataSize
      && if n == 0 then rest == data && forall k | 0 <= k < |v.bs| :: v.bs[k] == 0
         else n == f.dataSize && n <= |data| && v.bs == data[..n] && rest == data[n..]
  }

  /** The bytes `s` begin with the value `v` of the field, and `rest` follows it. */
  predicate Denotes(f: Field, s: seq<byte>, v: Value, rest: seq<byte>) {
    match f.ltype
    case LBool => Varint32(s).Ok? && rest == Varint32(s).rest && v == Num(if Varint32(s).value == 0 then 0 else 1)
    case LVarint =>
      // the number modulo 2^32, or 2^64 for the widest field
      && Varint64(s).Ok? && rest == Varint64(s).rest && v.Num? && SignedFits(v.n, f.dataSize)
      && (if f.dataSize == 8 then (v.n - Varint64(s).value) % 0x1_0000_0000_0000_0000 == 0
          else (v.n - Varint64(s).value) % 0x1_0000_0000 == 0)
    case LUvarint =>
      Varint64(s).Ok? && rest == Varint64(s).rest && v == Num(Varint64(s).value) && UnsignedFits(v.n, f.dataSize)
    case LSvarint =>
      && Varint64(s).Ok? && rest == Varint64(s).rest && v.Num? && SignedFits(v.n, f.dataSize)
      && Varint64(s).value == if v.n < 0 then -2 * v.n - 1 else 2 * v.n
    case LFixed32 => |s| >= 4 && rest == s[4..] && v == Num(Digit(s, 0) + 0x100 * Digit(s, 1) + 0x1_0000 * Digit(s, 2) + 0x100_0000 * Digit(s, 3))
    case LFixed64 =>
      && |s| >= 8 && rest == s[8..]
      && v == Num(Digit(s, 0) + 0x100 * Digit(s, 1) + 0x1_0000 * Digit(s, 2) + 0x100_0000 * Digit(s, 3) + 0x1_0000_0000 * Digit(s, 4)
                  + 0x100_0000_0000 * Digit(s, 5) + 0x1_0000_0000_0000 * Digit(s, 6) + 0x100_0000_0000_0000 * Digit(s, 7))
    case LSubmessage => false
    case LExtension => false
    case _ => Varint32(s).Ok? && DenotesBytes(f, Varint32(s).value, Varint32(s).rest, v, rest)
  }

  lemma FourBytes(s: seq<byte>)
    requires |s| == 4
    ensures FromLittleEndian(s) == Digit(s, 0) + 0x100 * Digit(s, 1) + 0x1_0000 * Digit(s, 2) + 0x100_0000 * Digit(s, 3)
  {
    assert FromLittleEndian(s[3..]) == Digit(s, 3);
    assert s[2..][1..] == s[3..] && s[1..][1..] == s[2..];
    assert FromLittleEndian(s[2..]) == Digit(s, 2) + 0x100 * Digit(s, 3);
  }

  lemma EightBytes(s: seq<byte>)
    requires |s| == 8
    ensures FromLittleEndian(s)
         == Digit(s, 0) + 0x100 * Digit(s, 1) + 0x1_0000 * Digit(s, 2) + 0x100_0000 * Digit(s, 3) + 0x1_0000_0000 * Digit(s, 4)
            + 0x100_0000_0000 * Digit(s, 5) + 0x1_0000_0000_0000 * Digit(s, 6) + 0x100_0000_0000_0000 * Digit(s, 7)
  {
    FourBytes(s[4..]);
    assert s[3..][1..] == s[4..] && s[2..][1..] == s[3..] && s[1..][1..] == s[2..];
    assert FromLittleEndian(s[3..]) == Digit(s, 3) + 0x100 * FromLittleEndian(s[4..]);
    assert FromLittleEndian(s[2..]) == Digit(s, 2) + 0x100 * FromLittleEndian(s[3..]);
    assert FromLittleEndian(s[1..]) == Digit(s, 1) + 0x100 * FromLittleEndian(s[2..]);
  }

  lemma {:induction false} StringExactly(bs: seq<byte>, data: seq<byte>)
    ensures UpToNul(data) == bs <==> StringIn(bs, data)
    decreases |data|
  {
    if data != [] && data[0] != 0 && bs != [] {
      StringExactly(bs[1..], data[1..]);
      assert bs == [bs[0]] + bs[1..];
      if bs[0] == data[0] { StringTail(bs, data); }
    }
  }

  lemma StringTail(bs: seq<byte>, data: seq<byte>)
    requires bs != [] && data != [] && bs[0] == data[0] != 0
    ensures StringIn(bs, data) <==> StringIn(bs[1..], data[1..])
  {
    if bs[1..] <= data[1..] { assert bs == [bs[0]] + bs[1..] && data == [data[0]] + data[1..]; }
    if 0 !in bs[1..] { assert forall k | 0 < k < |bs| :: bs[k] == bs[1..][k - 1]; }
  }

  lemma CastFits(n: int, size: nat)
    requires size in {1, 2, 4, 8}
    ensures CastSigned(n, size) == n <==> SignedFits(n, size)
  {
  }

  lemma CastUnsignedFits(n: int, size: nat)
    requires n >= 0 && size in {1, 2, 4, 8}
    ensures CastUnsigned(n, size) == n <==> UnsignedFits(n, size)
  {
  }

  lemma CastExactly(n: int, x: int)
    ensures x == CastSigned(n, 4) <==> SignedFits(x, 4) && (x - n) % 0x1_0000_0000 == 0
  {
    var q := (n + 0x8000_0000) / 0x1_0000_0000;
    assert CastSigned(n, 4) == n - 0x1_0000_0000 * q;
    if x == CastSigned(n, 4) { assert x - n == 0x1_0000_0000 * -q; }
  }

  lemma WideCastExactly(n: int, x: int)
    ensures x == CastSigned(n, 8) <==> SignedFits(x, 8) && (x - n) % 0x1_0000_0000_0000_0000 == 0
  {
    var q := (n + 0x8000_0000_0000_0000) / 0x1_0000_0000_0000_0000;
    assert CastSigned(n, 8) == n - 0x1_0000_0000_0000_0000 * q;
    if x == CastSigned(n, 8) { assert x - n == 0x1_0000_0000_0000_0000 * -q; }
  }

  lemma SignedExactly(n: nat, size: nat, x: int)
    ensures var svalue := CastSigned(n, if size == 8 then 8 else 4);
      (size in {1, 2, 4, 8} && CastSigned(svalue, size) == svalue && x == svalue)
      <==> SignedFits(x, size) && (if size == 8 then (x - n) % 0x1_0000_0000_0000_0000 == 0 else (x - n) % 0x1_0000_0000 == 0)
  {
    if size in {1, 2, 4, 8} { CastFits(x, size); }
    if size == 8 { WideCastExactly(n, x); } else { CastExactly(n, x); }
  }

  lemma {:induction false} Below64(s: seq<byte>, bitpos: nat, result: nat)
    requires result < TWO64 && Varint64From(s, bitpos, result).Ok?
    ensures Varint64From(s, bitpos, result).value < TWO64
    decreases |s|
  {
    var more := Shl(s[0] % 128, bitpos) % 0x1_0000_0000_0000_0000;
    ShlBy63(1);
    assert Shl(1, 64) == TWO64;
    BitOrBound(result, more, 64);
    if s[0] >= 128 { Below64(s[1..], bitpos + 7, BitOr(result, more)); }
  }

  lemma NumberExactly(f: Field, s: seq<byte>, v: Value, rest: seq<byte>)
    requires f.ltype in {LVarint, LUvarint, LSvarint}
    ensures DecScalar(f, s) == Ok(v, rest) <==> Denotes(f, s, v, rest)
  {
    if Varint64(s).Ok? {
      Below64(s, 0, 0);
      var n := Varint64(s).value;
      match f.ltype
      case LVarint => if v.Num? { SignedExactly(n, f.dataSize, v.n); }
      case LUvarint => if f.dataSize in {1, 2, 4, 8} { CastUnsignedFits(n, f.dataSize); }
      case LSvarint =>
        ZigZagExactly(n);
        if f.dataSize in {1, 2, 4, 8} { CastFits(UnZigZag(n), f.dataSize); }
    }
  }

  lemma ZigZagExactly(n: nat)
    ensures forall x: int :: UnZigZag(n) == x <==> n == if x < 0 then -2 * x - 1 else 2 * x
  {
  }

  lemma WordExactly(f: Field, s: seq<byte>, v: Value, rest: seq<byte>)
    requires f.ltype in {LFixed32, LFixed64}
    ensures DecScalar(f, s) == Ok(v, rest) <==> Denotes(f, s, v, rest)
  {
    if f.ltype == LFixed32 && |s| >= 4 { FourBytes(s[..4]); }
    if f.ltype == LFixed64 && |s| >= 8 { EightBytes(s[..8]); }
  }

  lemma StringFieldExactly(f: Field, s: seq<byte>, v: Value, rest: seq<byte>)
    requires f.ltype == LString && Varint32(s).Ok?
    ensures DecScalar(f, s) == Ok(v, rest) <==> DenotesBytes(f, Varint32(s).value, Varint32(s).rest, v, rest)
  {
    var r := Varint32(s);
    if r.value <= |r.rest| { StringExactly(BytesOf(v), r.rest[..r.value]); }
  }

  lemma FixedBytesExactly(f: Field, s: seq<byte>, v: Value, rest: seq<byte>)
    requires f.ltype == LFixedLengthBytes && Varint32(s).Ok?
    ensures DecScalar(f, s) == Ok(v, rest) <==> DenotesBytes(f, Varint32(s).value, Varint32(s).rest, v, rest)
  {
    if Varint32(s).value == 0 { ZerosExactly(f.dataSize, BytesOf(v)); }
  }

  lemma ZerosExactly(n: nat, bs: seq<byte>)
    ensures bs == Zeros(n) <==> |bs| == n && forall k | 0 <= k < |bs| :: bs[k] == 0
  {
  }

  /** The decoder of each field type accepts exactly what denotes a value the field can hold. */
  lemma ScalarExact(f: Field, s: seq<byte>, v: Value, rest: seq<byte>)
    ensures DecScalar(f, s) == Ok(v, rest) <==> Denotes(f, s, v, rest)
  {
    match f.ltype
    case LVarint => NumberExactly(f, s, v, rest);
    case LUvarint => NumberExactly(f, s, v, rest);
    case LSvarint => NumberExactly(f, s, v, rest);
    case LFixed32 => WordExactly(f, s, v, rest);
    case LFixed64 => WordExactly(f, s, v, rest);
    case LString => if Varint32(s).Ok? { StringFieldExactly(f, s, v, rest); }
    case LFixedLengthBytes => if Varint32(s).Ok? { FixedBytesExactly(f, s, v, rest); }
    case _ =>
  }

  /** A member of a oneof is decoded exactly if its value can be, and the member it replaces is a known one. */
  lemma UnionExactly(fs: seq<Field>, st: State, i: nat, wireType: nat, s: seq<byte>)
    requires i < |fs| && |st.slots| == NumSlots(fs) && fs[i].htype == OneOf
    ensures SlotAt(fs, i) < |st.slots|
    ensures var slot := st.slots[SlotAt(fs, i)];
      DecField(fs, st, i, wireType, s).Ok?
      <==> && DecSlot(fs[i], slot, 0, wireType, s).Ok?
           && (WhichOf(slot) == 0 || exists k | 0 <= k < |fs| :: fs[k].tag == WhichOf(slot))
  {
    SlotInRange(fs, i);
    assert fs[i].tag == fs[i].tag;
  }

  // ----- encoding

  /** What the encoder of a field type accepts. */
  ghost predicate EncodableValue(f: Field, v: Value)
    decreases f, 0
  {
    match f.ltype
    case LVarint => f.dataSize in {1, 2, 4, 8}
    case LUvarint => f.dataSize in {1, 2, 4, 8}
    case LSvarint => f.dataSize in {1, 2, 4, 8}
    case LBytes => |BytesOf(v)| + 4 <= f.dataSize
    case LSubmessage => f.ptr.Fields? && AllEncodable(f.ptr.fs, SlotsOf(v))
    case LExtension => false
    case _ => true
  }

  ghost predicate EncodableSlot(f: Field, s: Slot)
    decreases f, 1
  {
    if f.htype == Repeated
    then |ItemsOf(s)| <= f.arraySize && forall k | 0 <= k < |ItemsOf(s)| :: EncodableValue(f, ItemsOf(s)[k])
    else EncodableValue(f, ValueOf(s))
  }

  /** Every field that is written can be: arrays within bounds, bytes that fit, integers of a known size. */
  ghost predicate AllEncodable(fs: seq<Field>, slots: seq<Slot>)
    decreases fs
  {
    forall i | 0 <= i < |fs| && Written(fs[i], At(slots, SlotAt(fs, i))) ::
      EncodableSlot(fs[i], At(slots, SlotAt(fs, i)))
  }

  /** A bool is written as one byte, 0 or 1, whatever is stored in it. */
  lemma BoolIsOneByte(f: Field, v: Value)
    requires f.ltype == LBool
    ensures EncValue(f, v) == Some([0]) || EncValue(f, v) == Some([1])
    ensures EncValue(f, v) == Some([0]) <==> NumOf(v) == 0
  {
    assert EncVarint(0) == [0] && EncVarint(1) == [1];
  }

  lemma ValueEncodes(f: Field, v: Value)
    ensures EncValue(f, v).Some? <==> EncodableValue(f, v)
    decreases f, 0
  {
    if f.ltype == LSubmessage && f.ptr.Fields? { EncodesExactly(f.ptr.fs, SlotsOf(v)); }
  }

  lemma {:induction false} ItemsEncode(f: Field, items: seq<Value>)
    ensures (if Packable(f.ltype) then EncPayload(f, items).Some? else EncUnpacked(f, items).Some?)
        <==> forall k | 0 <= k < |items| :: EncodableValue(f, items[k])
    decreases f, 1, |items|
  {
    if items != [] {
      ValueEncodes(f, items[0]);
      ItemsEncode(f, items[1..]);
      var rest := items[1..];
      assert forall k | 0 <= k < |rest| :: rest[k] == items[k + 1];
      assert (forall k | 0 <= k < |items| :: EncodableValue(f, items[k]))
          <==> EncodableValue(f, items[0]) && forall k | 0 <= k < |rest| :: EncodableValue(f, rest[k]);
    }
  }

  lemma FieldEncodes(f: Field, s: Slot)
    ensures EncField(f, s).Some? <==> (Written(f, s) ==> EncodableSlot(f, s))
    decreases f, 2
  {
    if f.htype == Repeated { ItemsEncode(f, ItemsOf(s)); } else { ValueEncodes(f, ValueOf(s)); }
  }

  lemma {:induction false} FieldsEncode(fs: seq<Field>, slots: seq<Slot>, i: nat)
    requires i <= |fs|
    ensures EncFields(fs, slots, i).Some?
        <==> forall j | i <= j < |fs| && Written(fs[j], At(slots, SlotAt(fs, j))) ::
               EncodableSlot(fs[j], At(slots, SlotAt(fs, j)))
    decreases fs, |fs| - i
  {
    if i < |fs| {
      FieldEncodes(fs[i], At(slots, SlotAt(fs, i)));
      FieldsEncode(fs, slots, i + 1);
    }
  }

  /** pb_encode refuses exactly the messages with a field that is written and does not fit its descriptor. */
  lemma EncodesExactly(fs: seq<Field>, slots: seq<Slot>)
    ensures Encode(fs, slots).Some? <==> AllEncodable(fs, slots)
    decreases fs, |fs| + 1
  {
    FieldsEncode(fs, slots, 0);
  }
}
