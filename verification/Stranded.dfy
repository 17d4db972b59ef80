/**
 * Where a stream stands after a refused message. A substream is closed by skipping what is left of it, so
 * that its parent goes on after it. Only a packed field that is refused with bytes left is not closed: its
 * data has been taken off the bytes that are left, but never skipped, and every stream around it stops short
 * by as much.
 */
module Stranded {
  import opened Bits
  import opened Varint
  import opened Descriptor
  import opened DecodeSpec

  // ----- how far the scalar decoders read, also when they fail

  /** The bytes left when the loop of pb_decode_varint32_eof ends or gives up. */
  function Left32From(s: seq<byte>, bitpos: nat, result: nat): (n: nat)
    requires bitpos < 256 && result < TWO32
    ensures n <= |s|
  {
    if s == [] then 0 else
    var b := s[0];
    var ext := if bitpos < 63 then 0xFF else 0x01;
    if b < 128 || (bitpos >= 32 && b % 128 != 0 && (result / 0x8000_0000 == 0 || b != ext)) then |s| - 1 else
    var result' := if bitpos >= 32 then result else BitOr(result, Shl(b % 128, bitpos) % 0x1_0000_0000);
    assert result' < TWO32 by {
      ShlBy32(1);
      if bitpos < 32 { BitOrBound(result, Shl(b % 128, bitpos) % 0x1_0000_0000, 32); }
    }
    Left32From(s[1..], (bitpos + 7) % 256, result')
  }

  function Left32(s: seq<byte>): (n: nat)
    ensures n <= |s|
  {
    if s == [] then 0
    else if s[0] < 128 then |s| - 1
    else Left32From(s[1..], 7, s[0] % 128)
  }

  /** The bytes left when pb_decode_varint ends or gives up. */
  function Left64From(s: seq<byte>, bitpos: nat): (n: nat)
    ensures n <= |s|
  {
    if bitpos >= 64 || s == [] then |s|
    else if s[0] >= 128 then Left64From(s[1..], bitpos + 7)
    else |s| - 1
  }

  /** The bytes left after a decoder of a packable type. */
  function LeftScalar(f: Field, s: seq<byte>): (n: nat)
    requires Packable(f.ltype)
    ensures n <= |s|
  {
    match f.ltype
    case LBool => Left32(s)
    case LFixed32 => if |s| < 4 then |s| else |s| - 4
    case LFixed64 => if |s| < 8 then |s| else |s| - 8
    case _ => Left64From(s, 0)
  }

  /** The bytes left of a packed field when its loop ends: at the end, at a full array or at a bad element. */
  function PackedLeft(f: Field, n: nat, s: seq<byte>): (k: nat)
    requires Packable(f.ltype)
    ensures k <= |s|
    decreases |s|
  {
    if s == [] then 0
    else if n >= f.arraySize then |s|
    else match DecScalar(f, s)
      case Fail => LeftScalar(f, s)
      case Ok(_, rest) => PackedLeft(f, n + 1, rest)
  }

  // ----- what is stranded

  /** Data that has been taken off the stream but not skipped when a value is refused. */
  function StrandedValue(f: Field, prior: Value, s: seq<byte>): seq<byte>
    decreases f, |s|, 0
  {
    if f.ltype != LSubmessage then [] else
    match Substream(s)
    case Fail => []
    case Ok(body, _) =>
      // a submessage without a descriptor is left alone as well
      if !f.ptr.Fields? then body
      else StrandedMessage(f.ptr.fs, if f.htype == Repeated then DefaultSlots(f.ptr.fs) else SlotsOf(prior), body)
  }

  /** The same for a field: a packed one is left alone if some of it has not been read. */
  function StrandedSlot(f: Field, slot: Slot, n: nat, wireType: nat, s: seq<byte>): seq<byte>
    decreases f, |s|, 1
  {
    match f.htype
    case Required => StrandedValue(f, ValueOf(slot), s)
    case Optional => StrandedValue(f, ValueOf(slot), s)
    case Repeated =>
      if n > |ItemsOf(slot)| then []
      else if wireType == 2 && Packable(f.ltype) then
        (match Substream(s)
         case Fail => []
         case Ok(body, _) => if PackedLeft(f, n, body) != 0 then body else [])
      else if n >= f.arraySize then []
      else StrandedValue(f, Num(0), s)
    case OneOf =>
      StrandedValue(f, if f.ltype == LSubmessage && WhichOf(slot) != f.tag && f.ptr.Fields?
                       then Sub(DefaultSlots(f.ptr.fs)) else ValueOf(slot), s)
  }

  function StrandedField(fs: seq<Field>, st: State, i: nat, wireType: nat, s: seq<byte>): seq<byte>
    requires i < |fs| && |st.slots| == NumSlots(fs)
    decreases fs, |s|, 2
  {
    SlotInRange(fs, i);
    var f, slot := fs[i], st.slots[SlotAt(fs, i)];
    if FixedCount(f) && st.fixed != Some(i) && !FixedDone(fs, st) then []
    else if !UnionOk(fs, f, slot) then []
    else StrandedSlot(f, slot, Received(fs, st, i), wireType, s)
  }

  function StrandedStep(fs: seq<Field>, st: State, tag: nat, wireType: nat, s: seq<byte>): seq<byte>
    requires |st.slots| == NumSlots(fs)
    decreases fs, |s|, 3
  {
    var i := FindTag(fs, tag);
    if i.Some? then StrandedField(fs, st, i.value, wireType, s) else []
  }

  /** The fields are accepted up to the one that is refused. */
  function StrandedLoop(fs: seq<Field>, st: State, s: seq<byte>): seq<byte>
    requires |st.slots| == NumSlots(fs)
    decreases fs, |s|, 4
  {
    if s == [] then []
    else match DecTag(s)
      case Bad => []
      case End(_) => []
      case Tag(tag, wireType, rest) =>
        match DecStep(fs, st, tag, wireType, rest)
        case Fail => StrandedStep(fs, st, tag, wireType, rest)
        case Ok(st', rest') => StrandedLoop(fs, st', rest')
  }

  /** What pb_decode_noinit leaves stranded. */
  function StrandedMessage(fs: seq<Field>, slots: seq<Slot>, s: seq<byte>): seq<byte>
    decreases fs, |s|, 5
  {
    if |slots| != NumSlots(fs) then [] else StrandedLoop(fs, Start(slots), s)
  }

  /** A loop that gets through leaves nothing stranded. */
  lemma {:induction false} AcceptedStrandsNothing(fs: seq<Field>, st: State, s: seq<byte>)
    requires |st.slots| == NumSlots(fs) && DecLoop(fs, st, s).Ok?
    ensures StrandedLoop(fs, st, s) == []
    decreases |s|
  {
    if s != [] && DecTag(s).Tag? {
      var t := DecTag(s);
      var r := DecStep(fs, st, t.tag, t.wireType, t.rest);
      AcceptedStrandsNothing(fs, r.value, r.rest);
    }
  }

  /** How far pb_decode_delimited moves the stream, once it has read the length. */
  function Moves(fs: seq<Field>, s: seq<byte>): int
    requires Substream(s).Ok?
  {
    |s| - |Substream(s).rest| - |StrandedMessage(fs, DefaultSlots(fs), Substream(s).value)|
  }

  // ----- a message that is refused but not skipped

  /** A counted array with room for one number. */
  predicate RoomForOne(f: Field) {
    && f.htype == Repeated && f.ltype == LUvarint && f.tag == 1
    && f.sizeOffset != 0 && f.dataSize == 4 && f.arraySize == 1
  }

  lemma OneByte(b: byte, rest: seq<byte>)
    requires b < 128
    ensures Varint32([b] + rest) == Ok(b, rest)
    ensures Varint64([b] + rest) == Ok(b, rest)
  {
    assert ([b] + rest)[1..] == rest;
    assert Varint64From([b] + rest, 0, 0) == Ok(b, rest);
  }

  /** Two numbers, packed: the second is refused before it is read. */
  lemma SecondIsStranded(f: Field)
    requires RoomForOne(f)
    ensures DecPacked(f, [], 0, [1, 1]) == None && PackedLeft(f, 0, [1, 1]) == 1
  {
    var one: seq<byte> := [1];
    OneByte(1, one);
    assert [1] + one == [1, 1];
    assert CastUnsigned(1, f.dataSize) == 1;
    assert DecScalar(f, [1, 1]) == Ok(Num(1), one);
    assert DecPacked(f, Store([], 0, Num(1)), 1, one) == None;
    assert PackedLeft(f, 1, one) == 1;
  }

  /** The message 0A 02 01 01 is refused, and leaves the two bytes of its packed field stranded. */
  lemma RefusedShort(f: Field)
    requires RoomForOne(f)
    ensures Decode([f], [0x0A, 0x02, 0x01, 0x01]).Fail?
    ensures StrandedMessage([f], DefaultSlots([f]), [0x0A, 0x02, 0x01, 0x01]) == [1, 1]
  {
    var fs, pair: seq<byte> := [f], [1, 1];
    var data, body: seq<byte> := [0x02] + pair, [0x0A] + ([0x02] + pair);
    assert body == [0x0A, 0x02, 0x01, 0x01];
    OneByte(0x0A, data);
    OneByte(0x02, pair);
    SecondIsStranded(f);
    assert DefaultPrefix(fs, 1) == DefaultPrefix(fs, 0) + [Many([])];
    var st := Start(DefaultSlots(fs));
    assert st.slots == [Many([])] && SlotAt(fs, 0) == 0 && FindTag(fs, 1) == Some(0);
    assert pair[..2] == pair && pair[2..] == [];
    assert Substream(data) == Ok(pair, []);
    assert DecSlot(f, Many([]), 0, 2, data) == Fail && StrandedSlot(f, Many([]), 0, 2, data) == pair;
    assert DecField(fs, st, 0, 2, data) == Fail && StrandedField(fs, st, 0, 2, data) == pair;
    assert DecTag(body) == Tag(1, 2, data) && DecStep(fs, st, 1, 2, data) == Fail;
    assert StrandedStep(fs, st, 1, 2, data) == pair;
    assert DecLoop(fs, st, body) == Fail && StrandedLoop(fs, st, body) == pair;
  }
}
