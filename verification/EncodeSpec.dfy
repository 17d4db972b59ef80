/** The bytes pb_encode produces for a message, or None where it reports an error in the message. */
module EncodeSpec {
  import opened Bits
  import opened Varint
  import opened Descriptor

  const WT_VARINT: nat := 0
  const WT_64BIT: nat := 1
  const WT_STRING: nat := 2
  const WT_32BIT: nat := 5

  function EncTag(wireType: nat, tag: nat): seq<byte> {
    EncVarint(tag * 8 + wireType)
  }

  function WireType(l: LType): nat {
    match l
    case LBool => WT_VARINT
    case LVarint => WT_VARINT
    case LUvarint => WT_VARINT
    case LSvarint => WT_VARINT
    case LFixed32 => WT_32BIT
    case LFixed64 => WT_64BIT
    case _ => WT_STRING
  }

  function EncTagFor(f: Field): seq<byte> {
    EncTag(WireType(f.ltype), f.tag)
  }

  /** A length and that many bytes. */
  function Delimit(bs: seq<byte>): seq<byte> {
    EncVarint(|bs|) + bs
  }

  function Append(a: Option<seq<byte>>, b: Option<seq<byte>>): Option<seq<byte>> {
    if a.Some? && b.Some? then Some(a.value + b.value) else None
  }

  /** A string array that is full has no NUL. */
  function InBounds(s: seq<byte>, size: nat): seq<byte> {
    if |s| <= size then s else s[..size]
  }

  /** The field encoders other than pb_enc_submessage. */
  function EncScalar(f: Field, v: Value): Option<seq<byte>> {
    match f.ltype
    case LBool => Some(EncVarint(if NumOf(v) != 0 then 1 else 0))
    case LVarint =>
      if f.dataSize in {1, 2, 4, 8} then Some(EncVarint(ToU64(CastSigned(NumOf(v), f.dataSize)))) else None
    case LUvarint =>
      if f.dataSize in {1, 2, 4, 8} then Some(EncVarint(CastUnsigned(NumOf(v), f.dataSize))) else None
    case LSvarint =>
      if f.dataSize in {1, 2, 4, 8} then Some(EncVarint(ZigZag(CastSigned(NumOf(v), f.dataSize)))) else None
    case LFixed32 => Some(LittleEndian(CastUnsigned(NumOf(v), 4), 4))
    case LFixed64 => Some(LittleEndian(CastUnsigned(NumOf(v), 8), 8))
    case LBytes => if |BytesOf(v)| + 4 > f.dataSize then None else Some(Delimit(BytesOf(v)))
    case LString => Some(Delimit(UpToNul(InBounds(BytesOf(v), f.dataSize))))
    case LFixedLengthBytes => Some(Delimit(BytesOf(v)))
    case LSubmessage => None
    case LExtension => None
  }

  /** The elements of a packed array. */
  function EncPayload(f: Field, items: seq<Value>): Option<seq<byte>> {
    if items == [] then Some([])
    else Append(EncScalar(f, items[0]), EncPayload(f, items[1..]))
  }

  /** pb_check_proto3_default_value: whether a field of a proto3 message is left out. */
  predicate IsDefault(f: Field, s: Slot)
    decreases f
  {
    match f.htype
    case Required => false
    case Repeated => f.sizeOffset != 0 && ItemsOf(s) == []
    case OneOf => WhichOf(s) == 0
    case Optional =>
      if f.sizeOffset != 0 then !HasOf(s)
      else match f.ltype
        case LBytes => BytesOf(ValueOf(s)) == []
        case LString => UpToNul(BytesOf(ValueOf(s))) == []
        case LFixedLengthBytes => f.dataSize == 0
        case LSubmessage =>
          f.ptr.Fields? ==>
            forall i | 0 <= i < |f.ptr.fs| ::
              IsDefault(f.ptr.fs[i], At(SlotsOf(ValueOf(s)), SlotAt(f.ptr.fs, i)))
        case _ => NumOf(ValueOf(s)) == 0
  }

  function EncValue(f: Field, v: Value): Option<seq<byte>>
    decreases f, 0, 0
  {
    if f.ltype == LSubmessage then
      if !f.ptr.Fields? then None else
      var body := EncFields(f.ptr.fs, SlotsOf(v), 0);
      if body.Some? then Some(Delimit(body.value)) else None
    else EncScalar(f, v)
  }

  function EncTagged(f: Field, v: Value): Option<seq<byte>>
    decreases f, 1, 0
  {
    Append(Some(EncTagFor(f)), EncValue(f, v))
  }

  function EncUnpacked(f: Field, items: seq<Value>): Option<seq<byte>>
    decreases f, 2, |items|
  {
    if items == [] then Some([])
    else Append(EncTagged(f, items[0]), EncUnpacked(f, items[1..]))
  }

  /** encode_array: packed if the type allows it. */
  function EncArray(f: Field, items: seq<Value>): Option<seq<byte>>
    decreases f, 3, 0
  {
    if items == [] then Some([])
    else if |items| > f.arraySize then None
    else if Packable(f.ltype) then
      var payload := EncPayload(f, items);
      if payload.Some? then Some(EncTag(WT_STRING, f.tag) + Delimit(payload.value)) else None
    else EncUnpacked(f, items)
  }

  /** encode_basic_field. */
  function EncField(f: Field, s: Slot): Option<seq<byte>>
    decreases f, 4, 0
  {
    match f.htype
    case Required => EncTagged(f, ValueOf(s))
    case Optional =>
      if (if f.sizeOffset != 0 then HasOf(s) else !IsDefault(f, s)) then EncTagged(f, ValueOf(s)) else Some([])
    case Repeated => EncArray(f, ItemsOf(s))
    case OneOf => if WhichOf(s) == f.tag then EncTagged(f, ValueOf(s)) else Some([])
  }

  /** The fields from `i` on, in the order of the descriptor. */
  function EncFields(fs: seq<Field>, slots: seq<Slot>, i: nat): Option<seq<byte>>
    requires i <= |fs|
    decreases fs, |fs| - i, 0
  {
    if i == |fs| then Some([])
    else Append(EncField(fs[i], At(slots, SlotAt(fs, i))), EncFields(fs, slots, i + 1))
  }

  /** pb_encode. */
  function Encode(fs: seq<Field>, slots: seq<Slot>): Option<seq<byte>> {
    EncFields(fs, slots, 0)
  }

  /** pb_encode_delimited. */
  function EncodeDelimited(fs: seq<Field>, slots: seq<Slot>): Option<seq<byte>> {
    var body := Encode(fs, slots);
    if body.Some? then Some(Delimit(body.value)) else None
  }

  /** Whether pb_encode writes a field at all. */
  predicate Written(f: Field, s: Slot) {
    match f.htype
    case Required => true
    case Optional => if f.sizeOffset != 0 then HasOf(s) else !IsDefault(f, s)
    case Repeated => ItemsOf(s) != []
    case OneOf => WhichOf(s) == f.tag
  }

  // ----- sizes fit size_t

  /** No length prefix in the message exceeds 64 bits. */
  ghost predicate Small(fs: seq<Field>, slots: seq<Slot>)
    decreases fs
  {
    && (Encode(fs, slots).Some? ==> |Encode(fs, slots).value| < TWO64)
    && forall i | 0 <= i < |fs| :: SmallSlot(fs[i], At(slots, SlotAt(fs, i)))
  }

  ghost predicate SmallSlot(f: Field, s: Slot)
    decreases f, 1
  {
    && (f.htype != Repeated && Written(f, s) ==> SmallValue(f, ValueOf(s)))
    && SmallItems(f, ItemsOf(s))
    && SmallPayload(f, ItemsOf(s))
  }

  ghost predicate SmallPayload(f: Field, items: seq<Value>) {
    Packable(f.ltype) && EncPayload(f, items).Some? ==> |EncPayload(f, items).value| < TWO64
  }

  ghost predicate SmallItems(f: Field, items: seq<Value>)
    decreases f, 0, 1
  {
    forall k | 0 <= k < |items| :: SmallValue(f, items[k])
  }

  ghost predicate SmallValue(f: Field, v: Value)
    decreases f, 0, 0
  {
    |BytesOf(v)| < TWO64 && (f.ptr.Fields? ==> Small(f.ptr.fs, SlotsOf(v)))
  }
}
