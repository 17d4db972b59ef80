/**
 * Field descriptors, messages, and when a message fits its descriptor.
 *
 * A message is a sequence of slots, one for each place of the C struct that holds data: the members of
 * a oneof share one slot. Only what can be observed of a place is kept: the live elements of an array,
 * the bytes of a string up to its NUL.
 */
module Descriptor {
  import opened Bits
  import opened Varint

  datatype LType = LBool | LVarint | LUvarint | LSvarint | LFixed32 | LFixed64
                 | LBytes | LString | LSubmessage | LExtension | LFixedLengthBytes
  datatype HType = Required | Optional | Repeated | OneOf
  datatype AType = Static | Pointer | Callback

  /** What a descriptor's `ptr` leads to: a default value, or the fields of a submessage. */
  datatype Ptr = NullPtr | Default(v: Value) | Fields(fs: seq<Field>)

  /** One entry of a pb_field_t array; the entry with tag 0 that ends the array is left out. */
  datatype Field = Field(
    tag: nat,
    atype: AType,
    htype: HType,
    ltype: LType,
    dataOffset: nat,
    sizeOffset: int,
    dataSize: nat,
    arraySize: nat,
    ptr: Ptr)

  datatype Value = Num(n: int) | Blob(bs: seq<byte>) | Sub(slots: seq<Slot>)

  /**
   * `Plain`: a required field, or a proto3 field without a presence flag. `Opt`: an optional field with
   * its has_ flag. `Many`: an array; the elements that are live, for a fixed-count array the elements
   * known. `Union`: a oneof, with the tag of the member it holds.
   */
  datatype Slot = Plain(v: Value) | Opt(has: bool, v: Value) | Many(items: seq<Value>) | Union(which: nat, v: Value)

  const PB_SIZE_MAX: int := 0xFFFF_FFFF
  const MAX_REQUIRED_FIELDS: nat := 64

  /** Types up to PB_LTYPE_LAST_PACKABLE. */
  predicate Packable(l: LType) {
    l in {LBool, LVarint, LUvarint, LSvarint, LFixed32, LFixed64}
  }

  // ----- where a field lives

  /** The second of two neighbouring fields is a further member of the same oneof. */
  predicate Joins(prev: Field, cur: Field) {
    prev.htype == OneOf && cur.htype == OneOf && cur.dataOffset == PB_SIZE_MAX
  }

  /** The number of slots the first `n` fields take up. */
  function SlotsBefore(fs: seq<Field>, n: nat): (k: nat)
    requires n <= |fs|
    ensures n > 0 ==> k > 0
  {
    if n == 0 then 0
    else if n > 1 && Joins(fs[n - 2], fs[n - 1]) then SlotsBefore(fs, n - 1)
    else SlotsBefore(fs, n - 1) + 1
  }

  function NumSlots(fs: seq<Field>): nat {
    SlotsBefore(fs, |fs|)
  }

  /** The slot of field `i`. */
  function SlotAt(fs: seq<Field>, i: nat): nat
    requires i < |fs|
  {
    SlotsBefore(fs, i + 1) - 1
  }

  /** The number of REQUIRED fields before field `i`. */
  function RequiredBefore(fs: seq<Field>, i: nat): nat
    requires i <= |fs|
  {
    if i == 0 then 0
    else RequiredBefore(fs, i - 1) + (if fs[i - 1].htype == Required then 1 else 0)
  }

  /** The field with a tag, if there is one. */
  function FindTag(fs: seq<Field>, tag: nat): (r: Option<nat>)
    ensures r.Some? ==> r.value < |fs| && fs[r.value].tag == tag
    ensures r.None? ==> forall i | 0 <= i < |fs| :: fs[i].tag != tag
  {
    if fs == [] then None
    else if fs[|fs| - 1].tag == tag then Some(|fs| - 1)
    else FindTag(fs[..|fs| - 1], tag)
  }

  // ----- reading slots

  /** The slot at a position; a struct that is too short for its descriptor has none there. */
  function At(slots: seq<Slot>, p: nat): Slot {
    if p < |slots| then slots[p] else Many([])
  }

  function ValueOf(s: Slot): Value {
    if s.Many? then Num(0) else s.v
  }

  function ItemsOf(s: Slot): seq<Value> {
    if s.Many? then s.items else []
  }

  function HasOf(s: Slot): bool {
    s.Opt? && s.has
  }

  function WhichOf(s: Slot): nat {
    if s.Union? then s.which else 0
  }

  function SlotsOf(v: Value): seq<Slot> {
    if v.Sub? then v.slots else []
  }

  function BytesOf(v: Value): seq<byte> {
    if v.Blob? then v.bs else []
  }

  function NumOf(v: Value): int {
    if v.Num? then v.n else 0
  }

  /** A C string: the bytes before the first NUL. */
  function UpToNul(s: seq<byte>): seq<byte> {
    if s == [] || s[0] == 0 then [] else [s[0]] + UpToNul(s[1..])
  }

  lemma {:induction false} NoNul(s: seq<byte>)
    requires 0 !in s
    ensures UpToNul(s) == s
  {
    if s != [] { NoNul(s[1..]); }
  }

  // ----- default values

  function Zeros(n: nat): (z: seq<byte>) {
    seq(n, _ => 0)
  }

  /** What pb_field_set_to_default puts into the data of a field. */
  function DefaultValue(f: Field): Value
    decreases f, 0
  {
    if f.ltype == LSubmessage then Sub(if f.ptr.Fields? then DefaultSlots(f.ptr.fs) else [])
    else if f.ptr.Default? then f.ptr.v
    else if f.ltype in {LBytes, LString} then Blob([])
    else if f.ltype == LFixedLengthBytes then Blob(Zeros(f.dataSize))
    else Num(0)
  }

  /** Data is initialised except in arrays, which become empty, and in a oneof, which holds no member. */
  function DefaultSlot(f: Field): Slot
    decreases f, 1
  {
    match f.htype
    case Required => Plain(DefaultValue(f))
    case Optional => if f.sizeOffset != 0 then Opt(false, DefaultValue(f)) else Plain(DefaultValue(f))
    case Repeated => Many([])
    case OneOf => Union(0, Num(0))
  }

  /** The slots of the first `n` fields as pb_message_set_to_defaults leaves them. */
  function DefaultPrefix(fs: seq<Field>, n: nat): (slots: seq<Slot>)
    requires n <= |fs|
    ensures |slots| == SlotsBefore(fs, n)
    decreases fs, n
  {
    if n == 0 then []
    else if n > 1 && Joins(fs[n - 2], fs[n - 1]) then DefaultPrefix(fs, n - 1)
    else DefaultPrefix(fs, n - 1) + [DefaultSlot(fs[n - 1])]
  }

  function DefaultSlots(fs: seq<Field>): (slots: seq<Slot>)
    ensures |slots| == NumSlots(fs)
    decreases fs, |fs| + 1
  {
    DefaultPrefix(fs, |fs|)
  }

  // ----- well-formed descriptors and messages

  /** A value of the C type of the field, within the bounds of the field. */
  ghost predicate WfValue(f: Field, v: Value)
    decreases f, 0
  {
    match f.ltype
    case LBool => v.Num? && v.n in {0, 1}
    case LVarint => v.Num? && -TWO63 <= v.n < TWO63 && CastSigned(v.n, f.dataSize) == v.n
    case LSvarint => v.Num? && -TWO63 <= v.n < TWO63 && CastSigned(v.n, f.dataSize) == v.n
    case LUvarint => v.Num? && 0 <= v.n < TWO64 && CastUnsigned(v.n, f.dataSize) == v.n
    case LFixed32 => v.Num? && 0 <= v.n < TWO32
    case LFixed64 => v.Num? && 0 <= v.n < TWO64
    case LBytes => v.Blob? && |v.bs| + 4 <= f.dataSize
    case LString => v.Blob? && |v.bs| < f.dataSize && 0 !in v.bs
    case LFixedLengthBytes => v.Blob? && |v.bs| == f.dataSize
    case LSubmessage => v.Sub? && f.ptr.Fields? && WfSlots(f.ptr.fs, v.slots)
    case LExtension => false
  }

  /** Only data that is present has to make sense. */
  ghost predicate WfSlot(f: Field, s: Slot)
    decreases f, 1
  {
    match f.htype
    case Required => s.Plain? && WfValue(f, s.v)
    case Optional => if f.sizeOffset != 0 then s.Opt? && (s.has ==> WfValue(f, s.v)) else s.Plain? && WfValue(f, s.v)
    case Repeated =>
      && s.Many?
      && (if f.sizeOffset != 0 then |s.items| <= f.arraySize else |s.items| == f.arraySize)
      && forall k | 0 <= k < |s.items| :: WfValue(f, s.items[k])
    case OneOf => s.Union? && (s.which == f.tag ==> WfValue(f, s.v))
  }

  ghost predicate WfSlots(fs: seq<Field>, slots: seq<Slot>)
    decreases fs
  {
    && |slots| == NumSlots(fs)
    && forall i | 0 <= i < |fs| :: WfSlot(fs[i], At(slots, SlotAt(fs, i)))
  }

  /** What the generator guarantees of one entry, in the build with 32-bit descriptor fields. */
  ghost predicate WfField(f: Field)
    decreases f
  {
    && f.atype == Static
    && f.ltype != LExtension
    && 1 <= f.tag < 0x2000_0000
    && f.dataSize <= PB_SIZE_MAX && f.arraySize <= PB_SIZE_MAX
    && (f.ltype in {LVarint, LUvarint, LSvarint} ==> f.dataSize in {1, 2, 4, 8})
    // room for a string's NUL and for the length of a bytes field
    && (f.ltype == LString ==> f.dataSize >= 1) && (f.ltype == LBytes ==> f.dataSize >= 4)
    && (f.htype == Required ==> f.sizeOffset == 0)
    && (f.htype == OneOf ==> f.sizeOffset != 0)
    && (f.ltype == LSubmessage <==> f.ptr.Fields?)
    && (f.ltype == LSubmessage ==> WfFields(f.ptr.fs))
    // a proto3 field has no default of its own
    && (f.htype == Optional && f.sizeOffset == 0 ==> !f.ptr.Default?)
    && (f.ptr.Default? ==> WfValue(f, f.ptr.v))
  }

  ghost predicate WfFields(fs: seq<Field>)
    decreases fs
  {
    && (forall i | 0 <= i < |fs| :: WfField(fs[i]))
    && (forall i, j | 0 <= i < j < |fs| :: fs[i].tag != fs[j].tag)
  }

  // ----- what can be observed of a message

  /** Equal as far as a reader of the field can tell. */
  ghost predicate SameValue(f: Field, a: Value, b: Value)
    decreases f, 0
  {
    if f.ltype == LSubmessage && f.ptr.Fields? then a.Sub? && b.Sub? && SameSlots(f.ptr.fs, a.slots, b.slots)
    else a == b
  }

  ghost predicate SameSlot(f: Field, a: Slot, b: Slot)
    decreases f, 1
  {
    match f.htype
    case Required => SameValue(f, ValueOf(a), ValueOf(b))
    case Optional =>
      if f.sizeOffset != 0
      then HasOf(a) == HasOf(b) && (HasOf(a) ==> SameValue(f, ValueOf(a), ValueOf(b)))
      else SameValue(f, ValueOf(a), ValueOf(b))
    case Repeated =>
      && |ItemsOf(a)| == |ItemsOf(b)|
      && forall k | 0 <= k < |ItemsOf(a)| :: SameValue(f, ItemsOf(a)[k], ItemsOf(b)[k])
    case OneOf =>
      && (WhichOf(a) == f.tag <==> WhichOf(b) == f.tag)
      && (WhichOf(a) == f.tag ==> SameValue(f, ValueOf(a), ValueOf(b)))
  }

  /** Two messages that agree in every field that is present, in all live elements and string contents. */
  ghost predicate SameSlots(fs: seq<Field>, a: seq<Slot>, b: seq<Slot>)
    decreases fs
  {
    forall i | 0 <= i < |fs| :: SameSlot(fs[i], At(a, SlotAt(fs, i)), At(b, SlotAt(fs, i)))
  }

  // ----- slots

  lemma {:induction false} SlotsMonotone(fs: seq<Field>, i: nat, j: nat)
    requires i <= j <= |fs|
    ensures SlotsBefore(fs, i) <= SlotsBefore(fs, j)
    decreases j
  {
    if i < j { SlotsMonotone(fs, i, j - 1); }
  }

  lemma SlotInRange(fs: seq<Field>, i: nat)
    requires i < |fs|
    ensures SlotAt(fs, i) < NumSlots(fs)
  {
    SlotsMonotone(fs, i + 1, |fs|);
  }

  /** Fields that share a slot are members of one oneof. */
  lemma {:induction false} SharedSlot(fs: seq<Field>, i: nat, j: nat)
    requires i < j < |fs| && SlotAt(fs, i) == SlotAt(fs, j)
    ensures fs[i].htype == fs[j].htype == OneOf
    decreases j
  {
    SlotsMonotone(fs, i + 1, j);
    if i + 1 < j {
      SharedSlot(fs, i, j - 1);
    }
  }

  /** The default of a field's slot, except that a oneof counts only once. */
  lemma {:induction false} DefaultAt(fs: seq<Field>, n: nat, i: nat)
    requires i < n <= |fs|
    ensures SlotAt(fs, i) < SlotsBefore(fs, n)
    ensures DefaultPrefix(fs, n)[SlotAt(fs, i)] == DefaultSlot(fs[i])
    decreases n
  {
    SlotsMonotone(fs, i + 1, n);
    if i < n - 1 {
      DefaultAt(fs, n - 1, i);
    } else if n > 1 && Joins(fs[n - 2], fs[n - 1]) {
      DefaultAt(fs, n - 1, n - 2);
    }
  }
}
