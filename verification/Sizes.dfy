/**
 * Every well-formed message encodes; its lengths are within the range of size_t if its encoding is; and its
 * descriptor bounds its encoding.
 */
module Sizes {
  import opened Bits
  import opened Varint
  import opened Descriptor
  import opened EncodeSpec

  // ----- every well-formed message encodes

  lemma {:induction false} PayloadEncodes(f: Field, items: seq<Value>)
    requires WfField(f) && Packable(f.ltype)
    ensures EncPayload(f, items).Some?
    decreases |items|
  {
    if items != [] { PayloadEncodes(f, items[1..]); }
  }

  lemma ValueEncodes(f: Field, v: Value)
    requires WfField(f) && WfValue(f, v)
    ensures EncValue(f, v).Some?
    decreases f, 0, 0
  {
    if f.ltype == LSubmessage { MessageEncodes(f.ptr.fs, v.slots); }
  }

  lemma {:induction false} UnpackedEncodes(f: Field, items: seq<Value>)
    requires WfField(f) && forall k | 0 <= k < |items| :: WfValue(f, items[k])
    ensures EncUnpacked(f, items).Some?
    decreases f, 1, |items|
  {
    if items != [] {
      ValueEncodes(f, items[0]);
      UnpackedEncodes(f, items[1..]);
    }
  }

  lemma FieldEncodes(f: Field, s: Slot)
    requires WfField(f) && WfSlot(f, s)
    ensures EncField(f, s).Some?
    decreases f, 2, 0
  {
    if f.htype != Repeated {
      if Written(f, s) { ValueEncodes(f, s.v); }
    } else if Packable(f.ltype) {
      PayloadEncodes(f, s.items);
    } else {
      UnpackedEncodes(f, s.items);
    }
  }

  lemma {:induction false} FieldsEncode(fs: seq<Field>, slots: seq<Slot>, i: nat)
    requires WfFields(fs) && WfSlots(fs, slots) && i <= |fs|
    ensures EncFields(fs, slots, i).Some?
    decreases fs, 0, |fs| - i
  {
    if i < |fs| {
      FieldsEncode(fs, slots, i + 1);
      assert WfSlot(fs[i], At(slots, SlotAt(fs, i)));
      FieldEncodes(fs[i], At(slots, SlotAt(fs, i)));
    }
  }

  /** pb_encode succeeds on every well-formed message. */
  lemma MessageEncodes(fs: seq<Field>, slots: seq<Slot>)
    requires WfFields(fs) && WfSlots(fs, slots)
    ensures Encode(fs, slots).Some?
    decreases fs, 1, 0
  {
    FieldsEncode(fs, slots, 0);
  }

  // ----- what is inside an encoding is no longer than it

  lemma {:induction false} FieldWithin(fs: seq<Field>, slots: seq<Slot>, j: nat, i: nat)
    requires j <= i < |fs| && EncFields(fs, slots, j).Some?
    ensures var e := EncField(fs[i], At(slots, SlotAt(fs, i)));
      e.Some? && |e.value| <= |EncFields(fs, slots, j).value|
    decreases i - j
  {
    if j < i { FieldWithin(fs, slots, j + 1, i); }
  }

  lemma {:induction false} ItemWithin(f: Field, items: seq<Value>, k: nat)
    requires k < |items| && EncUnpacked(f, items).Some?
    ensures EncValue(f, items[k]).Some? && |EncValue(f, items[k]).value| <= |EncUnpacked(f, items).value|
    decreases |items|
  {
    if k > 0 { ItemWithin(f, items[1..], k - 1); }
  }

  /** All lengths in a well-formed message are within the range of size_t if the encoding itself is. */
  lemma MessageSmall(fs: seq<Field>, slots: seq<Slot>)
    requires WfFields(fs) && WfSlots(fs, slots)
    requires Encode(fs, slots).Some? ==> |Encode(fs, slots).value| < TWO64
    ensures Small(fs, slots)
    decreases fs, 2
  {
    MessageEncodes(fs, slots);
    forall i | 0 <= i < |fs| ensures SmallSlot(fs[i], At(slots, SlotAt(fs, i))) {
      FieldWithin(fs, slots, 0, i);
      assert WfField(fs[i]) && WfSlot(fs[i], At(slots, SlotAt(fs, i)));
      SlotSmall(fs[i], At(slots, SlotAt(fs, i)));
    }
  }

  lemma SlotSmall(f: Field, s: Slot)
    requires WfField(f) && WfSlot(f, s) && EncField(f, s).Some? && |EncField(f, s).value| < TWO64
    ensures SmallSlot(f, s)
    decreases f, 1
  {
    if f.htype != Repeated {
      if Written(f, s) { ValueSmall(f, s.v); }
    } else if s.items != [] && !Packable(f.ltype) {
      forall k | 0 <= k < |s.items| ensures SmallValue(f, s.items[k]) {
        ItemWithin(f, s.items, k);
        ValueSmall(f, s.items[k]);
      }
    }
  }

  lemma ValueSmall(f: Field, v: Value)
    requires WfField(f) && WfValue(f, v) && EncValue(f, v).Some? && |EncValue(f, v).value| < TWO64
    ensures SmallValue(f, v)
    decreases f, 0
  {
    if f.ltype == LSubmessage { MessageSmall(f.ptr.fs, v.slots); } else if f.ltype == LString { NoNul(v.bs); }
  }

  // ----- a bound from the descriptor

  /** The most bytes a value of the field can take. */
  function MaxValue(f: Field): nat
    decreases f, 0
  {
    if f.ltype == LSubmessage then (if f.ptr.Fields? then 10 + MaxSize(f.ptr.fs, |f.ptr.fs|) else 0)
    else if Packable(f.ltype) then 10
    else 10 + f.dataSize
  }

  function Times(n: nat, x: nat): nat {
    if n == 0 then 0 else x + Times(n - 1, x)
  }

  function MaxField(f: Field): nat
    decreases f, 1
  {
    if f.htype != Repeated then 10 + MaxValue(f)
    else if Packable(f.ltype) then 20 + Times(f.arraySize, 10)
    else Times(f.arraySize, 10 + MaxValue(f))
  }

  /** The most bytes the first `n` fields of a message can take. */
  function MaxSize(fs: seq<Field>, n: nat): nat
    requires n <= |fs|
    decreases fs, n
  {
    if n == 0 then 0 else MaxSize(fs, n - 1) + MaxField(fs[n - 1])
  }

  lemma {:induction false} TimesMonotone(a: nat, b: nat, x: nat)
    requires a <= b
    ensures Times(a, x) <= Times(b, x)
    decreases b
  {
    if a < b { TimesMonotone(a, b - 1, x); }
  }

  lemma NumberFits(f: Field, v: Value)
    requires WfField(f) && WfValue(f, v) && Packable(f.ltype)
    ensures EncScalar(f, v).Some? && |EncScalar(f, v).value| <= 10
  {
    match f.ltype
    case LBool => EncVarintFits(v.n);
    case LVarint => EncVarintFits(ToU64(v.n));
    case LUvarint => EncVarintFits(v.n);
    case LSvarint => EncVarintFits(ZigZag(v.n));
    case LFixed32 =>
    case LFixed64 =>
  }

  lemma DelimitFits(bs: seq<byte>)
    requires |bs| < TWO64
    ensures |Delimit(bs)| <= 10 + |bs|
  {
    EncVarintFits(|bs|);
  }

  lemma TagFits(f: Field)
    requires WfField(f)
    ensures |EncTagFor(f)| <= 10 && |EncTag(WT_STRING, f.tag)| <= 10
  {
    EncVarintFits(f.tag * 8 + WireType(f.ltype));
    EncVarintFits(f.tag * 8 + WT_STRING);
  }

  lemma {:induction false} PayloadFits(f: Field, items: seq<Value>)
    requires WfField(f) && Packable(f.ltype) && forall k | 0 <= k < |items| :: WfValue(f, items[k])
    ensures EncPayload(f, items).Some? && |EncPayload(f, items).value| <= Times(|items|, 10)
    decreases |items|
  {
    if items != [] {
      NumberFits(f, items[0]);
      PayloadFits(f, items[1..]);
    }
  }

  lemma ValueFits(f: Field, v: Value)
    requires WfField(f) && WfValue(f, v) && MaxValue(f) < TWO64
    ensures EncValue(f, v).Some? && |EncValue(f, v).value| <= MaxValue(f)
    decreases f, 0, 0
  {
    if f.ltype == LSubmessage {
      MessageFits(f.ptr.fs, v.slots);
      DelimitFits(Encode(f.ptr.fs, v.slots).value);
    } else if Packable(f.ltype) {
      NumberFits(f, v);
    } else {
      if f.ltype == LString { NoNul(v.bs); }
      DelimitFits(v.bs);
    }
  }

  lemma {:induction false} UnpackedFits(f: Field, items: seq<Value>)
    requires WfField(f) && MaxValue(f) < TWO64 && forall k | 0 <= k < |items| :: WfValue(f, items[k])
    ensures EncUnpacked(f, items).Some? && |EncUnpacked(f, items).value| <= Times(|items|, 10 + MaxValue(f))
    decreases f, 1, |items|
  {
    if items != [] {
      TagFits(f);
      ValueFits(f, items[0]);
      UnpackedFits(f, items[1..]);
    }
  }

  lemma ArrayFits(f: Field, items: seq<Value>)
    requires WfField(f) && f.htype == Repeated && MaxField(f) < TWO64 && items != [] && |items| <= f.arraySize
    requires forall k | 0 <= k < |items| :: WfValue(f, items[k])
    ensures EncArray(f, items).Some? && |EncArray(f, items).value| <= MaxField(f)
    decreases f, 2, 0
  {
    if Packable(f.ltype) {
      PayloadFits(f, items);
      assert |EncPayload(f, items).value| <= Times(f.arraySize, 10) by { TimesMonotone(|items|, f.arraySize, 10); }
      DelimitFits(EncPayload(f, items).value);
      TagFits(f);
    } else {
      assert MaxValue(f) <= MaxField(f) by { TimesMonotone(1, f.arraySize, 10 + MaxValue(f)); }
      UnpackedFits(f, items);
      TimesMonotone(|items|, f.arraySize, 10 + MaxValue(f));
    }
  }

  lemma FieldFits(f: Field, s: Slot)
    requires WfField(f) && WfSlot(f, s) && MaxField(f) < TWO64
    ensures EncField(f, s).Some? && |EncField(f, s).value| <= MaxField(f)
    decreases f, 3, 0
  {
    if f.htype == Repeated {
      if s.items != [] { ArrayFits(f, s.items); }
    } else if Written(f, s) {
      TagFits(f);
      ValueFits(f, s.v);
    }
  }

  /** What the fields from `i` on add to the first `i`. */
  lemma {:induction false} FieldsFit(fs: seq<Field>, slots: seq<Slot>, i: nat)
    requires WfFields(fs) && WfSlots(fs, slots) && i <= |fs| && MaxSize(fs, |fs|) < TWO64
    ensures EncFields(fs, slots, i).Some?
    ensures MaxSize(fs, i) + |EncFields(fs, slots, i).value| <= MaxSize(fs, |fs|)
    decreases fs, 0, |fs| - i
  {
    if i < |fs| {
      FieldsFit(fs, slots, i + 1);
      assert WfSlot(fs[i], At(slots, SlotAt(fs, i)));
      FieldFits(fs[i], At(slots, SlotAt(fs, i)));
    }
  }

  /** pb_encode succeeds on every well-formed message and writes no more than its descriptor allows. */
  lemma MessageFits(fs: seq<Field>, slots: seq<Slot>)
    requires WfFields(fs) && WfSlots(fs, slots) && MaxSize(fs, |fs|) < TWO64
    ensures Encode(fs, slots).Some? && |Encode(fs, slots).value| <= MaxSize(fs, |fs|)
    decreases fs, 1, 0
  {
    FieldsFit(fs, slots, 0);
  }
}
