/** Packed and separately tagged elements of an array are received alike. */
module Packed {
  import opened Bits
  import opened Varint
  import opened Descriptor
  import opened EncodeSpec
  import opened DecodeSpec
  import opened RoundTrip

  /** A packed field with more elements than there is room for. */
  lemma {:induction false} PayloadOverflows(f: Field, done: seq<Value>, items: seq<Value>)
    requires |done| <= f.arraySize < |done| + |items| && AllRead(f, items)
    requires EncPayload(f, items).Some?
    ensures DecPacked(f, done, |done|, EncPayload(f, items).value) == None
    decreases |items|
  {
    AllReadStep(f, items);
    PackedStep(f, done, items, EncPayload(f, items[1..]).value);
    if |done| < f.arraySize {
      PayloadOverflows(f, done + [items[0]], items[1..]);
    }
  }

  /** A packed field that overflows the array is an error. */
  lemma PackedOverflows(fs: seq<Field>, st: State, i: nat, done: seq<Value>, payload: seq<byte>, tail: seq<byte>)
    requires WfFields(fs) && i < |fs| && |st.slots| == NumSlots(fs) && SlotAt(fs, i) < |st.slots|
    requires fs[i].htype == Repeated && Packable(fs[i].ltype) && Receiving(fs, st, i, done)
    requires |payload| < TWO32 && DecPacked(fs[i], done, |done|, payload) == None
    ensures DecLoop(fs, st, EncTag(WT_STRING, fs[i].tag) + Delimit(payload) + tail) == Fail
  {
    var data := Delimit(payload) + tail;
    assert Substream(data) == Ok(payload, tail) by { DelimitReads(payload, tail); }
    assert DecSlot(fs[i], st.slots[SlotAt(fs, i)], |done|, WT_STRING, data) == Fail;
    assert DecField(fs, st, i, WT_STRING, data) == Fail;
    MeetsField(fs, st, i, WT_STRING, data);
    assert EncTag(WT_STRING, fs[i].tag) + Delimit(payload) + tail == EncTag(WT_STRING, fs[i].tag) + data;
  }

  /** Separately tagged elements that overflow the array are an error. */
  lemma {:induction false} UnpackedOverflows(fs: seq<Field>, st: State, i: nat, done: seq<Value>, items: seq<Value>,
                                             tail: seq<byte>)
    requires WfFields(fs) && i < |fs| && |st.slots| == NumSlots(fs) && SlotAt(fs, i) < |st.slots|
    requires fs[i].htype == Repeated && Packable(fs[i].ltype) && Receiving(fs, st, i, done)
    requires |done| <= fs[i].arraySize < |done| + |items|
    requires forall k | 0 <= k < |items| :: WfValue(fs[i], items[k])
    requires var e := EncUnpacked(fs[i], items); e.Some? && |e.value| < TWO32
    ensures DecLoop(fs, st, EncUnpacked(fs[i], items).value + tail) == Fail
    decreases |items|
  {
    var f := fs[i];
    if |done| < f.arraySize {
      var done' := done + [MergeValue(f, DefaultValue(f), items[0])];
      FirstReads(fs, st, i, done, items, tail);
      AfterMoreItems(fs, st, i, done', done');
      UnpackedSplits(f, items, tail);
      UnpackedOverflows(fs, AfterItems(fs, st, i, done'), i, done', items[1..], tail);
    } else {
      UnpackedSplits(f, items, tail);
      var data := EncValue(f, items[0]).value + (EncUnpacked(f, items[1..]).value + tail);
      assert DecSlot(f, st.slots[SlotAt(fs, i)], |done|, WireType(f.ltype), data) == Fail;
      assert DecField(fs, st, i, WireType(f.ltype), data) == Fail;
      MeetsField(fs, st, i, WireType(f.ltype), data);
    }
  }

  /**
   * For a counted array of scalars, the same elements arriving as one packed field or as separately tagged
   * fields are accepted under the same condition, that there is room for them, and leave the same array.
   */
  lemma PackedIsUnpacked(fs: seq<Field>, st: State, i: nat, items: seq<Value>, tail: seq<byte>)
    requires WfFields(fs) && i < |fs| && |st.slots| == NumSlots(fs) && SlotAt(fs, i) < |st.slots|
    requires fs[i].htype == Repeated && !FixedCount(fs[i]) && Packable(fs[i].ltype)
    requires st.slots[SlotAt(fs, i)].Many? && |st.slots[SlotAt(fs, i)].items| <= fs[i].arraySize
    requires items != [] && forall k | 0 <= k < |items| :: WfValue(fs[i], items[k])
    requires var e := EncPayload(fs[i], items); e.Some? && |e.value| < TWO32
    requires var e := EncUnpacked(fs[i], items); e.Some? && |e.value| < TWO32
    ensures var done := st.slots[SlotAt(fs, i)].items;
            var packed := EncTag(WT_STRING, fs[i].tag) + Delimit(EncPayload(fs[i], items).value);
            var unpacked := EncUnpacked(fs[i], items).value;
            var result := if |done| + |items| <= fs[i].arraySize
                          then DecLoop(fs, AfterItems(fs, st, i, done + items), tail) else Fail;
            DecLoop(fs, st, packed + tail) == result && DecLoop(fs, st, unpacked + tail) == result
  {
    var f, done := fs[i], st.slots[SlotAt(fs, i)].items;
    AllReadBack(f, items);
    if |done| + |items| <= f.arraySize {
      assert FreshItems(f, items) == items;
      PackedReads(fs, st, i, done, items, tail);
      UnpackedReads(fs, st, i, done, items, tail);
    } else {
      PayloadOverflows(f, done, items);
      PackedOverflows(fs, st, i, done, EncPayload(f, items).value, tail);
      UnpackedOverflows(fs, st, i, done, items, tail);
    }
  }
}
