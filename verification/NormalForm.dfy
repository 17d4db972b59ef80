/**
 * What pb_decode produces from arbitrary bytes is a well-formed message in normal form: it encodes, and
 * decoding its encoding gives the very same message.
 */
module NormalForm {
  import opened Bits
  import opened Varint
  import opened Descriptor
  import opened EncodeSpec
  import opened DecodeSpec
  import opened RoundTrip
  import opened Sizes

  /** No array without a counter, at any depth. */
  ghost predicate NoFixedCount(fs: seq<Field>)
    decreases fs
  {
    forall i | 0 <= i < |fs| :: Counted(fs[i])
  }

  ghost predicate Counted(f: Field)
    decreases f
  {
    !FixedCount(f) && (f.ptr.Fields? ==> NoFixedCount(f.ptr.fs))
  }

  ghost predicate CanonicalValue(f: Field, v: Value)
    decreases f, 0
  {
    if f.ltype == LSubmessage then v.Sub? && f.ptr.Fields? && Canonical(f.ptr.fs, v.slots) else WfValue(f, v)
  }

  /** Present data is well-formed and canonical itself; absent data has its default. */
  ghost predicate CanonicalSlot(f: Field, s: Slot)
    decreases f, 1
  {
    match f.htype
    case Required => s.Plain? && CanonicalValue(f, s.v)
    case Optional =>
      if f.sizeOffset != 0
      then s.Opt? && CanonicalValue(f, s.v) && (s.has || s.v == DefaultValue(f))
      else s.Plain? && CanonicalValue(f, s.v)
    case Repeated =>
      && s.Many? && |s.items| <= f.arraySize
      && forall k | 0 <= k < |s.items| :: CanonicalValue(f, s.items[k])
    case OneOf => s.Union? && (s.which == f.tag ==> CanonicalValue(f, s.v))
  }

  /** A oneof holds one of its members, or nothing. */
  ghost predicate HoldsMember(fs: seq<Field>, slots: seq<Slot>, p: nat)
    requires p < |slots|
  {
    slots[p].Union? ==>
      || slots[p] == Union(0, Num(0))
      || exists i :: 0 <= i < |fs| && SlotAt(fs, i) == p && fs[i].tag == slots[p].which
  }

  ghost predicate Canonical(fs: seq<Field>, slots: seq<Slot>)
    decreases fs
  {
    && |slots| == NumSlots(fs)
    && (forall i | 0 <= i < |fs| :: CanonicalSlot(fs[i], At(slots, SlotAt(fs, i))))
    && (forall p | 0 <= p < |slots| :: HoldsMember(fs, slots, p))
  }

  // ----- default messages are canonical

  lemma DefaultValueCanonical(f: Field)
    requires WfField(f) && Counted(f)
    ensures CanonicalValue(f, DefaultValue(f))
    decreases f, 0
  {
    if f.ltype == LSubmessage { DefaultCanonical(f.ptr.fs); }
  }

  /** A slot of the default message is the default of one of the fields. */
  lemma {:induction false} DefaultOfSome(fs: seq<Field>, n: nat, p: nat)
    requires n <= |fs| && p < SlotsBefore(fs, n)
    ensures exists i :: 0 <= i < n && DefaultPrefix(fs, n)[p] == DefaultSlot(fs[i])
    decreases n
  {
    if p < SlotsBefore(fs, n - 1) {
      DefaultOfSome(fs, n - 1, p);
    } else {
      assert DefaultPrefix(fs, n)[p] == DefaultSlot(fs[n - 1]);
    }
  }

  lemma DefaultCanonical(fs: seq<Field>)
    requires WfFields(fs) && NoFixedCount(fs)
    ensures Canonical(fs, DefaultSlots(fs))
    decreases fs, 1
  {
    forall i | 0 <= i < |fs| ensures CanonicalSlot(fs[i], At(DefaultSlots(fs), SlotAt(fs, i))) {
      DefaultAt(fs, |fs|, i);
      assert WfField(fs[i]) && Counted(fs[i]);
      DefaultValueCanonical(fs[i]);
    }
    forall p | 0 <= p < NumSlots(fs) ensures HoldsMember(fs, DefaultSlots(fs), p) {
      DefaultOfSome(fs, |fs|, p);
    }
  }

  // ----- decoding keeps messages canonical

  lemma {:induction false} FromLittleEndianBound(s: seq<byte>)
    ensures FromLittleEndian(s) < Shl(1, 8 * |s|)
  {
    if s != [] {
      var n := |s| - 1;
      FromLittleEndianBound(s[1..]);
      ShlTwice(1, 8 * n, 8);
      ShlBy8(Shl(1, 8 * n));
    }
  }

  lemma FixedInRange(f: Field, s: seq<byte>)
    requires f.ltype in {LFixed32, LFixed64} && DecScalar(f, s).Ok?
    ensures WfValue(f, DecScalar(f, s).value)
  {
    ShlBy32(1);
    ShlTwice(1, 63, 1);
    ShlBy63(1);
    if f.ltype == LFixed32 { FromLittleEndianBound(s[..4]); } else { FromLittleEndianBound(s[..8]); }
  }

  lemma CastInRange(n: int, size: nat)
    ensures -TWO63 <= CastSigned(n, size) < TWO63
    ensures 0 <= CastUnsigned(n, size) < TWO64
  {
  }

  /** Each scalar decoder produces values of its type, within the bounds of the field. */
  lemma ScalarInRange(f: Field, s: seq<byte>)
    requires WfField(f) && DecScalar(f, s).Ok?
    ensures WfValue(f, DecScalar(f, s).value)
  {
    var v := DecScalar(f, s).value;
    if f.ltype in {LFixed32, LFixed64} {
      FixedInRange(f, s);
    } else if f.ltype in {LVarint, LSvarint, LUvarint} {
      CastInRange(v.n, f.dataSize);
    } else if f.ltype == LString {
      var r := Varint32(s);
      UpToNulFacts(r.rest[..r.value]);
    }
  }

  lemma {:induction false} PackedCanonical(f: Field, items: seq<Value>, n: nat, s: seq<byte>)
    requires WfField(f) && Packable(f.ltype) && n == |items| <= f.arraySize
    requires forall k | 0 <= k < |items| :: CanonicalValue(f, items[k])
    requires DecPacked(f, items, n, s).Some?
    ensures var r := DecPacked(f, items, n, s).value;
            |r.0| == r.1 <= f.arraySize && forall k | 0 <= k < |r.0| :: CanonicalValue(f, r.0[k])
    decreases |s|
  {
    if s != [] {
      var d := DecScalar(f, s);
      ScalarInRange(f, s);
      PackedCanonical(f, Store(items, n, d.value), n + 1, d.rest);
    }
  }

  lemma ValueCanonical(f: Field, prior: Value, s: seq<byte>)
    requires WfField(f) && Counted(f)
    requires f.ltype == LSubmessage && f.htype != Repeated ==> CanonicalValue(f, prior)
    requires DecValue(f, prior, s).Ok?
    ensures CanonicalValue(f, DecValue(f, prior, s).value)
    decreases f, |s|, 0
  {
    if f.ltype == LSubmessage {
      if f.htype == Repeated { DefaultCanonical(f.ptr.fs); }
      var init := if f.htype == Repeated then DefaultSlots(f.ptr.fs) else SlotsOf(prior);
      MessageCanonical(f.ptr.fs, init, Substream(s).value);
    } else {
      ScalarInRange(f, s);
    }
  }

  lemma SlotCanonical(f: Field, slot: Slot, wireType: nat, s: seq<byte>)
    requires WfField(f) && Counted(f)
    requires CanonicalSlot(f, slot) && DecSlot(f, slot, |ItemsOf(slot)|, wireType, s).Ok?
    ensures CanonicalSlot(f, DecSlot(f, slot, |ItemsOf(slot)|, wireType, s).value.0)
    decreases f, |s|, 1
  {
    match f.htype
    case Required => ValueCanonical(f, slot.v, s);
    case Optional => ValueCanonical(f, slot.v, s);
    case OneOf =>
      DefaultValueCanonical(f);
      ValueCanonical(f, if f.ltype == LSubmessage && slot.which != f.tag then DefaultValue(f) else slot.v, s);
    case Repeated =>
      if wireType == 2 && Packable(f.ltype) {
        PackedCanonical(f, slot.items, |slot.items|, Substream(s).value);
      } else {
        ValueCanonical(f, Num(0), s);
      }
  }

  /** Replacing the slot of field `i` by a canonical one. */
  lemma ReplaceCanonical(fs: seq<Field>, slots: seq<Slot>, i: nat, slot: Slot)
    requires WfFields(fs) && Canonical(fs, slots) && i < |fs| && SlotAt(fs, i) < |slots|
    requires CanonicalSlot(fs[i], slot) && (fs[i].htype == OneOf ==> slot.which == fs[i].tag)
    ensures Canonical(fs, slots[SlotAt(fs, i) := slot])
  {
    var p := SlotAt(fs, i);
    var slots' := slots[p := slot];
    forall j | 0 <= j < |fs| ensures CanonicalSlot(fs[j], At(slots', SlotAt(fs, j))) {
      assert CanonicalSlot(fs[j], At(slots, SlotAt(fs, j)));
      if j < i && SlotAt(fs, j) == p {
        SharedSlot(fs, j, i);
        assert fs[j].tag != fs[i].tag;
      } else if i < j && SlotAt(fs, j) == p {
        SharedSlot(fs, i, j);
        assert fs[i].tag != fs[j].tag;
      }
    }
    forall q | 0 <= q < |slots'| ensures HoldsMember(fs, slots', q) {
      if q != p { assert HoldsMember(fs, slots, q); }
    }
  }

  lemma StepCanonical(fs: seq<Field>, st: State, tag: nat, wireType: nat, s: seq<byte>)
    requires WfFields(fs) && NoFixedCount(fs) && Canonical(fs, st.slots)
    requires DecStep(fs, st, tag, wireType, s).Ok?
    ensures Canonical(fs, DecStep(fs, st, tag, wireType, s).value.slots)
    decreases fs, |s|, 2
  {
    var found := FindTag(fs, tag);
    if found.Some? {
      var i := found.value;
      var slot := At(st.slots, SlotAt(fs, i));
      SlotInRange(fs, i);
      assert CanonicalSlot(fs[i], slot);
      SlotCanonical(fs[i], slot, wireType, s);
      ReplaceCanonical(fs, st.slots, i, DecSlot(fs[i], slot, |ItemsOf(slot)|, wireType, s).value.0);
    }
  }

  lemma {:induction false} LoopCanonical(fs: seq<Field>, st: State, s: seq<byte>)
    requires WfFields(fs) && NoFixedCount(fs) && Canonical(fs, st.slots)
    requires DecLoop(fs, st, s).Ok?
    ensures Canonical(fs, DecLoop(fs, st, s).value.slots)
    decreases fs, |s|, 3
  {
    if s != [] {
      var t := DecTag(s);
      if t.Tag? {
        StepCanonical(fs, st, t.tag, t.wireType, t.rest);
        var r := DecStep(fs, st, t.tag, t.wireType, t.rest);
        LoopCanonical(fs, r.value, r.rest);
      }
    }
  }

  /** Decoding arbitrary bytes into a canonical message leaves a canonical message. */
  lemma MessageCanonical(fs: seq<Field>, slots: seq<Slot>, s: seq<byte>)
    requires WfFields(fs) && NoFixedCount(fs) && Canonical(fs, slots)
    requires DecNoinit(fs, slots, s).Ok?
    ensures Canonical(fs, DecNoinit(fs, slots, s).value)
    decreases fs, |s|, 4
  {
    LoopCanonical(fs, Start(slots), s);
  }

  // ----- canonical messages are well-formed and come back unchanged

  lemma CanonicalValueWf(f: Field, v: Value)
    requires WfField(f) && Counted(f) && CanonicalValue(f, v)
    ensures WfValue(f, v)
    ensures MergeValue(f, DefaultValue(f), v) == v
    decreases f, 0
  {
    if f.ltype == LSubmessage { CanonicalWf(f.ptr.fs, v.slots); }
  }

  lemma CanonicalSlotWf(f: Field, s: Slot)
    requires WfField(f) && Counted(f) && CanonicalSlot(f, s)
    ensures WfSlot(f, s)
    ensures Written(f, s) ==> MergeSlot(f, DefaultSlot(f), s) == s
    ensures !Written(f, s) ==> f.htype == OneOf || s == DefaultSlot(f)
    decreases f, 1
  {
    if f.htype == Repeated {
      forall k | 0 <= k < |s.items| ensures WfValue(f, s.items[k]) && MergeValue(f, DefaultValue(f), s.items[k]) == s.items[k] {
        CanonicalValueWf(f, s.items[k]);
      }
      assert [] + FreshItems(f, s.items) == s.items;
    } else if f.htype != OneOf || s.which == f.tag {
      CanonicalValueWf(f, s.v);
      if !Written(f, s) && f.sizeOffset == 0 { DefaultUnique(f, s); }
    }
  }

  /** A canonical proto3 field that is left out has exactly its default. */
  lemma DefaultUnique(f: Field, s: Slot)
    requires WfField(f) && Counted(f)
    requires f.htype != OneOf && CanonicalSlot(f, s) && IsDefault(f, s)
    ensures s == DefaultSlot(f)
    decreases f, 0, 0
  {
    if f.htype == Optional && f.sizeOffset == 0 {
      if f.ltype == LSubmessage {
        DefaultMessageUnique(f.ptr.fs, s.v.slots);
      } else if f.ltype == LFixedLengthBytes {
        assert s.v.bs == Zeros(0);
      }
    }
  }

  lemma DefaultMessageUnique(fs: seq<Field>, slots: seq<Slot>)
    requires WfFields(fs) && NoFixedCount(fs) && Canonical(fs, slots)
    requires forall i | 0 <= i < |fs| :: IsDefault(fs[i], At(slots, SlotAt(fs, i)))
    ensures slots == DefaultSlots(fs)
    decreases fs, 0, 1
  {
    forall p | 0 <= p < |slots| ensures slots[p] == DefaultSlots(fs)[p] {
      var i := SomeField(fs, |fs|, p);
      DefaultAt(fs, |fs|, i);
      assert CanonicalSlot(fs[i], slots[p]);
      assert IsDefault(fs[i], At(slots, SlotAt(fs, i)));
      assert HoldsMember(fs, slots, p);
      if fs[i].htype != OneOf {
        DefaultUnique(fs[i], slots[p]);
      } else {
        forall j | 0 <= j < |fs| && SlotAt(fs, j) == p ensures fs[j].tag != slots[p].which {
          assert WfField(fs[j]);
        }
      }
    }
  }

  /** A canonical field of a submessage counts as default exactly if nothing is written for it. */
  lemma DefaultIsUnwritten(fs: seq<Field>, slots: seq<Slot>, i: nat)
    requires WfFields(fs) && NoFixedCount(fs) && Canonical(fs, slots) && i < |fs|
    requires fs[i].htype == OneOf ==>
      forall j | 0 <= j < |fs| && SlotAt(fs, j) == SlotAt(fs, i) :: !Written(fs[j], At(slots, SlotAt(fs, j)))
    ensures IsDefault(fs[i], At(slots, SlotAt(fs, i))) <==> !Written(fs[i], At(slots, SlotAt(fs, i)))
  {
    var f, p := fs[i], SlotAt(fs, i);
    SlotInRange(fs, i);
    assert WfField(f) && Counted(f) && CanonicalSlot(f, slots[p]) && HoldsMember(fs, slots, p);
  }

  /** What is written is not empty. */
  lemma WrittenIsSome(f: Field, s: Slot)
    requires WfField(f) && CanonicalSlot(f, s) && Written(f, s)
    ensures EncField(f, s) != Some([])
  {
    if f.htype != Repeated {
      TaggedIsSome(f, ValueOf(s), Some([]));
    } else if !Packable(f.ltype) {
      var items := s.items;
      TaggedIsSome(f, items[0], EncUnpacked(f, items[1..]));
      assert EncUnpacked(f, items) == Append(EncTagged(f, items[0]), EncUnpacked(f, items[1..]));
      assert EncField(f, s) == EncArray(f, items);
    }
  }

  lemma TaggedIsSome(f: Field, v: Value, more: Option<seq<byte>>)
    ensures EncTagged(f, v) != Some([]) && Append(EncTagged(f, v), more) != Some([])
  {
    assert |EncTagFor(f)| > 0;
  }

  lemma {:induction false} NothingWritten(fs: seq<Field>, slots: seq<Slot>, i: nat)
    requires WfFields(fs) && Canonical(fs, slots) && i <= |fs|
    ensures EncFields(fs, slots, i) == Some([]) <==> forall j | i <= j < |fs| :: !Written(fs[j], At(slots, SlotAt(fs, j)))
    decreases |fs| - i
  {
    if i < |fs| {
      NothingWritten(fs, slots, i + 1);
      var f, s := fs[i], At(slots, SlotAt(fs, i));
      assert WfField(f) && CanonicalSlot(f, s);
      if Written(f, s) {
        WrittenIsSome(f, s);
      } else {
        assert EncField(f, s) == Some([]);
        var more := EncFields(fs, slots, i + 1);
        if more.Some? { assert [] + more.value == more.value; }
      }
    }
  }

  /** A canonical submessage counts as default exactly if it is encoded to no bytes. */
  lemma DefaultIsEmpty(fs: seq<Field>, slots: seq<Slot>)
    requires WfFields(fs) && NoFixedCount(fs) && Canonical(fs, slots)
    ensures Encode(fs, slots) == Some([]) <==> forall i | 0 <= i < |fs| :: IsDefault(fs[i], At(slots, SlotAt(fs, i)))
  {
    NothingWritten(fs, slots, 0);
    if forall j | 0 <= j < |fs| :: !Written(fs[j], At(slots, SlotAt(fs, j))) {
      forall i | 0 <= i < |fs| ensures IsDefault(fs[i], At(slots, SlotAt(fs, i))) {
        DefaultIsUnwritten(fs, slots, i);
      }
    }
    if forall i | 0 <= i < |fs| :: IsDefault(fs[i], At(slots, SlotAt(fs, i))) {
      forall i | 0 <= i < |fs| ensures !Written(fs[i], At(slots, SlotAt(fs, i))) {
        DefaultIsLeftOut(fs[i], At(slots, SlotAt(fs, i)));
      }
    }
  }

  lemma DefaultIsLeftOut(f: Field, s: Slot)
    requires WfField(f) && IsDefault(f, s)
    ensures !Written(f, s)
  {
  }

  predicate Blank(f: Field, v: Value) {
    match f.ltype
    case LSubmessage => f.ptr.Fields? && Encode(f.ptr.fs, SlotsOf(v)) == Some([])
    case LBytes => v == Blob([])
    case LString => v == Blob([])
    case LFixedLengthBytes => f.dataSize == 0
    case _ => v == Num(0)
  }

  /**
   * Exactly which proto3 fields are left out: numbers that are zero, strings and bytes that are empty, and
   * submessages of which nothing is written. Bytes of a fixed length are left out only if that is none.
   */
  lemma LeftOutExactly(f: Field, s: Slot)
    requires WfField(f) && Counted(f) && CanonicalSlot(f, s) && f.htype == Optional && f.sizeOffset == 0
    ensures EncField(f, s) == Some([])
        <==> Blank(f, ValueOf(s))
  {
    if Written(f, s) { WrittenIsSome(f, s); }
    if f.ltype == LSubmessage { DefaultIsEmpty(f.ptr.fs, s.v.slots); }
  }

  /** Every slot belongs to a field. */
  lemma {:induction false} SomeField(fs: seq<Field>, n: nat, p: nat) returns (i: nat)
    requires n <= |fs| && p < SlotsBefore(fs, n)
    ensures i < n && SlotAt(fs, i) == p
    decreases n
  {
    if p < SlotsBefore(fs, n - 1) {
      i := SomeField(fs, n - 1, p);
    } else {
      i := n - 1;
    }
  }

  lemma CanonicalWf(fs: seq<Field>, slots: seq<Slot>)
    requires WfFields(fs) && NoFixedCount(fs) && Canonical(fs, slots)
    ensures WfSlots(fs, slots)
    ensures CanonSlots(fs, slots) == slots
    decreases fs, 2
  {
    forall i | 0 <= i < |fs| ensures WfSlot(fs[i], At(slots, SlotAt(fs, i))) {
      assert WfField(fs[i]) && Counted(fs[i]) && CanonicalSlot(fs[i], At(slots, SlotAt(fs, i)));
      CanonicalSlotWf(fs[i], At(slots, SlotAt(fs, i)));
    }
    forall p | 0 <= p < |slots| ensures CanonSlots(fs, slots)[p] == slots[p] {
      CanonicalSlotBack(fs, slots, p);
    }
  }

  lemma CanonicalSlotBack(fs: seq<Field>, slots: seq<Slot>, p: nat)
    requires WfFields(fs) && NoFixedCount(fs) && Canonical(fs, slots) && p < |slots|
    ensures CanonSlots(fs, slots)[p] == slots[p]
    decreases fs, 1
  {
    var i := SomeField(fs, |fs|, p);
    assert CanonicalSlot(fs[i], At(slots, SlotAt(fs, i))) && HoldsMember(fs, slots, p);
    if fs[i].htype == OneOf && slots[p] != Union(0, Num(0)) {
      i :| 0 <= i < |fs| && SlotAt(fs, i) == p && fs[i].tag == slots[p].which;
    }
    assert WfField(fs[i]) && Counted(fs[i]) && CanonicalSlot(fs[i], At(slots, SlotAt(fs, i)));
    CanonicalSlotWf(fs[i], slots[p]);
    DefaultAt(fs, |fs|, i);
    if Written(fs[i], slots[p]) {
      MergedSlot(fs, DefaultSlots(fs), slots, i);
    } else {
      forall k | 0 <= k < |fs| && SlotAt(fs, k) == p ensures !Written(fs[k], slots[p]) {
        assert WfField(fs[k]);
        if k < i { SharedSlot(fs, k, i); }
        if i < k { SharedSlot(fs, i, k); }
      }
      Untouched(fs, DefaultSlots(fs), slots, |fs|, p);
    }
  }

  // ----- the normal form

  /**
   * Whatever bytes pb_decode accepts, the message it produces is well-formed and encodes again; and if that
   * encoding is below 4 GiB, decoding it gives the same message and consumes it all. The descriptor has no
   * fixed-count array.
   */
  lemma DecodeEncodeDecode(fs: seq<Field>, s: seq<byte>)
    requires WfFields(fs) && NoFixedCount(fs) && Decode(fs, s).Ok?
    ensures var m := Decode(fs, s).value;
            && WfSlots(fs, m)
            && Encode(fs, m).Some?
            && (|Encode(fs, m).value| < TWO32 ==> Decode(fs, Encode(fs, m).value) == Ok(m, []))
  {
    var m := Decode(fs, s).value;
    DefaultCanonical(fs);
    MessageCanonical(fs, DefaultSlots(fs), s);
    CanonicalWf(fs, m);
    MessageEncodes(fs, m);
    if |Encode(fs, m).value| < TWO32 {
      DefaultFits(fs, m);
      MessageReads(fs, DefaultSlots(fs), m);
    }
  }

  /** Two byte sequences decode to the same message exactly if re-encoding them gives the same bytes. */
  lemma NormalFormsDecide(fs: seq<Field>, s: seq<byte>, t: seq<byte>)
    requires WfFields(fs) && NoFixedCount(fs) && Decode(fs, s).Ok? && Decode(fs, t).Ok?
    requires var e := Encode(fs, Decode(fs, s).value); e.Some? ==> |e.value| < TWO32
    ensures Decode(fs, s).value == Decode(fs, t).value
        <==> Encode(fs, Decode(fs, s).value) == Encode(fs, Decode(fs, t).value)
  {
    DecodeEncodeDecode(fs, s);
    DecodeEncodeDecode(fs, t);
  }

  /** The encoding of a message is below 4 GiB whatever it holds, if its descriptor allows no more. */
  lemma BoundedNormalForm(fs: seq<Field>, s: seq<byte>)
    requires WfFields(fs) && NoFixedCount(fs) && Decode(fs, s).Ok? && MaxSize(fs, |fs|) < TWO32
    ensures var m := Decode(fs, s).value;
            Encode(fs, m).Some? && Decode(fs, Encode(fs, m).value) == Ok(m, [])
  {
    DecodeEncodeDecode(fs, s);
    MessageFits(fs, Decode(fs, s).value);
  }
}
