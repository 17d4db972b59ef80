/** Structs, and setting them to their default values in place. */
module Defaults {
  import opened Bits
  import opened Descriptor
  import opened Presence
  import FI = FieldIter

  /** A struct that a message is decoded into. */
  class Struct {
    var slots: seq<Slot>

    constructor (slots: seq<Slot>)
      ensures this.slots == slots
    {
      this.slots := slots;
    }
  }

  /** What encoder and decoder need of a descriptor: tags tell fields apart, and there are no extensions. */
  ghost predicate Readable(fs: seq<Field>)
    decreases fs
  {
    && (forall i | 0 <= i < |fs| :: ReadableField(fs[i]))
    && (forall i, j | 0 <= i < j < |fs| :: fs[i].tag != fs[j].tag)
  }

  ghost predicate ReadableField(f: Field)
    decreases f
  {
    && f.atype == Static && f.ltype != LExtension && 0 < f.tag <= 0xFFFF_FFFF
    && (f.ptr.Fields? ==> Readable(f.ptr.fs))
  }

  /** Well-formed descriptors are readable. */
  lemma WfReadable(fs: seq<Field>)
    requires WfFields(fs)
    ensures Readable(fs)
    decreases fs
  {
    forall i | 0 <= i < |fs| ensures ReadableField(fs[i]) {
      assert WfField(fs[i]);
      WfReadableField(fs[i]);
    }
  }

  lemma WfReadableField(f: Field)
    requires WfField(f)
    ensures ReadableField(f)
    decreases f
  {
  }

  /** pb_field_set_to_default on the data of a field. */
  method FieldDefault(f: Field) returns (v: Value)
    requires ReadableField(f)
    ensures v == DefaultValue(f) && PristineData(f, v)
    decreases f, 0
  {
    DefaultPristine(f);
    if f.ltype == LSubmessage {
      if f.ptr.Fields? {
        var sub := new Struct(seq(NumSlots(f.ptr.fs), _ => Many([])));
        MessageSetToDefaults(f.ptr.fs, sub);
        v := Sub(sub.slots);
      } else {
        v := Sub([]);
      }
    } else if f.ptr.Default? {
      v := f.ptr.v;
    } else if f.ltype in {LBytes, LString} {
      v := Blob([]);
    } else if f.ltype == LFixedLengthBytes {
      v := Blob(Zeros(f.dataSize));
    } else {
      v := Num(0);
    }
  }

  /** pb_field_set_to_default on the slot of a field. */
  method FieldSetToDefault(fields: seq<Field>, i: nat, dest: Struct)
    requires i < |fields| && ReadableField(fields[i]) && SlotAt(fields, i) < |dest.slots|
    modifies dest
    ensures dest.slots == old(dest.slots)[SlotAt(fields, i) := DefaultSlot(fields[i])]
    decreases fields[i], 1
  {
    var f, p := fields[i], SlotAt(fields, i);
    match f.htype {
      case Repeated =>
        dest.slots := dest.slots[p := Many([])];
      case OneOf =>
        dest.slots := dest.slots[p := Union(0, Num(0))];
      case Optional =>
        var v := FieldDefault(f);
        dest.slots := dest.slots[p := if f.sizeOffset != 0 then Opt(false, v) else Plain(v)];
      case Required =>
        var v := FieldDefault(f);
        dest.slots := dest.slots[p := Plain(v)];
    }
  }

  /** pb_message_set_to_defaults. */
  method MessageSetToDefaults(fields: seq<Field>, dest: Struct)
    requires Readable(fields) && |dest.slots| == NumSlots(fields)
    modifies dest
    ensures dest.slots == DefaultSlots(fields) && PristineAll(fields, dest.slots)
    decreases fields
  {
    DefaultsPristine(fields);
    var iter, more := FI.Iterate(fields, 0);
    if !more {
      return;
    }
    while more
      invariant iter.Valid() && iter.fields == fields && iter.pos < |fields|
      invariant if more then DefaultsSet(fields, iter.pos, dest.slots) else DefaultsSet(fields, |fields|, dest.slots)
      decreases more, |fields| - iter.pos
    {
      SlotInRange(fields, iter.pos);
      DefaultExtends(fields, iter.pos, dest.slots);
      FieldSetToDefault(fields, iter.pos, dest);
      more := iter.Next();
    }
  }

  /** The slots of the first `n` fields have their defaults. */
  ghost predicate DefaultsSet(fs: seq<Field>, n: nat, slots: seq<Slot>)
    requires n <= |fs|
  {
    SlotsBefore(fs, n) <= |slots| == NumSlots(fs) && slots[..SlotsBefore(fs, n)] == DefaultPrefix(fs, n)
  }

  /** Setting the slot of field `i` extends the default prefix by that field. */
  lemma DefaultExtends(fs: seq<Field>, i: nat, before: seq<Slot>)
    requires i < |fs| && DefaultsSet(fs, i, before)
    ensures SlotAt(fs, i) < |before|
    ensures DefaultsSet(fs, i + 1, before[SlotAt(fs, i) := DefaultSlot(fs[i])])
  {
    SlotInRange(fs, i);
    var p := SlotAt(fs, i);
    var after := before[p := DefaultSlot(fs[i])];
    if i > 0 && Joins(fs[i - 1], fs[i]) {
      DefaultAt(fs, i, i - 1);
      assert before[p] == before[..SlotsBefore(fs, i)][p] == DefaultSlot(fs[i]);
      assert after == before;
    } else {
      assert after[..SlotsBefore(fs, i + 1)] == before[..SlotsBefore(fs, i)] + [DefaultSlot(fs[i])];
    }
  }
}
