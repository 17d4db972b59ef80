/** pb_encode and what it calls for fields, arrays and submessages, writing to an output stream in place. */
module Encoder {
  import opened Bits
  import opened Varint
  import opened Descriptor
  import opened EncodeSpec
  import opened OStream
  import opened ScalarEncoder
  import opened Defaults
  import FI = FieldIter

  // ----- the encoder

  /** What is written in all, when `done` has been written and `rest` comes next. */
  ghost function Then(done: seq<byte>, rest: Option<seq<byte>>): Option<seq<byte>> {
    if rest.Some? then Some(done + rest.value) else None
  }

  lemma AllDone(done: seq<byte>)
    ensures Then(done, Some([])) == Some(done)
  {
    assert done + [] == done;
  }

  lemma NothingDone(rest: Option<seq<byte>>)
    ensures Then([], rest) == rest
  {
    if rest.Some? { assert [] + rest.value == rest.value; }
  }

  /** One more piece of what is written in all. */
  lemma MoreDone(start: View, before: View, after: View, done: seq<byte>, ok: bool,
                 next: Option<seq<byte>>, rest: Option<seq<byte>>, all: Option<seq<byte>>)
    requires Wrote(start, before, true, Some(done)) && Wrote(before, after, ok, next)
    requires Then(done, Append(next, rest)) == all
    ensures if ok then Wrote(start, after, true, Some(done + next.value)) && Then(done + next.value, rest) == all
            else Wrote(start, after, false, all)
  {
    if next.Some? && rest.Some? { assert done + (next.value + rest.value) == done + next.value + rest.value; }
  }

  /** pb_get_encoded_size, and the first pass of pb_encode_submessage. */
  method SizeOf(fields: seq<Field>, slots: seq<Slot>) returns (ok: bool, size: nat)
    requires Readable(fields) && Small(fields, slots)
    ensures ok == EncodeSpec.Encode(fields, slots).Some?
    ensures ok ==> size == |EncodeSpec.Encode(fields, slots).value|
    decreases fields, 2
  {
    var stream := new OStream.Sizing();
    ok := Encode(stream, fields, slots);
    size := stream.bytesWritten;
  }

  lemma DropTwice(s: seq<byte>, i: nat, j: nat)
    requires i <= j <= |s|
    ensures s[j..] == s[i..][j - i..]
  {
  }

  /**
   * The second pass of pb_encode_submessage, on a substream with room for just `size` bytes. Both passes
   * come to the same size, so that the check at the end never fails.
   */
  method EncodeBody(stream: OStream, fields: seq<Field>, slots: seq<Slot>, size: nat) returns (ok: bool)
    requires stream.Valid() && !stream.sizing && Readable(fields) && Small(fields, slots)
    requires EncodeSpec.Encode(fields, slots).Some? && size == |EncodeSpec.Encode(fields, slots).value|
    modifies stream, stream.buf
    ensures stream.Valid() && Wrote(old(stream.View()), stream.View(), ok, EncodeSpec.Encode(fields, slots))
    decreases fields, 2
  {
    if stream.bytesWritten + size > stream.maxSize {
      return false;
    }
    ghost var before, end, far := stream.buf[..], stream.state + size, stream.End();
    var substream := new OStream.Within(stream, size);
    var status := Encode(substream, fields, slots);
    ghost var after := stream.buf[..];
    assert substream.bytesWritten == size && status;
    assert after[far..] == before[far..] by {
      assert after[end..] == before[end..];
      DropTwice(after, end, far);
      DropTwice(before, end, far);
    }
    stream.bytesWritten := stream.bytesWritten + substream.bytesWritten;
    stream.state := substream.state;
    ok := substream.bytesWritten == size && status;
  }

  /** pb_encode_submessage. */
  method EncodeSubmessage(stream: OStream, fields: seq<Field>, slots: seq<Slot>) returns (ok: bool)
    requires stream.Valid() && Readable(fields) && Small(fields, slots)
    modifies stream, stream.buf
    ensures stream.Valid() && Wrote(old(stream.View()), stream.View(), ok, EncodeSpec.EncodeDelimited(fields, slots))
    decreases fields, 3
  {
    var size;
    ok, size := SizeOf(fields, slots);
    if !ok {
      return;
    }
    ok := EncodeVarint(stream, size);
    if !ok {
      return;
    }
    if stream.sizing {
      PbCount(stream, size);
    } else {
      ok := EncodeBody(stream, fields, slots, size);
    }
  }

  /** A field encoder from the table of encoders, by field type. */
  method EncodeValue(stream: OStream, f: Field, v: Value) returns (ok: bool)
    requires stream.Valid() && ReadableField(f) && SmallValue(f, v)
    modifies stream, stream.buf
    ensures stream.Valid() && Wrote(old(stream.View()), stream.View(), ok, EncValue(f, v))
    decreases f, 0
  {
    if f.ltype == LSubmessage {
      if !f.ptr.Fields? {
        return false;
      }
      ok := EncodeSubmessage(stream, f.ptr.fs, SlotsOf(v));
    } else {
      ok := EncScalarField(stream, f, v);
    }
  }

  /** A tag and a value. */
  method EncodeTagged(stream: OStream, f: Field, v: Value) returns (ok: bool)
    requires stream.Valid() && ReadableField(f) && SmallValue(f, v)
    modifies stream, stream.buf
    ensures stream.Valid() && Wrote(old(stream.View()), stream.View(), ok, EncTagged(f, v))
    decreases f, 1
  {
    ok := EncodeTagForField(stream, f);
    if !ok {
      WroteNone(old(stream.View()), stream.View(), Some(EncTagFor(f)), EncValue(f, v));
      return;
    }
    ghost var mid := stream.View();
    ok := EncodeValue(stream, f, v);
    WroteBoth(old(stream.View()), mid, stream.View(), EncTagFor(f), ok, EncValue(f, v));
  }

  /** The loop that writes the elements of a packed array. */
  method EncodePayload(stream: OStream, f: Field, items: seq<Value>) returns (ok: bool)
    requires stream.Valid() && Packable(f.ltype) && SmallItems(f, items)
    modifies stream, stream.buf
    ensures stream.Valid() && Wrote(old(stream.View()), stream.View(), ok, EncPayload(f, items))
  {
    ghost var done := [];
    NothingDone(EncPayload(f, items));
    var i := 0;
    while i < |items|
      invariant i <= |items| && stream.Valid() && Wrote(old(stream.View()), stream.View(), true, Some(done))
      invariant Then(done, EncPayload(f, items[i..])) == EncPayload(f, items)
    {
      assert items[i..][1..] == items[i + 1..];
      ghost var v := stream.View();
      ok := EncScalarField(stream, f, items[i]);
      MoreDone(old(stream.View()), v, stream.View(), done, ok, EncScalar(f, items[i]), EncPayload(f, items[i + 1..]), EncPayload(f, items));
      if !ok {
        return;
      }
      done := done + EncScalar(f, items[i]).value;
      i := i + 1;
    }
    AllDone(done);
    ok := true;
  }

  /** The bytes a packed array takes up: known beforehand for words, else found by a sizing pass. */
  method PayloadSize(f: Field, items: seq<Value>) returns (ok: bool, size: nat)
    requires Packable(f.ltype) && SmallItems(f, items)
    ensures ok == EncPayload(f, items).Some?
    ensures ok ==> size == |EncPayload(f, items).value|
  {
    if f.ltype == LFixed32 {
      WordsHaveOneSize(f, items, 4);
      return true, 4 * |items|;
    }
    if f.ltype == LFixed64 {
      WordsHaveOneSize(f, items, 8);
      return true, 8 * |items|;
    }
    var sizeStream := new OStream.Sizing();
    ok := EncodePayload(sizeStream, f, items);
    size := sizeStream.bytesWritten;
  }

  lemma {:induction false} WordsHaveOneSize(f: Field, items: seq<Value>, size: nat)
    requires (f.ltype == LFixed32 && size == 4) || (f.ltype == LFixed64 && size == 8)
    ensures EncPayload(f, items).Some? && |EncPayload(f, items).value| == size * |items|
    decreases |items|
  {
    if items != [] { WordsHaveOneSize(f, items[1..], size); }
  }

  ghost function EncSized(f: Field, items: seq<Value>): Option<seq<byte>> {
    var payload := EncPayload(f, items);
    if payload.Some? then Some(Delimit(payload.value)) else None
  }

  /** The length and the elements of a packed array. */
  method EncodeSizedPayload(stream: OStream, f: Field, items: seq<Value>) returns (ok: bool)
    requires stream.Valid() && Packable(f.ltype) && SmallItems(f, items)
    requires SmallPayload(f, items)
    modifies stream, stream.buf
    ensures stream.Valid() && Wrote(old(stream.View()), stream.View(), ok, EncSized(f, items))
  {
    var size;
    ok, size := PayloadSize(f, items);
    if !ok {
      return;
    }
    ghost var start, payload := stream.View(), EncPayload(f, items);
    ok := EncodeVarint(stream, size);
    if !ok {
      WroteNone(start, stream.View(), Some(EncVarint(size)), payload);
      return;
    }
    ghost var mid := stream.View();
    if stream.sizing {
      PbCount(stream, size);
    } else {
      ok := EncodePayload(stream, f, items);
    }
    WroteBoth(start, mid, stream.View(), EncVarint(size), ok, payload);
  }

  /** The packed form in encode_array. */
  method EncodePacked(stream: OStream, f: Field, items: seq<Value>) returns (ok: bool)
    requires stream.Valid() && Packable(f.ltype) && SmallItems(f, items) && f.tag < TWO32
    requires SmallPayload(f, items)
    modifies stream, stream.buf
    ensures stream.Valid() && Wrote(old(stream.View()), stream.View(), ok, Append(Some(EncTag(WT_STRING, f.tag)), EncSized(f, items)))
  {
    ghost var start, tag, sized := stream.View(), EncTag(WT_STRING, f.tag), EncSized(f, items);
    ok := EncodeTag(stream, WT_STRING, f.tag);
    if !ok {
      WroteNone(start, stream.View(), Some(tag), sized);
      return;
    }
    ghost var mid := stream.View();
    ok := EncodeSizedPayload(stream, f, items);
    WroteBoth(start, mid, stream.View(), tag, ok, sized);
  }

  /** The loop that writes separately tagged elements. */
  method EncodeUnpacked(stream: OStream, f: Field, items: seq<Value>) returns (ok: bool)
    requires stream.Valid() && ReadableField(f) && SmallItems(f, items)
    modifies stream, stream.buf
    ensures stream.Valid() && Wrote(old(stream.View()), stream.View(), ok, EncUnpacked(f, items))
    decreases f, 2
  {
    ghost var done := [];
    NothingDone(EncUnpacked(f, items));
    var i := 0;
    while i < |items|
      invariant i <= |items| && stream.Valid() && Wrote(old(stream.View()), stream.View(), true, Some(done))
      invariant Then(done, EncUnpacked(f, items[i..])) == EncUnpacked(f, items)
    {
      assert items[i..][1..] == items[i + 1..];
      ghost var v := stream.View();
      ok := EncodeTagged(stream, f, items[i]);
      MoreDone(old(stream.View()), v, stream.View(), done, ok, EncTagged(f, items[i]), EncUnpacked(f, items[i + 1..]), EncUnpacked(f, items));
      if !ok {
        return;
      }
      done := done + EncTagged(f, items[i]).value;
      i := i + 1;
    }
    AllDone(done);
    ok := true;
  }

  /** encode_array. */
  method EncodeArray(stream: OStream, f: Field, items: seq<Value>) returns (ok: bool)
    requires stream.Valid() && ReadableField(f) && SmallItems(f, items)
    requires SmallPayload(f, items)
    modifies stream, stream.buf
    ensures stream.Valid() && Wrote(old(stream.View()), stream.View(), ok, EncArray(f, items))
    decreases f, 3
  {
    if |items| == 0 {
      return true;
    }
    if |items| > f.arraySize {
      return false;
    }
    if Packable(f.ltype) {
      ok := EncodePacked(stream, f, items);
    } else {
      ok := EncodeUnpacked(stream, f, items);
    }
  }

  /** pb_check_proto3_default_value: a submessage is empty if all its fields are. */
  method CheckProto3Default(f: Field, s: Slot) returns (empty: bool)
    requires ReadableField(f)
    ensures empty == IsDefault(f, s)
    decreases f
  {
    match f.htype {
      case Required =>
        return false;
      case Repeated =>
        return f.sizeOffset != 0 && |ItemsOf(s)| == 0;
      case OneOf =>
        return WhichOf(s) == 0;
      case Optional =>
        if f.sizeOffset != 0 {
          return !HasOf(s);
        }
    }
    var v := ValueOf(s);
    match f.ltype {
      case LBytes =>
        empty := |BytesOf(v)| == 0;
      case LString =>
        empty := |BytesOf(v)| == 0 || BytesOf(v)[0] == 0;
      case LFixedLengthBytes =>
        empty := f.dataSize == 0;
      case LSubmessage =>
        if !f.ptr.Fields? {
          return true;
        }
        empty := AllFieldsDefault(f.ptr.fs, SlotsOf(v));
      case _ =>
        empty := NumOf(v) == 0;
    }
  }

  method AllFieldsDefault(fields: seq<Field>, slots: seq<Slot>) returns (empty: bool)
    requires Readable(fields)
    ensures empty <==> forall i | 0 <= i < |fields| :: IsDefault(fields[i], At(slots, SlotAt(fields, i)))
    decreases fields
  {
    var iter, more := FI.Iterate(fields, 0);
    while more
      invariant iter.Valid() && iter.fields == fields
      invariant more ==> iter.pos < |fields|
      invariant forall i | 0 <= i < (if more then iter.pos else |fields|) ::
        IsDefault(fields[i], At(slots, SlotAt(fields, i)))
      decreases more, |fields| - iter.pos
    {
      assert ReadableField(fields[iter.pos]);
      empty := CheckProto3Default(fields[iter.pos], At(slots, SlotAt(fields, iter.pos)));
      if !empty {
        return;
      }
      more := iter.Next();
    }
    empty := true;
  }

  /** Whether an optional field is there: its has_ field says so, or it has none and its value is no default. */
  method IsPresent(f: Field, s: Slot) returns (has: bool)
    requires ReadableField(f) && f.htype == Optional
    ensures has == Written(f, s)
  {
    has := HasOf(s);
    if f.sizeOffset == 0 {
      var empty := CheckProto3Default(f, s);
      has := !empty;
    }
  }

  /** encode_basic_field. */
  method EncodeBasicField(stream: OStream, f: Field, s: Slot) returns (ok: bool)
    requires stream.Valid() && ReadableField(f) && SmallSlot(f, s)
    modifies stream, stream.buf
    ensures stream.Valid() && Wrote(old(stream.View()), stream.View(), ok, EncField(f, s))
    decreases f, 4
  {
    match f.htype {
      case Required =>
        ok := EncodeTagged(stream, f, ValueOf(s));
      case Optional =>
        var has := IsPresent(f, s);
        ok := true;
        if has {
          ok := EncodeTagged(stream, f, ValueOf(s));
        }
      case Repeated =>
        ok := EncodeArray(stream, f, ItemsOf(s));
      case OneOf =>
        ok := true;
        if WhichOf(s) == f.tag {
          ok := EncodeTagged(stream, f, ValueOf(s));
        }
    }
  }

  /** The fields before `i` have been written, as `done`. */
  ghost predicate Progress(start: View, now: View, done: seq<byte>, fields: seq<Field>, slots: seq<Slot>, i: nat)
    requires i <= |fields|
  {
    Wrote(start, now, true, Some(done)) && Then(done, EncFields(fields, slots, i)) == EncFields(fields, slots, 0)
  }

  lemma NoFieldDone(start: View, fields: seq<Field>, slots: seq<Slot>)
    ensures Progress(start, start, [], fields, slots, 0)
  {
    WroteNothing(start);
    NothingDone(EncFields(fields, slots, 0));
  }

  lemma AllFieldsDone(start: View, now: View, done: seq<byte>, fields: seq<Field>, slots: seq<Slot>)
    requires Progress(start, now, done, fields, slots, |fields|)
    ensures Wrote(start, now, true, EncodeSpec.Encode(fields, slots))
  {
    AllDone(done);
  }

  /** encode_field, and the step to the next field. */
  method EncodeField(stream: OStream, iter: FI.FieldIter, slots: seq<Slot>, ghost start: View, ghost done: seq<byte>)
    returns (ok: bool, more: bool, ghost done': seq<byte>)
    requires stream.Valid() && iter.Valid() && iter.pos < |iter.fields|
    requires Readable(iter.fields) && Small(iter.fields, slots)
    requires Progress(start, stream.View(), done, iter.fields, slots, iter.pos)
    modifies stream, stream.buf, iter
    ensures stream.Valid() && iter.Valid()
    ensures more ==> iter.pos == old(iter.pos) + 1 < |iter.fields|
    ensures ok ==> Progress(start, stream.View(), done', iter.fields, slots, if more then iter.pos else |iter.fields|)
    ensures !ok ==> Wrote(start, stream.View(), false, EncFields(iter.fields, slots, 0))
    decreases iter.fields, 0, 0
  {
    var i := iter.pos;
    var f, s := iter.fields[i], At(slots, SlotAt(iter.fields, i));
    ghost var next, rest := EncField(f, s), EncFields(iter.fields, slots, i + 1);
    assert ReadableField(f) && SmallSlot(f, s);
    ok := EncodeBasicField(stream, f, s);
    MoreDone(start, old(stream.View()), stream.View(), done, ok, next, rest, EncFields(iter.fields, slots, 0));
    done' := if ok then done + next.value else done;
    more := iter.Next();
  }

  /** The loop of pb_encode. */
  method EncodeFields(stream: OStream, iter: FI.FieldIter, more0: bool, slots: seq<Slot>) returns (ok: bool)
    requires stream.Valid() && iter.Valid() && Readable(iter.fields) && Small(iter.fields, slots)
    requires iter.pos == 0 && more0 == (iter.fields != [])
    modifies stream, stream.buf, iter
    ensures stream.Valid() && Wrote(old(stream.View()), stream.View(), ok, EncodeSpec.Encode(iter.fields, slots))
    decreases iter.fields, 0, 1
  {
    ghost var start, done := stream.View(), [];
    NoFieldDone(start, iter.fields, slots);
    var more := more0;
    while more
      invariant iter.Valid() && (more ==> iter.pos < |iter.fields|) && stream.Valid()
      invariant Progress(start, stream.View(), done, iter.fields, slots, if more then iter.pos else |iter.fields|)
      decreases more, |iter.fields| - iter.pos
    {
      ok, more, done := EncodeField(stream, iter, slots, start, done);
      if !ok {
        return;
      }
    }
    AllFieldsDone(start, stream.View(), done, iter.fields, slots);
    ok := true;
  }

  /** pb_encode. */
  method Encode(stream: OStream, fields: seq<Field>, slots: seq<Slot>) returns (ok: bool)
    requires stream.Valid() && Readable(fields) && Small(fields, slots)
    modifies stream, stream.buf
    ensures stream.Valid() && Wrote(old(stream.View()), stream.View(), ok, EncodeSpec.Encode(fields, slots))
    decreases fields, 1
  {
    var iter, more := FI.Iterate(fields, 0);
    ok := EncodeFields(stream, iter, more, slots);
  }

  /** pb_encode_delimited. */
  method EncodeDelimited(stream: OStream, fields: seq<Field>, slots: seq<Slot>) returns (ok: bool)
    requires stream.Valid() && Readable(fields) && Small(fields, slots)
    modifies stream, stream.buf
    ensures stream.Valid() && Wrote(old(stream.View()), stream.View(), ok, EncodeSpec.EncodeDelimited(fields, slots))
  {
    ok := EncodeSubmessage(stream, fields, slots);
  }
}
