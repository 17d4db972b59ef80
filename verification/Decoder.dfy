/** pb_decode and what it calls for fields and messages, working on an input stream and a struct in place. */
module Decoder {
  import opened Bits
  import opened Varint
  import opened Descriptor
  import opened DecodeSpec
  import opened Presence
  import opened Stranded
  import opened IStream
  import opened Defaults
  import opened ScalarDecoder
  import FI = FieldIter
  import FS = FieldsSeen

  // ----- finding fields

  /** In a readable descriptor the iterator finds the one field with a tag, wherever it starts. */
  lemma FoundIsUnique(fs: seq<Field>, tag: nat)
    requires Readable(fs)
    ensures FindTag(fs, tag).Some? <==> exists i :: 0 <= i < |fs| && FI.Matches(fs[i], tag)
    ensures forall i | 0 <= i < |fs| && FI.Matches(fs[i], tag) :: FindTag(fs, tag) == Some(i)
  {
  }

  /** pb_field_iter_find. The terminator of an empty descriptor is found as tag 0. */
  method FindField(iter: FI.FieldIter, tag: nat) returns (found: bool)
    requires iter.Valid() && Readable(iter.fields)
    modifies iter
    ensures iter.Valid()
    ensures found == (FindTag(iter.fields, tag).Some? || (iter.fields == [] && tag == 0))
    ensures found && iter.fields != [] ==> iter.pos < |iter.fields| && FindTag(iter.fields, tag) == Some(iter.pos)
  {
    FoundIsUnique(iter.fields, tag);
    ghost var steps;
    found, steps := iter.Find(tag);
  }

  // ----- the REQUIRED fields

  lemma {:induction false} RequiredMonotone(fs: seq<Field>, i: nat, j: nat)
    requires i <= j <= |fs|
    ensures RequiredBefore(fs, i) <= RequiredBefore(fs, j)
    decreases j
  {
    if i < j { RequiredMonotone(fs, i, j - 1); }
  }

  /** Different REQUIRED fields have different indices. */
  lemma {:induction false} RequiredIncreases(fs: seq<Field>, i: nat, j: nat)
    requires i < j <= |fs| && fs[i].htype == Required
    ensures RequiredBefore(fs, i) < RequiredBefore(fs, j)
  {
    RequiredMonotone(fs, i + 1, j);
  }

  /** Every index below the number of REQUIRED fields belongs to one of them. */
  lemma {:induction false} NthRequired(fs: seq<Field>, r: nat, n: nat) returns (i: nat)
    requires n <= |fs| && r < RequiredBefore(fs, n)
    ensures i < n && fs[i].htype == Required && RequiredBefore(fs, i) == r
  {
    if r < RequiredBefore(fs, n - 1) {
      i := NthRequired(fs, r, n - 1);
    } else {
      i := n - 1;
    }
  }

  /** The indices of the REQUIRED fields in `marked`, as far as they are tracked. */
  ghost function Indices(fs: seq<Field>, marked: set<nat>): set<nat> {
    set i | i in marked && i < |fs| && fs[i].htype == Required && RequiredBefore(fs, i) < 64 :: RequiredBefore(fs, i)
  }

  /** The bitset holds the fields in `marked`. For an empty message it is of no use. */
  ghost predicate Tracks(seen: FS.FieldsSeen, fs: seq<Field>, marked: set<nat>)
    reads seen, seen.words
  {
    seen.Valid() && (fs != [] ==> seen.Marks() == Indices(fs, marked))
  }

  /** All tracked REQUIRED fields have been seen exactly if every index below their number has. */
  lemma AllTracked(fs: seq<Field>, marked: set<nat>)
    ensures RequiredSeen(fs, marked) == FS.Complete(Indices(fs, marked), RequiredBefore(fs, |fs|))
    ensures forall r | r in Indices(fs, marked) :: r < RequiredBefore(fs, |fs|) && r < 64
  {
    forall i | 0 <= i < |fs| && fs[i].htype == Required ensures RequiredBefore(fs, i) < RequiredBefore(fs, |fs|) {
      RequiredIncreases(fs, i, |fs|);
    }
    if RequiredSeen(fs, marked) {
      forall r: nat | r < RequiredBefore(fs, |fs|) && r < 64 ensures r in Indices(fs, marked) {
        var i := NthRequired(fs, r, |fs|);
      }
    }
    if FS.Complete(Indices(fs, marked), RequiredBefore(fs, |fs|)) {
      forall i | 0 <= i < |fs| && fs[i].htype == Required && RequiredBefore(fs, i) < 64 ensures i in marked {
        assert RequiredBefore(fs, i) in Indices(fs, marked);
        var j :| j in marked && j < |fs| && fs[j].htype == Required && RequiredBefore(fs, j) == RequiredBefore(fs, i);
        if j < i { RequiredIncreases(fs, j, i); }
        if i < j { RequiredIncreases(fs, i, j); }
      }
    }
  }

  /** Counting the REQUIRED fields by going on to the end of the descriptor. */
  method CountRequired(iter: FI.FieldIter) returns (count: nat)
    requires iter.Valid()
    modifies iter
    ensures count == RequiredBefore(iter.fields, |iter.fields|)
  {
    count := 0;
    var lastIsRequired, more := false, true;
    while more
      invariant iter.Valid() && (iter.fields != [] ==> iter.pos < |iter.fields|)
      invariant !more ==>
        count + (if lastIsRequired && iter.fields != [] then 1 else 0) == RequiredBefore(iter.fields, |iter.fields|)
      decreases more, |iter.fields| - iter.pos
    {
      count := iter.requiredFieldIndex;
      lastIsRequired := iter.fields == [] || iter.fields[iter.pos].htype == Required;
      more := iter.Next();
    }
    if lastIsRequired && iter.fields != [] {
      count := count + 1;
    }
  }

  /** The last check of pb_decode_noinit. */
  method CheckRequired(iter: FI.FieldIter, seen: FS.FieldsSeen, ghost marked: set<nat>) returns (ok: bool)
    requires iter.Valid() && Tracks(seen, iter.fields, marked)
    modifies iter
    ensures ok == RequiredSeen(iter.fields, marked)
  {
    var count := CountRequired(iter);
    AllTracked(iter.fields, marked);
    assert iter.fields == [] ==> count == 0;
    ok := seen.AllSeen(count);
  }

  // ----- fields

  /** What a submessage is decoded into: array elements are initialised first, others are merged. */
  method SubmessageStart(f: Field, prior: Value) returns (slots: seq<Slot>)
    requires ReadableField(f) && f.ltype == LSubmessage && f.ptr.Fields?
    ensures slots == if f.htype == Repeated then DefaultSlots(f.ptr.fs) else SlotsOf(prior)
  {
    slots := SlotsOf(prior);
    if f.htype == Repeated {
      var init := FieldDefault(f);
      slots := init.slots;
    }
  }

  /** The submessage itself, on its own stream. */
  method DecSubmessageBody(substream: IStream, f: Field, prior: Value) returns (ok: bool, v: Value)
    requires substream.Valid() && ReadableField(f) && f.ltype == LSubmessage && f.ptr.Fields?
    modifies substream
    ensures substream.Valid()
    ensures var init := if f.htype == Repeated then DefaultSlots(f.ptr.fs) else SlotsOf(prior);
      var r := DecNoinit(f.ptr.fs, init, old(substream.Avail()));
      && ok == r.Ok?
      && (ok ==> v == Sub(r.value))
      && substream.End() == old(substream.End())
                            - if ok then 0 else |StrandedMessage(f.ptr.fs, init, old(substream.Avail()))|
    decreases f, 0
  {
    v := Sub([]);
    var slots := SubmessageStart(f, prior);
    if |slots| != NumSlots(f.ptr.fs) {
      return false, v;
    }
    var dest := new Struct(slots);
    ok := DecodeNoinit(substream, f.ptr.fs, dest);
    v := Sub(dest.slots);
  }

  /** pb_dec_submessage. */
  method DecSubmessage(stream: IStream, f: Field, prior: Value) returns (ok: bool, v: Value)
    requires stream.Valid() && ReadableField(f) && f.ltype == LSubmessage
    modifies stream
    ensures stream.Valid()
    ensures ok == DecValue(f, prior, old(stream.Avail())).Ok?
    ensures ok ==> v == DecValue(f, prior, old(stream.Avail())).value
    ensures ok ==> Left(stream, old(stream.End()), DecValue(f, prior, old(stream.Avail())))
    ensures !ok ==> stream.End() == old(stream.End()) - |StrandedValue(f, prior, old(stream.Avail()))|
    ensures var s := Substream(old(stream.Avail()));
      s.Ok? ==> stream.bytesLeft == |s.rest|
    decreases f, 1
  {
    v := Sub([]);
    var substream;
    ok, substream := MakeStringSubstream(stream);
    if !ok {
      return;
    }
    if !f.ptr.Fields? {
      return false, v;
    }
    ok, v := DecSubmessageBody(substream, f, prior);
    var closed := CloseStringSubstream(stream, substream);
    ok := closed && ok;
  }

  /** A decoder from the table of decoders, by field type. */
  method DecodeValue(stream: IStream, f: Field, prior: Value) returns (ok: bool, v: Value)
    requires stream.Valid() && ReadableField(f)
    modifies stream
    ensures stream.Valid()
    ensures ok == DecValue(f, prior, old(stream.Avail())).Ok?
    ensures ok ==> v == DecValue(f, prior, old(stream.Avail())).value
    ensures ok ==> Left(stream, old(stream.End()), DecValue(f, prior, old(stream.Avail())))
    ensures !ok ==> stream.End() == old(stream.End()) - |StrandedValue(f, prior, old(stream.Avail()))|
    decreases f, 2
  {
    if f.ltype == LSubmessage {
      ok, v := DecSubmessage(stream, f, prior);
    } else {
      ok, v := DecScalarField(stream, f);
    }
  }

  /** One element of a packed array. */
  method DecodePackedItem(substream: IStream, f: Field, items: seq<Value>, n: nat)
    returns (good: bool, items': seq<Value>)
    requires substream.Valid() && substream.bytesLeft > 0
    requires Packable(f.ltype) && n <= |items| && n < f.arraySize
    modifies substream
    ensures substream.Valid() && substream.End() == old(substream.End())
    ensures n + (if good then 1 else 0) <= |items'|
    ensures good ==> substream.bytesLeft < old(substream.bytesLeft)
    ensures PackedLeft(f, n, old(substream.Avail()))
         == if good then PackedLeft(f, n + 1, substream.Avail()) else substream.bytesLeft
    ensures DecPacked(f, items, n, old(substream.Avail()))
         == if good then DecPacked(f, items', n + 1, substream.Avail()) else None
  {
    var v;
    good, v := DecScalarField(substream, f);
    items' := if good then Store(items, n, v) else items;
    assert |old(substream.Avail())| == old(substream.bytesLeft);
    assert good ==> |substream.Avail()| == substream.bytesLeft;
  }

  /** The elements of a packed array, while there is room for them. */
  method DecodePackedItems(substream: IStream, f: Field, items0: seq<Value>, n0: nat)
    returns (status: bool, items: seq<Value>, n: nat)
    requires substream.Valid() && Packable(f.ltype) && n0 <= |items0|
    modifies substream
    ensures substream.Valid() && substream.End() == old(substream.End())
    ensures substream.bytesLeft == PackedLeft(f, n0, old(substream.Avail()))
    ensures DecPacked(f, items0, n0, old(substream.Avail()))
         == if status && substream.bytesLeft == 0 then Some((items, n)) else None
  {
    items, n, status := items0, n0, true;
    while status && substream.bytesLeft > 0 && n < f.arraySize
      invariant substream.Valid() && n <= |items| && substream.End() == old(substream.End())
      invariant PackedLeft(f, n0, old(substream.Avail()))
             == if status then PackedLeft(f, n, substream.Avail()) else substream.bytesLeft
      invariant DecPacked(f, items0, n0, old(substream.Avail()))
             == if status then DecPacked(f, items, n, substream.Avail()) else None
      decreases status, substream.bytesLeft
    {
      status, items := DecodePackedItem(substream, f, items, n);
      if status {
        n := n + 1;
      }
    }
    assert |substream.Avail()| == substream.bytesLeft;
  }

  /**
   * A packed array in decode_static_field. `n` is the number of elements so far. If the loop ends with bytes
   * left, the substream is not closed.
   */
  method DecodePacked(stream: IStream, f: Field, items0: seq<Value>, n0: nat)
    returns (ok: bool, items: seq<Value>, n: nat)
    requires stream.Valid() && Packable(f.ltype) && n0 <= |items0|
    modifies stream
    ensures stream.Valid()
    ensures var s := Substream(old(stream.Avail()));
      && ok == (s.Ok? && DecPacked(f, items0, n0, s.value).Some?)
      && (ok ==> Some((items, n)) == DecPacked(f, items0, n0, s.value) && stream.Has(old(stream.End()), s.rest))
      && (!ok ==> stream.End() == old(stream.End()) - if s.Ok? && PackedLeft(f, n0, s.value) != 0 then |s.value| else 0)
  {
    items, n := items0, n0;
    var substream;
    ok, substream := MakeStringSubstream(stream);
    if !ok {
      return;
    }
    var status;
    status, items, n := DecodePackedItems(substream, f, items0, n0);
    if substream.bytesLeft != 0 {
      return false, items, n;
    }
    ok := CloseStringSubstream(stream, substream);
    ok := ok && status;
  }

  /** The part of decode_static_field for arrays: all elements of a packed field, or one more element. */
  method DecodeRepeated(stream: IStream, wireType: nat, f: Field, items0: seq<Value>, n0: nat)
    returns (ok: bool, items: seq<Value>, n: nat)
    requires stream.Valid() && ReadableField(f) && f.htype == Repeated && n0 <= |items0|
    modifies stream
    ensures stream.Valid()
    ensures var r := DecSlot(f, Many(items0), n0, wireType, old(stream.Avail()));
      && ok == r.Ok?
      && (ok ==> Many(items) == r.value.0 && n == r.value.1 && stream.Has(old(stream.End()), r.rest))
    ensures !ok ==>
      stream.End() == old(stream.End()) - |StrandedSlot(f, Many(items0), n0, wireType, old(stream.Avail()))|
    decreases f, 3
  {
    items, n := items0, n0;
    if wireType == 2 && Packable(f.ltype) {
      ok, items, n := DecodePacked(stream, f, items0, n0);
    } else {
      if n >= f.arraySize {
        return false, items, n;
      }
      var v;
      ok, v := DecodeValue(stream, f, Num(0));
      items, n := Store(items0, n0, v), n0 + 1;
    }
  }

  /**
   * decode_static_field on the slot at `p`. `n` is the number of elements an array has received, which for
   * a fixed-count array is not in the struct.
   */
  method DecodeStaticField(stream: IStream, wireType: nat, f: Field, dest: Struct, p: nat, n: nat)
    returns (ok: bool, n': nat)
    requires stream.Valid() && ReadableField(f) && p < |dest.slots|
    requires f.htype == Repeated ==> n <= |ItemsOf(dest.slots[p])|
    modifies stream, dest
    ensures stream.Valid()
    ensures var r := DecSlot(f, old(dest.slots[p]), n, wireType, old(stream.Avail()));
      && ok == r.Ok?
      && (ok ==> && dest.slots == old(dest.slots)[p := r.value.0] && n' == r.value.1
                 && stream.Has(old(stream.End()), r.rest))
    ensures !ok ==>
      stream.End() == old(stream.End()) - |StrandedSlot(f, old(dest.slots[p]), n, wireType, old(stream.Avail()))|
    decreases f, 4
  {
    n' := n;
    var slot, v := dest.slots[p], Num(0);
    match f.htype {
      case Required =>
        ok, v := DecodeValue(stream, f, ValueOf(slot));
        dest.slots := dest.slots[p := Plain(v)];
      case Optional =>
        ok, v := DecodeValue(stream, f, ValueOf(slot));
        dest.slots := dest.slots[p := if f.sizeOffset != 0 then Opt(true, v) else Plain(v)];
      case Repeated =>
        var items;
        ok, items, n' := DecodeRepeated(stream, wireType, f, ItemsOf(slot), n);
        dest.slots := dest.slots[p := Many(items)];
      case OneOf =>
        var prior := ValueOf(slot);
        if f.ltype == LSubmessage && WhichOf(slot) != f.tag && f.ptr.Fields? {
          prior := FieldDefault(f);
        }
        ok, v := DecodeValue(stream, f, prior);
        dest.slots := dest.slots[p := Union(f.tag, v)];
    }
  }

  /**
   * pb_release_union_field, for a oneof that changes its member: the old member must be known. The iterator
   * looks for it and comes back. Statically allocated members have nothing to release.
   */
  method ReleaseUnionField(iter: FI.FieldIter, slot: Slot) returns (ok: bool)
    requires iter.Valid() && Readable(iter.fields) && iter.pos < |iter.fields|
    requires iter.fields[iter.pos].htype == OneOf
    modifies iter
    ensures iter.Valid()
    ensures ok == UnionOk(iter.fields, iter.fields[old(iter.pos)], slot)
    ensures ok ==> iter.pos == old(iter.pos)
  {
    var oldTag, newTag := WhichOf(slot), iter.fields[iter.pos].tag;
    if oldTag == 0 || oldTag == newTag {
      return true;
    }
    ok := FindField(iter, oldTag);
    if !ok {
      return;
    }
    assert ReadableField(iter.fields[old(iter.pos)]) && FI.Matches(iter.fields[old(iter.pos)], newTag);
    FoundIsUnique(iter.fields, newTag);
    ok := FindField(iter, newTag);
  }

  /** decode_field. */
  method DecodeField(stream: IStream, wireType: nat, iter: FI.FieldIter, dest: Struct, n: nat)
    returns (ok: bool, n': nat)
    requires stream.Valid() && iter.Valid() && Readable(iter.fields) && iter.pos < |iter.fields|
    requires SlotAt(iter.fields, iter.pos) < |dest.slots|
    requires iter.fields[iter.pos].htype == Repeated ==> n <= |ItemsOf(dest.slots[SlotAt(iter.fields, iter.pos)])|
    modifies stream, iter, dest
    ensures stream.Valid() && iter.Valid()
    ensures var f, p := iter.fields[old(iter.pos)], SlotAt(iter.fields, old(iter.pos));
      var r := DecSlot(f, old(dest.slots)[p], n, wireType, old(stream.Avail()));
      && ok == (UnionOk(iter.fields, f, old(dest.slots)[p]) && r.Ok?)
      && (ok ==> && dest.slots == old(dest.slots)[p := r.value.0] && n' == r.value.1
                 && stream.Has(old(stream.End()), r.rest) && iter.pos == old(iter.pos))
    ensures var f, slot := iter.fields[old(iter.pos)], old(dest.slots)[SlotAt(iter.fields, old(iter.pos))];
      var stranded := if UnionOk(iter.fields, f, slot) then StrandedSlot(f, slot, n, wireType, old(stream.Avail())) else [];
      !ok ==> stream.End() == old(stream.End()) - |stranded|
    decreases iter.fields, 0, 0
  {
    var i := iter.pos;
    var f, p := iter.fields[i], SlotAt(iter.fields, i);
    n' := n;
    if f.htype == OneOf {
      ok := ReleaseUnionField(iter, dest.slots[p]);
      if !ok {
        return;
      }
    }
    assert ReadableField(f);
    ok, n' := DecodeStaticField(stream, wireType, f, dest, p, n);
  }

  // ----- messages

  /** What the variables of the loop in pb_decode_noinit stand for. */
  ghost function Current(dest: Struct, marked: set<nat>, fixedCountField: int, fixedCountSize: nat): State
    reads dest
  {
    State(dest.slots, marked, if fixedCountField < 0 then None else Some(fixedCountField), fixedCountSize)
  }

  /** Arrays without a counter: the previous one must be complete before another one begins. */
  method TrackFixedCount(fields: seq<Field>, i: nat, dest: Struct, ghost marked: set<nat>,
                         fixedCountField: int, fixedCountSize: nat)
    returns (ok: bool, fixedCountField': int, n: nat)
    requires i < |fields| && SlotAt(fields, i) < |dest.slots| && -1 <= fixedCountField < |fields|
    ensures -1 <= fixedCountField' < |fields|
    ensures var f, st := fields[i], Current(dest, marked, fixedCountField, fixedCountSize);
      && ok == (FixedCount(f) && st.fixed != Some(i) ==> FixedDone(fields, st))
      && (ok ==> n == Received(fields, st, i) && fixedCountField' == if FixedCount(f) then i else fixedCountField)
  {
    fixedCountField' := fixedCountField;
    n := |ItemsOf(dest.slots[SlotAt(fields, i)])|;
    if FixedCount(fields[i]) {
      // the iterator's pSize equals its pData
      n := fixedCountSize;
      if fixedCountField != i {
        if fixedCountField >= 0 && fixedCountSize != fields[fixedCountField].arraySize {
          return false, fixedCountField, n;
        }
        fixedCountField', n := i, 0;
      }
    }
    ok := true;
  }

  /** The fields seen after field `i` has occurred. */
  ghost function Seen(fs: seq<Field>, i: nat, marked: set<nat>): set<nat>
    requires i < |fs|
  {
    if fs[i].htype == Required then marked + {i} else marked
  }

  /** Marks field `i` if it is REQUIRED. */
  method MarkField(seen: FS.FieldsSeen, fs: seq<Field>, i: nat, ghost marked: set<nat>)
    requires i < |fs| && Tracks(seen, fs, marked)
    modifies seen.words
    ensures Tracks(seen, fs, Seen(fs, i, marked))
  {
    if fs[i].htype == Required {
      seen.Mark(RequiredBefore(fs, i));
    }
  }

  /** The part of the loop in pb_decode_noinit that handles a field of the message. */
  method DecodeKnownField(stream: IStream, wireType: nat, iter: FI.FieldIter, dest: Struct, ghost marked: set<nat>,
                          fixedCountField: int, fixedCountSize: nat)
    returns (ok: bool, fixedCountField': int, fixedCountSize': nat)
    requires stream.Valid() && iter.Valid() && Readable(iter.fields) && iter.pos < |iter.fields|
    requires |dest.slots| == NumSlots(iter.fields) && -1 <= fixedCountField < |iter.fields|
    modifies stream, iter, dest
    ensures stream.Valid() && iter.Valid()
    ensures -1 <= fixedCountField' < |iter.fields|
    ensures var r := DecField(iter.fields, old(Current(dest, marked, fixedCountField, fixedCountSize)),
                              old(iter.pos), wireType, old(stream.Avail()));
      && ok == r.Ok?
      && (ok ==>
          && Seen(iter.fields, old(iter.pos), marked) == r.value.seen
          && Current(dest, r.value.seen, fixedCountField', fixedCountSize') == r.value
          && stream.Has(old(stream.End()), r.rest))
    ensures !ok ==>
      stream.End() == old(stream.End())
        - |StrandedField(iter.fields, old(Current(dest, marked, fixedCountField, fixedCountSize)),
                         old(iter.pos), wireType, old(stream.Avail()))|
    decreases iter.fields, 0, 1
  {
    var i := iter.pos;
    var f, p := iter.fields[i], SlotAt(iter.fields, i);
    SlotInRange(iter.fields, i);
    fixedCountSize' := fixedCountSize;
    var n;
    ok, fixedCountField', n := TrackFixedCount(iter.fields, i, dest, marked, fixedCountField, fixedCountSize);
    if !ok {
      return;
    }
    if f.htype == Repeated && n > |ItemsOf(dest.slots[p])| {
      return false, fixedCountField', fixedCountSize';
    }
    ok, n := DecodeField(stream, wireType, iter, dest, n);
    if FixedCount(f) {
      fixedCountSize' := n;
    }
  }

  /** A field that has been found: it is marked if it is REQUIRED, and decoded. */
  method DecodeFound(stream: IStream, wireType: nat, iter: FI.FieldIter, dest: Struct,
                     seen: FS.FieldsSeen, ghost marked: set<nat>, fixedCountField: int, fixedCountSize: nat)
    returns (good: bool, ghost marked': set<nat>, fixedCountField': int, fixedCountSize': nat)
    requires stream.Valid() && iter.Valid() && Readable(iter.fields) && iter.pos < |iter.fields|
    requires Tracks(seen, iter.fields, marked)
    requires |dest.slots| == NumSlots(iter.fields) && -1 <= fixedCountField < |iter.fields|
    modifies stream, iter, dest, seen.words
    ensures stream.Valid() && iter.Valid()
    ensures Tracks(seen, iter.fields, marked') && -1 <= fixedCountField' < |iter.fields|
    ensures var r := DecField(iter.fields, old(Current(dest, marked, fixedCountField, fixedCountSize)),
                              old(iter.pos), wireType, old(stream.Avail()));
      && good == r.Ok?
      && (good ==> && Current(dest, marked', fixedCountField', fixedCountSize') == r.value
                   && stream.Has(old(stream.End()), r.rest))
    ensures !good ==>
      stream.End() == old(stream.End())
        - |StrandedField(iter.fields, old(Current(dest, marked, fixedCountField, fixedCountSize)),
                         old(iter.pos), wireType, old(stream.Avail()))|
    decreases iter.fields, 0, 2
  {
    MarkField(seen, iter.fields, iter.pos, marked);
    marked' := Seen(iter.fields, iter.pos, marked);
    good, fixedCountField', fixedCountSize' :=
      DecodeKnownField(stream, wireType, iter, dest, marked, fixedCountField, fixedCountSize);
  }

  /** A field whose tag has been read: it is looked up, and decoded or skipped. */
  method DecodeTagged(stream: IStream, tag: nat, wireType: nat, iter: FI.FieldIter, dest: Struct,
                      seen: FS.FieldsSeen, ghost marked: set<nat>, fixedCountField: int, fixedCountSize: nat)
    returns (good: bool, ghost marked': set<nat>, fixedCountField': int, fixedCountSize': nat)
    requires stream.Valid() && iter.Valid() && Readable(iter.fields) && Tracks(seen, iter.fields, marked)
    requires |dest.slots| == NumSlots(iter.fields) && -1 <= fixedCountField < |iter.fields|
    modifies stream, iter, dest, seen.words
    ensures stream.Valid() && iter.Valid()
    ensures Tracks(seen, iter.fields, marked') && -1 <= fixedCountField' < |iter.fields|
    ensures var r := DecStep(iter.fields, old(Current(dest, marked, fixedCountField, fixedCountSize)),
                             tag, wireType, old(stream.Avail()));
      && good == r.Ok?
      && (good ==> && Current(dest, marked', fixedCountField', fixedCountSize') == r.value
                   && stream.Has(old(stream.End()), r.rest))
    ensures !good ==>
      stream.End() == old(stream.End())
        - |StrandedStep(iter.fields, old(Current(dest, marked, fixedCountField, fixedCountSize)),
                        tag, wireType, old(stream.Avail()))|
    decreases iter.fields, 0, 3
  {
    marked', fixedCountField', fixedCountSize' := marked, fixedCountField, fixedCountSize;
    var found := FindField(iter, tag);
    if !found {
      good := SkipFieldData(stream, wireType);
    } else if iter.fields == [] {
      // the terminator passes for a REQUIRED bool field
      seen.Mark(0);
      var ignored;
      good, ignored := DecodeVarint32(stream);
    } else {
      good, marked', fixedCountField', fixedCountSize' :=
        DecodeFound(stream, wireType, iter, dest, seen, marked, fixedCountField, fixedCountSize);
    }
  }

  /** The loop of pb_decode_noinit, which ends with the input or with a zero tag. */
  method DecodeFields(stream: IStream, iter: FI.FieldIter, dest: Struct, seen: FS.FieldsSeen)
    returns (ok: bool, ghost marked: set<nat>, fixedCountField: int, fixedCountSize: nat)
    requires stream.Valid() && iter.Valid() && Readable(iter.fields) && Tracks(seen, iter.fields, {})
    requires |dest.slots| == NumSlots(iter.fields)
    modifies stream, iter, dest, seen.words
    ensures stream.Valid() && iter.Valid()
    ensures Tracks(seen, iter.fields, marked) && -1 <= fixedCountField < |iter.fields|
    ensures var r := DecLoop(iter.fields, Start(old(dest.slots)), old(stream.Avail()));
      && ok == r.Ok?
      && (ok ==> && Current(dest, marked, fixedCountField, fixedCountSize) == r.value
                 && stream.Has(old(stream.End()), r.rest))
    ensures !ok ==>
      stream.End() == old(stream.End()) - |StrandedLoop(iter.fields, Start(old(dest.slots)), old(stream.Avail()))|
    decreases iter.fields, 0, 4
  {
    // an array without a counter in the struct, and how many of its elements have been received
    fixedCountField, fixedCountSize, marked := -1, 0, {};
    ok := true;
    while stream.bytesLeft != 0
      invariant stream.Valid() && stream.End() == old(stream.End()) && iter.Valid()
      invariant Tracks(seen, iter.fields, marked) && -1 <= fixedCountField < |iter.fields|
      invariant ok && |dest.slots| == NumSlots(iter.fields)
      invariant DecLoop(iter.fields, Current(dest, marked, fixedCountField, fixedCountSize), stream.Avail())
             == DecLoop(iter.fields, Start(old(dest.slots)), old(stream.Avail()))
      invariant StrandedLoop(iter.fields, Current(dest, marked, fixedCountField, fixedCountSize), stream.Avail())
             == StrandedLoop(iter.fields, Start(old(dest.slots)), old(stream.Avail()))
      decreases stream.bytesLeft
    {
      assert |stream.Avail()| == stream.bytesLeft;
      var wireType, tag, eof;
      ok, wireType, tag, eof := DecodeTag(stream);
      if !ok {
        ok := eof;
        return;
      }
      assert |stream.Avail()| == stream.bytesLeft;
      ok, marked, fixedCountField, fixedCountSize :=
        DecodeTagged(stream, tag, wireType, iter, dest, seen, marked, fixedCountField, fixedCountSize);
      if !ok {
        return;
      }
      assert |stream.Avail()| == stream.bytesLeft;
    }
  }

  /** pb_decode_noinit. */
  method DecodeNoinit(stream: IStream, fields: seq<Field>, dest: Struct) returns (ok: bool)
    requires stream.Valid() && Readable(fields) && |dest.slots| == NumSlots(fields)
    modifies stream, dest
    ensures stream.Valid()
    ensures var r := DecNoinit(fields, old(dest.slots), old(stream.Avail()));
      && ok == r.Ok?
      && (ok ==> dest.slots == r.value && stream.Has(old(stream.End()), r.rest))
    ensures !ok ==>
      stream.End() == old(stream.End()) - |StrandedMessage(fields, old(dest.slots), old(stream.Avail()))|
    ensures ok <==>
      && DecLoop(fields, Start(old(dest.slots)), old(stream.Avail())).Ok?
      && FixedDone(fields, DecLoop(fields, Start(old(dest.slots)), old(stream.Avail())).value)
      && RequiredOccur(fields, old(dest.slots), old(stream.Avail()))
    decreases fields, 1
  {
    AcceptedExactly(fields, dest.slots, stream.Avail());
    var seen := new FS.FieldsSeen();
    var iter, _ := FI.Iterate(fields, 0);
    var fixedCountField, fixedCountSize;
    ghost var marked;
    ok, marked, fixedCountField, fixedCountSize := DecodeFields(stream, iter, dest, seen);
    if !ok {
      return;
    }
    AcceptedStrandsNothing(fields, Start(old(dest.slots)), old(stream.Avail()));
    if fixedCountField >= 0 && fixedCountSize != fields[fixedCountField].arraySize {
      return false;
    }
    ok := CheckRequired(iter, seen, marked);
  }

  /** pb_decode. */
  method Decode(stream: IStream, fields: seq<Field>, dest: Struct) returns (ok: bool)
    requires stream.Valid() && Readable(fields) && |dest.slots| == NumSlots(fields)
    modifies stream, dest
    ensures stream.Valid()
    ensures var r := DecodeSpec.Decode(fields, old(stream.Avail()));
      && ok == r.Ok?
      && (ok ==> dest.slots == r.value && stream.Has(old(stream.End()), r.rest))
    ensures !ok ==>
      stream.End() == old(stream.End()) - |StrandedMessage(fields, DefaultSlots(fields), old(stream.Avail()))|
  {
    MessageSetToDefaults(fields, dest);
    ok := DecodeNoinit(stream, fields, dest);
  }

  /**
   * pb_decode_delimited. After an accepted message the stream goes on behind it, however much of it was
   * consumed. After a refused one, what follows the message is still all that is left, but the stream stands
   * there only if no packed field was left stranded.
   */
  method DecodeDelimited(stream: IStream, fields: seq<Field>, dest: Struct) returns (ok: bool)
    requires stream.Valid() && Readable(fields) && |dest.slots| == NumSlots(fields)
    modifies stream, dest
    ensures stream.Valid()
    ensures var r := DecodeSpec.DecodeDelimited(fields, old(stream.Avail()));
      && ok == r.Ok?
      && (ok ==> dest.slots == r.value && stream.Has(old(stream.End()), r.rest))
    ensures var s := Substream(old(stream.Avail()));
      if s.Fail? then stream.End() == old(stream.End())
      else && stream.bytesLeft == |s.rest|
           && stream.state == old(stream.state) + Moves(fields, old(stream.Avail()))
           && (stream.Has(old(stream.End()), s.rest) <==> StrandedMessage(fields, DefaultSlots(fields), s.value) == [])
  {
    var substream;
    ok, substream := MakeStringSubstream(stream);
    if !ok {
      return;
    }
    var status := Decode(substream, fields, dest);
    if status {
      AcceptedStrandsNothing(fields, Start(DefaultSlots(fields)), Substream(old(stream.Avail())).value);
    }
    ok := CloseStringSubstream(stream, substream);
    ok := ok && status;
  }
}
