/**
 * Which fields occur in a message, and what decoding makes of those that do not: REQUIRED fields must occur,
 * all others have their defaults.
 */
module Presence {
  import opened Bits
  import opened Varint
  import opened Descriptor
  import opened DecodeSpec
  import opened Merge

  /** The tags at the field boundaries of a message, in order. */
  function Met(fs: seq<Field>, st: State, s: seq<byte>): seq<nat>
    requires |st.slots| == NumSlots(fs)
    decreases |s|
  {
    if s == [] || !DecTag(s).Tag? then []
    else
      var t := DecTag(s);
      [t.tag] + match DecStep(fs, st, t.tag, t.wireType, t.rest)
                case Fail => []
                case Ok(st', rest) => Met(fs, st', rest)
  }

  /** The tags met when decoding into a message. */
  function MetIn(fs: seq<Field>, slots: seq<Slot>, s: seq<byte>): seq<nat>
    requires |slots| == NumSlots(fs)
  {
    Met(fs, Start(slots), s)
  }

  ghost predicate Distinct(fs: seq<Field>) {
    forall i, j | 0 <= i < j < |fs| :: fs[i].tag != fs[j].tag
  }

  lemma FindsOwn(fs: seq<Field>, i: nat)
    requires Distinct(fs) && i < |fs|
    ensures FindTag(fs, fs[i].tag) == Some(i)
  {
    assert forall j | 0 <= j < |fs| && fs[j].tag == fs[i].tag :: !(j < i) && !(i < j);
  }

  // ----- one step of the loop

  /** A step with a known tag updates the slot of its field, and no other. */
  lemma StepChanges(fs: seq<Field>, st: State, tag: nat, wireType: nat, s: seq<byte>)
    requires |st.slots| == NumSlots(fs) && DecStep(fs, st, tag, wireType, s).Ok?
    ensures var st', i := DecStep(fs, st, tag, wireType, s).value, FindTag(fs, tag);
      if i.None? then st' == st
      else
        && SlotAt(fs, i.value) < NumSlots(fs)
        && st'.seen == (if fs[i.value].htype == Required then st.seen + {i.value} else st.seen)
        && (forall p | 0 <= p < |st.slots| && p != SlotAt(fs, i.value) :: st'.slots[p] == st.slots[p])
        && Holds(fs[i.value], st'.slots[SlotAt(fs, i.value)])
  {
    var i := FindTag(fs, tag);
    if i.Some? {
      SlotInRange(fs, i.value);
      var f, slot, n := fs[i.value], st.slots[SlotAt(fs, i.value)], Received(fs, st, i.value);
      var r := DecSlot(f, slot, n, wireType, s);
      assert DecStep(fs, st, tag, wireType, s).value == Updated(fs, st, i.value, r.value.0, r.value.1);
      SlotHolds(f, slot, n, wireType, s);
    }
  }

  lemma SlotHolds(f: Field, slot: Slot, n: nat, wireType: nat, s: seq<byte>)
    requires DecSlot(f, slot, n, wireType, s).Ok?
    ensures Holds(f, DecSlot(f, slot, n, wireType, s).value.0)
  {
  }

  /** What tells that a field has been received. */
  predicate Holds(f: Field, slot: Slot) {
    match f.htype
    case Required => slot.Plain?
    case Optional => if f.sizeOffset != 0 then slot.Opt? && slot.has else slot.Plain?
    case Repeated => slot.Many?
    case OneOf => slot.Union? && slot.which == f.tag
  }

  // ----- REQUIRED fields

  lemma {:induction false} SeenAreMet(fs: seq<Field>, st: State, s: seq<byte>, i: nat)
    requires |st.slots| == NumSlots(fs) && DecLoop(fs, st, s).Ok?
    requires Distinct(fs) && i < |fs| && fs[i].htype == Required
    ensures i in DecLoop(fs, st, s).value.seen <==> i in st.seen || fs[i].tag in Met(fs, st, s)
    decreases |s|
  {
    if s != [] && DecTag(s).Tag? {
      var t := DecTag(s);
      var r := DecStep(fs, st, t.tag, t.wireType, t.rest);
      StepChanges(fs, st, t.tag, t.wireType, t.rest);
      FindsOwn(fs, i);
      SeenAreMet(fs, r.value, r.rest, i);
      assert Met(fs, st, s) == [t.tag] + Met(fs, r.value, r.rest);
    }
  }

  /** Every one of the first 64 REQUIRED fields occurs. */
  ghost predicate RequiredOccur(fs: seq<Field>, slots: seq<Slot>, s: seq<byte>)
    requires |slots| == NumSlots(fs)
  {
    forall i | 0 <= i < |fs| && fs[i].htype == Required && RequiredBefore(fs, i) < 64 ::
      fs[i].tag in MetIn(fs, slots, s)
  }

  /**
   * Exactly what pb_decode_noinit accepts: a struct of the right shape, fields that can all be decoded, a
   * complete last array if it has no counter, and every one of the first 64 REQUIRED fields.
   */
  lemma AcceptedExactly(fs: seq<Field>, slots: seq<Slot>, s: seq<byte>)
    requires Distinct(fs)
    ensures DecNoinit(fs, slots, s).Ok?
        <==> && |slots| == NumSlots(fs)
             && DecLoop(fs, Start(slots), s).Ok?
             && FixedDone(fs, DecLoop(fs, Start(slots), s).value)
             && RequiredOccur(fs, slots, s)
  {
    if |slots| == NumSlots(fs) && DecLoop(fs, Start(slots), s).Ok? {
      forall i | 0 <= i < |fs| && fs[i].htype == Required
        ensures i in DecLoop(fs, Start(slots), s).value.seen <==> fs[i].tag in MetIn(fs, slots, s)
      {
        SeenAreMet(fs, Start(slots), s, i);
      }
    }
  }

  // ----- fields that do not occur

  /** A slot none of whose fields occurs stays as it is. */
  lemma {:induction false} AbsentUnchanged(fs: seq<Field>, st: State, s: seq<byte>, p: nat)
    requires |st.slots| == NumSlots(fs) && DecLoop(fs, st, s).Ok? && p < NumSlots(fs)
    requires forall k | 0 <= k < |fs| && SlotAt(fs, k) == p :: fs[k].tag !in Met(fs, st, s)
    ensures DecLoop(fs, st, s).value.slots[p] == st.slots[p]
    decreases |s|
  {
    if s != [] && DecTag(s).Tag? {
      var t := DecTag(s);
      var r := DecStep(fs, st, t.tag, t.wireType, t.rest);
      StepChanges(fs, st, t.tag, t.wireType, t.rest);
      assert Met(fs, st, s) == [t.tag] + Met(fs, r.value, r.rest);
      AbsentUnchanged(fs, r.value, r.rest, p);
    }
  }

  /** The data of a field nothing has been received for: its declared default, or zero, or empty. */
  ghost predicate PristineData(f: Field, v: Value)
    decreases f, 0
  {
    if f.ltype == LSubmessage then v.Sub? && (if f.ptr.Fields? then PristineAll(f.ptr.fs, v.slots) else v.slots == [])
    else if f.ptr.Default? then v == f.ptr.v
    else match f.ltype
      case LBytes => v == Blob([])
      case LString => v == Blob([])
      case LFixedLengthBytes => v.Blob? && |v.bs| == f.dataSize && forall k | 0 <= k < |v.bs| :: v.bs[k] == 0
      case _ => v == Num(0)
  }

  /** Its slot: no presence flag, no elements, no member. */
  ghost predicate Pristine(f: Field, slot: Slot)
    decreases f, 1
  {
    match f.htype
    case Required => slot.Plain? && PristineData(f, slot.v)
    case Optional =>
      if f.sizeOffset != 0 then slot.Opt? && !slot.has && PristineData(f, slot.v)
      else slot.Plain? && PristineData(f, slot.v)
    case Repeated => slot == Many([])
    case OneOf => slot.Union? && slot.which == 0
  }

  ghost predicate PristineAll(fs: seq<Field>, slots: seq<Slot>)
    decreases fs
  {
    |slots| == NumSlots(fs) && forall i | 0 <= i < |fs| :: Pristine(fs[i], At(slots, SlotAt(fs, i)))
  }

  lemma DefaultPristine(f: Field)
    ensures PristineData(f, DefaultValue(f)) && Pristine(f, DefaultSlot(f))
    decreases f
  {
    if f.ltype == LSubmessage && f.ptr.Fields? { DefaultsPristine(f.ptr.fs); }
  }

  /** Setting a message to its defaults makes it pristine. */
  lemma DefaultsPristine(fs: seq<Field>)
    ensures PristineAll(fs, DefaultSlots(fs))
    decreases fs
  {
    forall i | 0 <= i < |fs| ensures Pristine(fs[i], At(DefaultSlots(fs), SlotAt(fs, i))) {
      DefaultAt(fs, |fs|, i);
      DefaultPristine(fs[i]);
    }
  }

  /**
   * After pb_decode a field that does not occur is as declared: its presence flag is clear, and its data has
   * the default of the descriptor. A oneof is empty if none of its members occurs.
   */
  lemma AbsentIsDefault(fs: seq<Field>, s: seq<byte>, i: nat)
    requires Decode(fs, s).Ok? && i < |fs|
    requires forall k | 0 <= k < |fs| && SlotAt(fs, k) == SlotAt(fs, i) :: fs[k].tag !in MetIn(fs, DefaultSlots(fs), s)
    ensures Pristine(fs[i], At(Decode(fs, s).value, SlotAt(fs, i)))
  {
    SlotInRange(fs, i);
    AbsentUnchanged(fs, Start(DefaultSlots(fs)), s, SlotAt(fs, i));
    DefaultsPristine(fs);
    assert Pristine(fs[i], At(DefaultSlots(fs), SlotAt(fs, i)));
  }

  /** Outside of oneofs a slot has one field. */
  lemma OwnSlot(fs: seq<Field>, i: nat, k: nat)
    requires i < |fs| && k < |fs| && fs[i].htype != OneOf
    ensures SlotAt(fs, k) == SlotAt(fs, i) ==> k == i
  {
    if SlotAt(fs, k) == SlotAt(fs, i) {
      if k < i { SharedSlot(fs, k, i); }
      if i < k { SharedSlot(fs, i, k); }
    }
  }

  // ----- fields that do

  /** The member a oneof holds after the tags of `met` when it held `which` before. */
  function WhichAfter(fs: seq<Field>, p: nat, which: nat, met: seq<nat>): nat
    decreases |met|
  {
    if met == [] then which
    else
      var last := met[|met| - 1];
      var i := FindTag(fs, last);
      if i.Some? && SlotAt(fs, i.value) == p then last else WhichAfter(fs, p, which, met[..|met| - 1])
  }

  lemma {:induction false} WhichLater(fs: seq<Field>, p: nat, which: nat, first: nat, met: seq<nat>)
    ensures WhichAfter(fs, p, which, [first] + met) == WhichAfter(fs, p, WhichAfter(fs, p, which, [first]), met)
    decreases |met|
  {
    var all := [first] + met;
    if met == [] {
      assert all == [first];
    } else {
      assert all[..|all| - 1] == [first] + met[..|met| - 1];
      WhichLater(fs, p, which, first, met[..|met| - 1]);
    }
  }

  /** A oneof holds the last of its members that occurs. */
  lemma {:induction false} LastMemberHeld(fs: seq<Field>, st: State, s: seq<byte>, i: nat)
    requires |st.slots| == NumSlots(fs) && DecLoop(fs, st, s).Ok?
    requires i < |fs| && fs[i].htype == OneOf
    ensures SlotAt(fs, i) < NumSlots(fs)
    ensures WhichOf(DecLoop(fs, st, s).value.slots[SlotAt(fs, i)])
         == WhichAfter(fs, SlotAt(fs, i), WhichOf(st.slots[SlotAt(fs, i)]), Met(fs, st, s))
    decreases |s|
  {
    var p := SlotAt(fs, i);
    SlotInRange(fs, i);
    if s != [] && DecTag(s).Tag? {
      var t := DecTag(s);
      var r := DecStep(fs, st, t.tag, t.wireType, t.rest);
      StepChanges(fs, st, t.tag, t.wireType, t.rest);
      var k := FindTag(fs, t.tag);
      if k.Some? && SlotAt(fs, k.value) == p && fs[k.value].htype != OneOf { OwnSlot(fs, k.value, i); }
      assert WhichOf(r.value.slots[p]) == WhichAfter(fs, p, WhichOf(st.slots[p]), [t.tag]);
      LastMemberHeld(fs, r.value, r.rest, i);
      WhichLater(fs, p, WhichOf(st.slots[p]), t.tag, Met(fs, r.value, r.rest));
    }
  }

  lemma {:induction false} FlagIfMet(fs: seq<Field>, st: State, s: seq<byte>, i: nat)
    requires |st.slots| == NumSlots(fs) && DecLoop(fs, st, s).Ok?
    requires Distinct(fs) && i < |fs| && fs[i].htype == Optional && fs[i].sizeOffset != 0
    ensures SlotAt(fs, i) < NumSlots(fs)
    ensures HasOf(DecLoop(fs, st, s).value.slots[SlotAt(fs, i)])
        <==> HasOf(st.slots[SlotAt(fs, i)]) || fs[i].tag in Met(fs, st, s)
    decreases |s|
  {
    SlotInRange(fs, i);
    if s != [] && DecTag(s).Tag? {
      var t := DecTag(s);
      var r := DecStep(fs, st, t.tag, t.wireType, t.rest);
      StepChanges(fs, st, t.tag, t.wireType, t.rest);
      FindsOwn(fs, i);
      var k := FindTag(fs, t.tag);
      if k.Some? { OwnSlot(fs, i, k.value); }
      assert Met(fs, st, s) == [t.tag] + Met(fs, r.value, r.rest);
      FlagIfMet(fs, r.value, r.rest, i);
    }
  }

  /** After pb_decode an OPTIONAL field has its flag exactly if it occurs, and its declared default if not. */
  lemma FlagExactly(fs: seq<Field>, s: seq<byte>, i: nat)
    requires Decode(fs, s).Ok? && Distinct(fs) && i < |fs| && fs[i].htype == Optional && fs[i].sizeOffset != 0
    ensures var slot, met := At(Decode(fs, s).value, SlotAt(fs, i)), MetIn(fs, DefaultSlots(fs), s);
      && (HasOf(slot) <==> fs[i].tag in met)
      && (fs[i].tag !in met ==> slot.Opt? && PristineData(fs[i], slot.v))
  {
    FlagIfMet(fs, Start(DefaultSlots(fs)), s, i);
    DefaultAt(fs, |fs|, i);
    if fs[i].tag !in MetIn(fs, DefaultSlots(fs), s) {
      forall k | 0 <= k < |fs| && SlotAt(fs, k) == SlotAt(fs, i) ensures k == i {
        OwnSlot(fs, i, k);
      }
      AbsentIsDefault(fs, s, i);
    }
  }

  lemma EmptyAtFirst(fs: seq<Field>, i: nat)
    requires i < |fs| && fs[i].htype == OneOf
    ensures SlotAt(fs, i) < NumSlots(fs) && WhichOf(DefaultSlots(fs)[SlotAt(fs, i)]) == 0
  {
    DefaultAt(fs, |fs|, i);
  }

  /** After pb_decode a oneof holds the last of its members that occurs, and none if none does. */
  lemma MemberExactly(fs: seq<Field>, s: seq<byte>, i: nat)
    requires Decode(fs, s).Ok? && i < |fs| && fs[i].htype == OneOf
    ensures WhichOf(At(Decode(fs, s).value, SlotAt(fs, i)))
         == WhichAfter(fs, SlotAt(fs, i), 0, MetIn(fs, DefaultSlots(fs), s))
  {
    EmptyAtFirst(fs, i);
    LastMemberHeld(fs, Start(DefaultSlots(fs)), s, i);
  }

  // ----- fixed-count arrays

  /** Every fixed-count array that has been met is full, except perhaps the one being received. */
  ghost predicate Filled(fs: seq<Field>, st: State, met: seq<nat>)
    requires |st.slots| == NumSlots(fs)
  {
    forall k | 0 <= k < |fs| && FixedCount(fs[k]) :: FilledOne(fs, st, met, k)
  }

  predicate FilledOne(fs: seq<Field>, st: State, met: seq<nat>, k: nat)
    requires k < |fs|
  {
    var n := |ItemsOf(At(st.slots, SlotAt(fs, k)))|;
    if fs[k].tag !in met then n == 0 && st.fixed != Some(k)
    else if st.fixed == Some(k) then st.fixedSize <= fs[k].arraySize && (n == st.fixedSize || n == fs[k].arraySize)
    else n == fs[k].arraySize
  }

  /** A packed field stores as many elements as it holds, from `n` on. */
  lemma {:induction false} PackedCount(f: Field, items: seq<Value>, n: nat, s: seq<byte>)
    requires n <= |items| && n <= f.arraySize && DecPacked(f, items, n, s).Some?
    ensures var r := DecPacked(f, items, n, s).value;
      n <= r.1 <= f.arraySize && |r.0| == if r.1 < |items| then |items| else r.1
    decreases |s|
  {
    if s != [] {
      var d := DecScalar(f, s);
      PackedCount(f, Store(items, n, d.value), n + 1, d.rest);
    }
  }

  lemma ArrayCount(f: Field, slot: Slot, n: nat, wireType: nat, s: seq<byte>)
    requires f.htype == Repeated && n <= |ItemsOf(slot)| && n <= f.arraySize
    requires DecSlot(f, slot, n, wireType, s).Ok?
    ensures var r := DecSlot(f, slot, n, wireType, s).value;
      n <= r.1 <= f.arraySize && |ItemsOf(r.0)| == if r.1 < |ItemsOf(slot)| then |ItemsOf(slot)| else r.1
  {
    if wireType == 2 && Packable(f.ltype) { PackedCount(f, ItemsOf(slot), n, Substream(s).value); }
  }

  lemma StepFills(fs: seq<Field>, st: State, met: seq<nat>, tag: nat, wireType: nat, s: seq<byte>, k: nat)
    requires |st.slots| == NumSlots(fs) && Distinct(fs) && Sane(fs, st) && Filled(fs, st, met)
    requires DecStep(fs, st, tag, wireType, s).Ok? && k < |fs| && FixedCount(fs[k])
    ensures FilledOne(fs, DecStep(fs, st, tag, wireType, s).value, met + [tag], k)
  {
    FindsOwn(fs, k);
    SlotInRange(fs, k);
    assert FilledOne(fs, st, met, k);
    var i := FindTag(fs, tag);
    if i.Some? {
      SlotInRange(fs, i.value);
      var f, slot, n := fs[i.value], st.slots[SlotAt(fs, i.value)], Received(fs, st, i.value);
      var r := DecSlot(f, slot, n, wireType, s);
      assert DecStep(fs, st, tag, wireType, s).value == Updated(fs, st, i.value, r.value.0, r.value.1);
      if i.value == k {
        ArrayCount(f, slot, n, wireType, s);
        assert tag in met + [tag];
        assert At(Updated(fs, st, k, r.value.0, r.value.1).slots, SlotAt(fs, k)) == r.value.0;
      } else {
        OwnSlot(fs, k, i.value);
      }
    }
  }

  lemma StepFillsAll(fs: seq<Field>, st: State, met: seq<nat>, tag: nat, wireType: nat, s: seq<byte>)
    requires |st.slots| == NumSlots(fs) && Distinct(fs) && Sane(fs, st) && Filled(fs, st, met)
    requires DecStep(fs, st, tag, wireType, s).Ok?
    ensures var st' := DecStep(fs, st, tag, wireType, s).value; Sane(fs, st') && Filled(fs, st', met + [tag])
  {
    StepSane(fs, st, tag, wireType, s);
    forall k | 0 <= k < |fs| && FixedCount(fs[k])
      ensures FilledOne(fs, DecStep(fs, st, tag, wireType, s).value, met + [tag], k)
    {
      StepFills(fs, st, met, tag, wireType, s, k);
    }
  }

  lemma {:induction false} LoopFills(fs: seq<Field>, st: State, met: seq<nat>, s: seq<byte>)
    requires |st.slots| == NumSlots(fs) && Distinct(fs) && Sane(fs, st) && Filled(fs, st, met)
    requires DecLoop(fs, st, s).Ok?
    ensures Sane(fs, DecLoop(fs, st, s).value)
    ensures Filled(fs, DecLoop(fs, st, s).value, met + Met(fs, st, s))
    decreases |s|
  {
    if s != [] && DecTag(s).Tag? {
      var t := DecTag(s);
      var r := DecStep(fs, st, t.tag, t.wireType, t.rest);
      StepFillsAll(fs, st, met, t.tag, t.wireType, t.rest);
      LoopFills(fs, r.value, met + [t.tag], r.rest);
      assert met + [t.tag] + Met(fs, r.value, r.rest) == met + ([t.tag] + Met(fs, r.value, r.rest));
    } else {
      assert met + [] == met;
    }
  }

  /** After pb_decode an array without a counter is full if it occurs, and empty if not. */
  lemma ArraysAreFull(fs: seq<Field>, s: seq<byte>, k: nat)
    requires Decode(fs, s).Ok? && Distinct(fs) && k < |fs| && FixedCount(fs[k])
    ensures |ItemsOf(At(Decode(fs, s).value, SlotAt(fs, k)))|
         == if fs[k].tag in MetIn(fs, DefaultSlots(fs), s) then fs[k].arraySize else 0
  {
    var st := Start(DefaultSlots(fs));
    forall j | 0 <= j < |fs| && FixedCount(fs[j]) ensures FilledOne(fs, st, [], j) {
      DefaultAt(fs, |fs|, j);
    }
    LoopFills(fs, st, [], s);
    assert [] + Met(fs, st, s) == Met(fs, st, s);
    assert FilledOne(fs, DecLoop(fs, st, s).value, Met(fs, st, s), k);
  }
}
