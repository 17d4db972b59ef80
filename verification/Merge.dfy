/**
 * Decoding a concatenation: complete fields are read independently of what follows them, so that decoding
 * a concatenation is decoding the parts one after another, and fields unknown to the descriptor are
 * transparent wherever a field may start.
 */
module Merge {
  import opened Bits
  import opened Varint
  import opened VarintFast
  import opened Descriptor
  import opened EncodeSpec
  import opened DecodeSpec
  import opened RoundTrip

  // ----- a successful read does not depend on the bytes after it

  lemma {:induction false} Varint64Extends(s: seq<byte>, t: seq<byte>, bitpos: nat, result: nat)
    requires Varint64From(s, bitpos, result).Ok?
    ensures var r := Varint64From(s, bitpos, result);
            Varint64From(s + t, bitpos, result) == Ok(r.value, r.rest + t)
  {
    assert (s + t)[1..] == s[1..] + t;
    if s[0] >= 128 {
      Varint64Extends(s[1..], t, bitpos + 7, BitOr(result, Shl(s[0] % 128, bitpos) % 0x1_0000_0000_0000_0000));
    }
  }

  /** The loop body of the 32-bit reader in terms of the first byte alone. */
  lemma {:induction false} Varint32FromExtends(s: seq<byte>, t: seq<byte>, bitpos: nat, result: nat)
    requires bitpos < 256 && result < TWO32 && Varint32From(s, bitpos, result).Ok?
    ensures var r := Varint32From(s, bitpos, result);
            Varint32From(s + t, bitpos, result) == Ok(r.value, r.rest + t)
  {
    assert (s + t)[1..] == s[1..] + t;
    if s[0] >= 128 {
      var result' := if bitpos >= 32 then result else BitOr(result, Shl(s[0] % 128, bitpos) % 0x1_0000_0000);
      assert result' < TWO32 by {
        ShlBy32(1);
        if bitpos < 32 { BitOrBound(result, Shl(s[0] % 128, bitpos) % 0x1_0000_0000, 32); }
      }
      Varint32FromExtends(s[1..], t, (bitpos + 7) % 256, result');
    }
  }

  lemma Varint32Extends(s: seq<byte>, t: seq<byte>)
    requires Varint32(s).Ok?
    ensures Varint32(s + t) == Ok(Varint32(s).value, Varint32(s).rest + t)
  {
    assert (s + t)[1..] == s[1..] + t;
    if s[0] >= 128 { Varint32FromExtends(s[1..], t, 7, s[0] % 128); }
  }

  lemma {:induction false} SkipVarintExtends(s: seq<byte>, t: seq<byte>)
    requires SkipVarint(s).Ok?
    ensures SkipVarint(s + t) == Ok((), SkipVarint(s).rest + t)
  {
    assert (s + t)[1..] == s[1..] + t;
    if s[0] >= 128 { SkipVarintExtends(s[1..], t); }
  }

  lemma SlicesExtend(s: seq<byte>, t: seq<byte>, n: nat)
    requires n <= |s|
    ensures (s + t)[..n] == s[..n] && (s + t)[n..] == s[n..] + t
  {
  }

  lemma SubstreamExtends(s: seq<byte>, t: seq<byte>)
    requires Substream(s).Ok?
    ensures Substream(s + t) == Ok(Substream(s).value, Substream(s).rest + t)
  {
    Varint32Extends(s, t);
    var r := Varint32(s);
    SlicesExtend(r.rest, t, r.value);
  }

  lemma SkipFieldExtends(wireType: nat, s: seq<byte>, t: seq<byte>)
    requires SkipField(wireType, s).Ok?
    ensures SkipField(wireType, s + t) == Ok((), SkipField(wireType, s).rest + t)
  {
    if wireType == 0 {
      SkipVarintExtends(s, t);
    } else if wireType == 2 {
      Varint32Extends(s, t);
      SlicesExtend(Varint32(s).rest, t, Varint32(s).value);
    } else {
      SlicesExtend(s, t, if wireType == 1 then 8 else 4);
    }
  }

  lemma BlobExtends(f: Field, s: seq<byte>, t: seq<byte>)
    requires f.ltype in {LBytes, LString, LFixedLengthBytes} && DecScalar(f, s).Ok?
    ensures DecScalar(f, s + t) == Ok(DecScalar(f, s).value, DecScalar(f, s).rest + t)
  {
    Varint32Extends(s, t);
    var r := Varint32(s);
    if f.ltype != LFixedLengthBytes || r.value != 0 { SlicesExtend(r.rest, t, r.value); }
  }

  lemma ScalarExtends(f: Field, s: seq<byte>, t: seq<byte>)
    requires DecScalar(f, s).Ok?
    ensures DecScalar(f, s + t) == Ok(DecScalar(f, s).value, DecScalar(f, s).rest + t)
  {
    match f.ltype
    case LBool => Varint32Extends(s, t);
    case LVarint => Varint64Extends(s, t, 0, 0);
    case LUvarint => Varint64Extends(s, t, 0, 0);
    case LSvarint => Varint64Extends(s, t, 0, 0);
    case LFixed32 => SlicesExtend(s, t, 4);
    case LFixed64 => SlicesExtend(s, t, 8);
    case _ => BlobExtends(f, s, t);
  }

  lemma ValueExtends(f: Field, prior: Value, s: seq<byte>, t: seq<byte>)
    requires DecValue(f, prior, s).Ok?
    ensures DecValue(f, prior, s + t) == Ok(DecValue(f, prior, s).value, DecValue(f, prior, s).rest + t)
  {
    if f.ltype == LSubmessage { SubstreamExtends(s, t); } else { ScalarExtends(f, s, t); }
  }

  lemma SlotExtends(f: Field, slot: Slot, n: nat, wireType: nat, s: seq<byte>, t: seq<byte>)
    requires DecSlot(f, slot, n, wireType, s).Ok?
    ensures var r := DecSlot(f, slot, n, wireType, s);
            DecSlot(f, slot, n, wireType, s + t) == Ok(r.value, r.rest + t)
  {
    match f.htype
    case Repeated =>
      if wireType == 2 && Packable(f.ltype) { SubstreamExtends(s, t); } else { ValueExtends(f, Num(0), s, t); }
    case OneOf =>
      ValueExtends(f, if f.ltype == LSubmessage && WhichOf(slot) != f.tag && f.ptr.Fields?
                      then Sub(DefaultSlots(f.ptr.fs)) else ValueOf(slot), s, t);
    case _ => ValueExtends(f, ValueOf(slot), s, t);
  }

  lemma StepExtends(fs: seq<Field>, st: State, tag: nat, wireType: nat, s: seq<byte>, t: seq<byte>)
    requires |st.slots| == NumSlots(fs) && DecStep(fs, st, tag, wireType, s).Ok?
    ensures var r := DecStep(fs, st, tag, wireType, s);
            DecStep(fs, st, tag, wireType, s + t) == Ok(r.value, r.rest + t)
  {
    match FindTag(fs, tag)
    case Some(i) =>
      var f, p := fs[i], SlotAt(fs, i);
      SlotInRange(fs, i);
      SlotExtends(f, st.slots[p], Received(fs, st, i), wireType, s, t);
    case None =>
      if fs == [] && tag == 0 { Varint32Extends(s, t); } else { SkipFieldExtends(wireType, s, t); }
  }

  // ----- the loop on a concatenation

  /** The loop stops at a zero tag. */
  predicate StopsEarly(fs: seq<Field>, st: State, s: seq<byte>)
    requires |st.slots| == NumSlots(fs)
    decreases |s|
  {
    s != [] &&
    match DecTag(s)
    case Bad => false
    case End(_) => true
    case Tag(tag, wireType, rest) =>
      match DecStep(fs, st, tag, wireType, rest)
      case Fail => false
      case Ok(st', rest') => StopsEarly(fs, st', rest')
  }

  /** Where the loop gets through `a` field by field, it goes on with `b` in the state it has reached. */
  lemma {:induction false} LoopConcat(fs: seq<Field>, st: State, a: seq<byte>, b: seq<byte>)
    requires |st.slots| == NumSlots(fs) && DecLoop(fs, st, a).Ok? && !StopsEarly(fs, st, a)
    ensures DecLoop(fs, st, a).rest == []
    ensures DecLoop(fs, st, a + b) == DecLoop(fs, DecLoop(fs, st, a).value, b)
    decreases |a|
  {
    if a == [] {
      assert a + b == b;
    } else {
      var t := DecTag(a);
      Varint32Extends(a, b);
      var r := DecStep(fs, st, t.tag, t.wireType, t.rest);
      StepExtends(fs, st, t.tag, t.wireType, t.rest, b);
      LoopConcat(fs, r.value, r.rest, b);
      assert a + b != [];
    }
  }

  /** The fields that have been seen do not influence how the loop goes on. */
  lemma {:induction false} SeenIsBookkeeping(fs: seq<Field>, st: State, more: set<nat>, s: seq<byte>)
    requires |st.slots| == NumSlots(fs)
    ensures var r, r' := DecLoop(fs, st, s), DecLoop(fs, st.(seen := st.seen + more), s);
            && r.Ok? == r'.Ok?
            && (r.Ok? ==> r'.rest == r.rest && r'.value == r.value.(seen := r.value.seen + more))
    decreases |s|
  {
    if s != [] && DecTag(s).Tag? {
      var t := DecTag(s);
      StepSeen(fs, st, more, t.tag, t.wireType, t.rest);
      var r := DecStep(fs, st, t.tag, t.wireType, t.rest);
      if r.Ok? { SeenIsBookkeeping(fs, r.value, more, r.rest); }
    }
  }

  lemma StepSeen(fs: seq<Field>, st: State, more: set<nat>, tag: nat, wireType: nat, s: seq<byte>)
    requires |st.slots| == NumSlots(fs)
    ensures var r, r' := DecStep(fs, st, tag, wireType, s), DecStep(fs, st.(seen := st.seen + more), tag, wireType, s);
            && r.Ok? == r'.Ok?
            && (r.Ok? ==> r'.rest == r.rest && r'.value == r.value.(seen := r.value.seen + more))
  {
    var found := FindTag(fs, tag);
    if found.Some? {
      assert st.seen + {found.value} + more == st.seen + more + {found.value};
    }
  }

  // ----- fixed-count arrays

  /** The array being received is one without a counter; if there is none, nothing has been counted. */
  predicate Sane(fs: seq<Field>, st: State) {
    if st.fixed.Some? then st.fixed.value < |fs| && FixedCount(fs[st.fixed.value]) else st.fixedSize == 0
  }

  lemma StepSane(fs: seq<Field>, st: State, tag: nat, wireType: nat, s: seq<byte>)
    requires |st.slots| == NumSlots(fs) && Sane(fs, st) && DecStep(fs, st, tag, wireType, s).Ok?
    ensures Sane(fs, DecStep(fs, st, tag, wireType, s).value)
  {
    var i := FindTag(fs, tag);
    if i.Some? {
      SlotInRange(fs, i.value);
      var f, slot := fs[i.value], st.slots[SlotAt(fs, i.value)];
      var r := DecSlot(f, slot, Received(fs, st, i.value), wireType, s);
      assert DecStep(fs, st, tag, wireType, s).value == Updated(fs, st, i.value, r.value.0, r.value.1);
    }
  }

  lemma {:induction false} LoopSane(fs: seq<Field>, st: State, s: seq<byte>)
    requires |st.slots| == NumSlots(fs) && Sane(fs, st) && DecLoop(fs, st, s).Ok?
    ensures Sane(fs, DecLoop(fs, st, s).value)
    decreases |s|
  {
    if s != [] && DecTag(s).Tag? {
      var t := DecTag(s);
      var r := DecStep(fs, st, t.tag, t.wireType, t.rest);
      StepSane(fs, st, t.tag, t.wireType, t.rest);
      LoopSane(fs, r.value, r.rest);
    }
  }

  /** The first fixed-count array the loop meets. */
  function FirstFixed(fs: seq<Field>, st: State, s: seq<byte>): Option<nat>
    requires |st.slots| == NumSlots(fs)
    decreases |s|
  {
    if s == [] || !DecTag(s).Tag? then None
    else
      var t := DecTag(s);
      var i := FindTag(fs, t.tag);
      if i.Some? && FixedCount(fs[i.value]) then i
      else match DecStep(fs, st, t.tag, t.wireType, t.rest)
        case Fail => None
        case Ok(st', rest) => FirstFixed(fs, st', rest)
  }

  /** A field that is no fixed-count array is decoded alike whatever array was received before. */
  lemma StepUnfixed(fs: seq<Field>, st: State, fixed: Option<nat>, size: nat, tag: nat, wireType: nat, s: seq<byte>)
    requires |st.slots| == NumSlots(fs)
    requires var i := FindTag(fs, tag); i.Some? ==> !FixedCount(fs[i.value])
    ensures var r, r' := DecStep(fs, st, tag, wireType, s),
                         DecStep(fs, st.(fixed := fixed, fixedSize := size), tag, wireType, s);
            && r.Ok? == r'.Ok?
            && (r.Ok? ==> r'.rest == r.rest && r'.value == r.value.(fixed := fixed, fixedSize := size)
                          && r.value.fixed == st.fixed && r.value.fixedSize == st.fixedSize)
  {
  }

  /** A fixed-count array is decoded alike after no array and after a complete other one. */
  lemma StepOther(fs: seq<Field>, st: State, k: nat, tag: nat, wireType: nat, s: seq<byte>)
    requires |st.slots| == NumSlots(fs) && st.fixed == None && st.fixedSize == 0
    requires k < |fs| && FindTag(fs, tag).Some? && FixedCount(fs[FindTag(fs, tag).value])
    requires FindTag(fs, tag) != Some(k) || fs[k].arraySize == 0
    ensures DecStep(fs, st.(fixed := Some(k), fixedSize := fs[k].arraySize), tag, wireType, s)
         == DecStep(fs, st, tag, wireType, s)
  {
  }

  /**
   * After a complete array `k`, the loop goes on as if none had been received, unless the first fixed-count
   * array it meets is `k` again.
   */
  lemma {:induction false} AfterOther(fs: seq<Field>, st: State, k: nat, s: seq<byte>)
    requires |st.slots| == NumSlots(fs) && st.fixed == None && st.fixedSize == 0
    requires k < |fs| && (FirstFixed(fs, st, s) != Some(k) || fs[k].arraySize == 0)
    ensures var r, r' := DecLoop(fs, st, s), DecLoop(fs, st.(fixed := Some(k), fixedSize := fs[k].arraySize), s);
            && r.Ok? == r'.Ok?
            && (r.Ok? ==> && r'.rest == r.rest && r'.value.slots == r.value.slots && r'.value.seen == r.value.seen
                          && FixedDone(fs, r.value) == FixedDone(fs, r'.value))
    decreases |s|
  {
    if s != [] && DecTag(s).Tag? {
      var t := DecTag(s);
      var i := FindTag(fs, t.tag);
      if i.Some? && FixedCount(fs[i.value]) {
        StepOther(fs, st, k, t.tag, t.wireType, t.rest);
      } else {
        StepUnfixed(fs, st, Some(k), fs[k].arraySize, t.tag, t.wireType, t.rest);
        var r := DecStep(fs, st, t.tag, t.wireType, t.rest);
        if r.Ok? { AfterOther(fs, r.value, k, r.rest); }
      }
    }
  }

  /** A complete array takes no further elements; only an empty packed field of it is accepted. */
  lemma StepAgain(fs: seq<Field>, st: State, k: nat, tag: nat, wireType: nat, s: seq<byte>)
    requires |st.slots| == NumSlots(fs) && (st.fixed == None || st.fixed == Some(k)) && st.fixedSize == 0
    requires FindTag(fs, tag) == Some(k) && FixedCount(fs[k]) && fs[k].arraySize > 0
    ensures var r, r' := DecStep(fs, st, tag, wireType, s),
                         DecStep(fs, st.(fixed := Some(k), fixedSize := fs[k].arraySize), tag, wireType, s);
            r'.Ok? ==> && r.Ok? && r.rest == r'.rest && r.value.fixed == Some(k) && r.value.fixedSize == 0
                       && r'.value == r.value.(fixedSize := fs[k].arraySize)
  {
    SlotInRange(fs, k);
    var f, slot := fs[k], st.slots[SlotAt(fs, k)];
    var full := st.(fixed := Some(k), fixedSize := f.arraySize);
    FullSlot(f, slot, wireType, s);
    assert Received(fs, st, k) == 0 && Received(fs, full, k) == f.arraySize;
    assert DecStep(fs, full, tag, wireType, s) == DecField(fs, full, k, wireType, s);
    assert DecStep(fs, st, tag, wireType, s) == DecField(fs, st, k, wireType, s);
  }

  lemma FullSlot(f: Field, slot: Slot, wireType: nat, s: seq<byte>)
    requires FixedCount(f) && f.arraySize > 0
    ensures var r, r' := DecSlot(f, slot, 0, wireType, s), DecSlot(f, slot, f.arraySize, wireType, s);
            r'.Ok? ==> && r.Ok? && r.rest == r'.rest && r.value.0 == r'.value.0
                       && r.value.1 == 0 && r'.value.1 == f.arraySize
  {
  }

  /** While an array is incomplete, no other one is accepted. */
  lemma OtherFails(fs: seq<Field>, st: State, k: nat, tag: nat, wireType: nat, s: seq<byte>)
    requires |st.slots| == NumSlots(fs) && k < |fs|
    ensures var i := FindTag(fs, tag);
            i.Some? && FixedCount(fs[i.value]) && i != Some(k) && st.fixed == Some(k) && st.fixedSize != fs[k].arraySize
            ==> DecStep(fs, st, tag, wireType, s).Fail?
  {
  }

  /** A run over array `k`, which succeeds when nothing has been received, fails after a complete one. */
  lemma {:induction false} AgainFails(fs: seq<Field>, st: State, k: nat, s: seq<byte>)
    requires |st.slots| == NumSlots(fs) && (st.fixed == None || st.fixed == Some(k)) && st.fixedSize == 0
    requires k < |fs| && FixedCount(fs[k]) && fs[k].arraySize > 0
    requires st.fixed == None ==> FirstFixed(fs, st, s) == Some(k)
    requires DecLoop(fs, st, s).Ok? && FixedDone(fs, DecLoop(fs, st, s).value)
    ensures DecLoop(fs, st.(fixed := Some(k), fixedSize := fs[k].arraySize), s).Fail?
    decreases |s|
  {
    var full := st.(fixed := Some(k), fixedSize := fs[k].arraySize);
    var t := DecTag(s);
    var i := FindTag(fs, t.tag);
    var r, r' := DecStep(fs, st, t.tag, t.wireType, t.rest), DecStep(fs, full, t.tag, t.wireType, t.rest);
    if i == Some(k) {
      StepAgain(fs, st, k, t.tag, t.wireType, t.rest);
    } else {
      OtherFails(fs, st, k, t.tag, t.wireType, t.rest);
      StepUnfixed(fs, st, Some(k), fs[k].arraySize, t.tag, t.wireType, t.rest);
    }
    if r'.Ok? { AgainFails(fs, r.value, k, r.rest); }
  }

  // ----- concatenation

  /** Decoding that goes on from a message whose REQUIRED fields have been seen. */
  function Resumed(fs: seq<Field>, slots: seq<Slot>, s: seq<byte>): Parse<seq<Slot>>
    requires |slots| == NumSlots(fs)
  {
    match DecLoop(fs, Start(slots), s)
    case Fail => Fail
    case Ok(st, rest) => if FixedDone(fs, st) then Ok(st.slots, rest) else Fail
  }

  /** The first fixed-count array of `b` is the last one of `a`, and not empty. */
  predicate ArrayAgain(fs: seq<Field>, slots: seq<Slot>, a: seq<byte>, b: seq<byte>)
    requires |slots| == NumSlots(fs) && DecLoop(fs, Start(slots), a).Ok?
  {
    var st := DecLoop(fs, Start(slots), a).value;
    && st.fixed.Some? && st.fixed.value < |fs| && fs[st.fixed.value].arraySize > 0
    && FirstFixed(fs, Start(st.slots), b) == st.fixed
  }

  /** The loop over `b` from where `a` ended and from the message alone. */
  lemma ResumeAfter(fs: seq<Field>, slots: seq<Slot>, a: seq<byte>, b: seq<byte>)
    requires |slots| == NumSlots(fs) && DecNoinit(fs, slots, a).Ok?
    ensures var st := DecLoop(fs, Start(slots), a).value;
            var r, r' := DecLoop(fs, Start(st.slots), b), DecLoop(fs, st, b);
            && (!ArrayAgain(fs, slots, a, b) ==>
                  && r.Ok? == r'.Ok?
                  && (r.Ok? ==> && r'.rest == r.rest && r'.value.slots == r.value.slots
                                && r'.value.seen == r.value.seen + st.seen
                                && FixedDone(fs, r.value) == FixedDone(fs, r'.value)))
            && (ArrayAgain(fs, slots, a, b) && r.Ok? && FixedDone(fs, r.value) ==> r'.Fail?)
  {
    var st := DecLoop(fs, Start(slots), a).value;
    LoopSane(fs, Start(slots), a);
    var blank := Start(st.slots).(fixed := st.fixed, fixedSize := st.fixedSize);
    SeenIsBookkeeping(fs, blank, st.seen, b);
    assert blank.(seen := {} + st.seen) == st;
    if st.fixed.Some? {
      if ArrayAgain(fs, slots, a, b) {
        var r := DecLoop(fs, Start(st.slots), b);
        if r.Ok? && FixedDone(fs, r.value) { AgainFails(fs, Start(st.slots), st.fixed.value, b); }
      } else {
        AfterOther(fs, Start(st.slots), st.fixed.value, b);
      }
    } else {
      assert blank == Start(st.slots);
    }
  }

  /**
   * Concatenation is merge. If `a` is accepted and ends with a complete field, decoding a ++ b is decoding `a`
   * and then `b` into the result; REQUIRED fields that occurred in `a` need not occur in `b`. The exception,
   * and the only one, is a `b` whose first fixed-count array is the non-empty one `a` received last: it is
   * refused, although it is accepted on its own.
   */
  lemma ConcatIsMerge(fs: seq<Field>, slots: seq<Slot>, a: seq<byte>, b: seq<byte>)
    requires DecNoinit(fs, slots, a).Ok? && !StopsEarly(fs, Start(slots), a)
    ensures var m := DecNoinit(fs, slots, a).value;
            && (!ArrayAgain(fs, slots, a, b) ==> DecNoinit(fs, slots, a + b) == Resumed(fs, m, b))
            && (Resumed(fs, m, b).Ok? && ArrayAgain(fs, slots, a, b) ==> DecNoinit(fs, slots, a + b).Fail?)
            && (DecNoinit(fs, m, b).Ok? ==>
                  (DecNoinit(fs, slots, a + b) == DecNoinit(fs, m, b) <==> !ArrayAgain(fs, slots, a, b)))
  {
    LoopConcat(fs, Start(slots), a, b);
    ResumeAfter(fs, slots, a, b);
  }

  lemma ArrayIsKept(fs: seq<Field>, a: seq<Slot>, k: nat)
    requires WfFields(fs) && WfSlots(fs, a) && k < |fs| && FixedCount(fs[k])
    ensures fs[k].arraySize > 0 ==> |ItemsOf(At(CanonSlots(fs, a), SlotAt(fs, k)))| == fs[k].arraySize
  {
    assert WfSlot(fs[k], At(a, SlotAt(fs, k)));
    DefaultAt(fs, |fs|, k);
    if fs[k].arraySize > 0 { MergedSlot(fs, DefaultSlots(fs), a, k); }
  }

  /** A fixed-count array is full in every message, so that another message cannot be merged into it. */
  lemma FullArraysDoNotFit(fs: seq<Field>, a: seq<Slot>, b: seq<Slot>, k: nat)
    requires WfFields(fs) && WfSlots(fs, a) && WfSlots(fs, b) && Fits(fs, CanonSlots(fs, a), b)
    requires k < |fs| && FixedCount(fs[k])
    ensures fs[k].arraySize == 0
  {
    assert WfSlot(fs[k], At(b, SlotAt(fs, k)));
    ArrayIsKept(fs, a, k);
  }

  /** In particular, the concatenation of two encodings decodes to the merge of the two messages. */
  lemma ConcatOfEncodings(fs: seq<Field>, a: seq<Slot>, b: seq<Slot>)
    requires WfFields(fs) && WfSlots(fs, a) && WfSlots(fs, b) && Fits(fs, CanonSlots(fs, a), b)
    requires var e := Encode(fs, a); e.Some? && |e.value| < TWO32
    requires var e := Encode(fs, b); e.Some? && |e.value| < TWO32
    ensures Decode(fs, Encode(fs, a).value + Encode(fs, b).value)
         == Ok(MergeSlots(fs, CanonSlots(fs, a), b), [])
  {
    var base := DefaultSlots(fs);
    DefaultFits(fs, a);
    MessageReads(fs, base, a);
    MessageReads(fs, CanonSlots(fs, a), b);
    assert RequiredAmong(fs, 0) == {};
    NeverStops(fs, base, a, 0, Start(base));
    LoopSane(fs, Start(base), Encode(fs, a).value);
    var k := DecLoop(fs, Start(base), Encode(fs, a).value).value.fixed;
    if k.Some? { FullArraysDoNotFit(fs, a, b, k.value); }
    ConcatIsMerge(fs, base, Encode(fs, a).value, Encode(fs, b).value);
  }

  /** An encoding contains no zero tag where a field may start. */
  lemma {:induction false} NeverStops(fs: seq<Field>, base: seq<Slot>, slots: seq<Slot>, i: nat, st: State)
    requires WfFields(fs) && WfSlots(fs, slots) && Fits(fs, base, slots)
    requires i <= |fs| && ReadBack(fs, base, slots, i, st)
    requires var e := EncFields(fs, slots, i); e.Some? && |e.value| < TWO32
    ensures !StopsEarly(fs, st, EncFields(fs, slots, i).value)
  {
    // the loop goes on past the encoding with any bytes, whereas a loop that has stopped ignores them
    var e := EncFields(fs, slots, i).value;
    var st' := FieldsRead(fs, base, slots, i, st);
    if StopsEarly(fs, st, e) {
      var tail: seq<byte> := [0x80];
      StopsForGood(fs, st, e, tail);
      FieldsReadOn(fs, base, slots, i, st, tail);
    }
  }

  /** A loop that stops at a zero tag does not look at what follows. */
  lemma {:induction false} StopsForGood(fs: seq<Field>, st: State, s: seq<byte>, t: seq<byte>)
    requires |st.slots| == NumSlots(fs) && StopsEarly(fs, st, s)
    ensures DecLoop(fs, st, s).Ok?
    ensures DecLoop(fs, st, s + t) == Ok(DecLoop(fs, st, s).value, DecLoop(fs, st, s).rest + t)
    decreases |s|
  {
    Varint32Extends(s, t);
    assert s + t != [];
    var tag := DecTag(s);
    if tag.Tag? {
      StepExtends(fs, st, tag.tag, tag.wireType, tag.rest, t);
      var r := DecStep(fs, st, tag.tag, tag.wireType, tag.rest);
      StopsForGood(fs, r.value, r.rest, t);
    }
  }

  lemma UnfinishedTag(fs: seq<Field>, st: State, tail: seq<byte>)
    requires |st.slots| == NumSlots(fs) && tail == [0x80]
    ensures DecLoop(fs, st, tail).Fail?
  {
    assert Varint32From(tail[1..], 7, 0).Fail?;
    assert DecTag(tail) == Bad;
  }

  /** The first field of an encoding, and what follows it. */
  lemma NextField(fs: seq<Field>, slots: seq<Slot>, i: nat, tail: seq<byte>) returns (first: seq<byte>, more: seq<byte>)
    requires i < |fs| && EncFields(fs, slots, i).Some?
    ensures EncField(fs[i], At(slots, SlotAt(fs, i))) == Some(first) && EncFields(fs, slots, i + 1) == Some(more)
    ensures EncFields(fs, slots, i).value + tail == first + (more + tail)
    ensures |EncFields(fs, slots, i).value| == |first| + |more|
  {
    first, more := EncField(fs[i], At(slots, SlotAt(fs, i))).value, EncFields(fs, slots, i + 1).value;
    Regrouped(first, more, tail);
  }

  lemma {:induction false} FieldsReadOn(fs: seq<Field>, base: seq<Slot>, slots: seq<Slot>, i: nat, st: State,
                                        tail: seq<byte>)
    requires WfFields(fs) && WfSlots(fs, slots) && Fits(fs, base, slots) && tail == [0x80]
    requires i <= |fs| && ReadBack(fs, base, slots, i, st)
    requires var e := EncFields(fs, slots, i); e.Some? && |e.value| < TWO32
    ensures DecLoop(fs, st, EncFields(fs, slots, i).value + tail).Fail?
    decreases |fs| - i
  {
    if i == |fs| {
      assert EncFields(fs, slots, i).value + tail == tail;
      UnfinishedTag(fs, st, tail);
    } else {
      var first, more := NextField(fs, slots, i, tail);
      var st1 := FieldReads(fs, base, slots, i, st, more + tail);
      FieldsReadOn(fs, base, slots, i + 1, st1, tail);
    }
  }

  // ----- unknown fields

  /** `x` is one complete field whose tag is not in the descriptor. */
  predicate UnknownField(fs: seq<Field>, x: seq<byte>) {
    var t := DecTag(x);
    && t.Tag? && FindTag(fs, t.tag) == None && t.tag != 0
    && SkipField(t.wireType, t.rest) == Ok((), [])
  }

  /** Tags of the four wire types with data of the right form make up such fields. */
  lemma UnknownFieldForms(fs: seq<Field>, tag: nat, v: nat, eight: seq<byte>, four: seq<byte>, bs: seq<byte>)
    requires 1 <= tag < 0x2000_0000 && FindTag(fs, tag) == None
    requires |eight| == 8 && |four| == 4 && |bs| < TWO32
    ensures UnknownField(fs, EncTag(WT_VARINT, tag) + EncVarint(v))
    ensures UnknownField(fs, EncTag(WT_64BIT, tag) + eight)
    ensures UnknownField(fs, EncTag(WT_STRING, tag) + Delimit(bs))
    ensures UnknownField(fs, EncTag(WT_32BIT, tag) + four)
  {
    TagReads(WT_VARINT, tag, EncVarint(v));
    TagReads(WT_64BIT, tag, eight);
    TagReads(WT_STRING, tag, Delimit(bs));
    TagReads(WT_32BIT, tag, four);
    SkipVarintOfEncoded(v, []);
    assert EncVarint(v) + [] == EncVarint(v);
    DelimitReads(bs, []);
    assert Delimit(bs) + [] == Delimit(bs) && bs + [] == bs;
  }

  /** The loop passes over an unknown field without a trace. */
  lemma SkipsUnknown(fs: seq<Field>, st: State, x: seq<byte>, v: seq<byte>)
    requires |st.slots| == NumSlots(fs) && UnknownField(fs, x)
    ensures DecLoop(fs, st, x + v) == DecLoop(fs, st, v)
  {
    var t := DecTag(x);
    Varint32Extends(x, v);
    SkipFieldExtends(t.wireType, t.rest, v);
    assert [] + v == v;
    assert x + v != [];
  }

  /**
   * Unknown fields are transparent: inserting one where a field may start changes neither whether the
   * input is accepted nor what is decoded, also inside a run of elements of a fixed-count array.
   */
  lemma UnknownFieldsAreTransparent(fs: seq<Field>, slots: seq<Slot>, u: seq<byte>, x: seq<byte>, v: seq<byte>)
    requires |slots| == NumSlots(fs) && UnknownField(fs, x)
    requires DecLoop(fs, Start(slots), u).Ok? && !StopsEarly(fs, Start(slots), u)
    ensures DecNoinit(fs, slots, u + x + v) == DecNoinit(fs, slots, u + v)
  {
    LoopConcat(fs, Start(slots), u, v);
    LoopConcat(fs, Start(slots), u, x + v);
    SkipsUnknown(fs, DecLoop(fs, Start(slots), u).value, x, v);
    assert u + x + v == u + (x + v);
  }

  // ----- the two restrictions are needed

  /** A zero byte where a field may start ends the message. */
  lemma ZeroByteEnds(fs: seq<Field>, st: State, rest: seq<byte>)
    requires |st.slots| == NumSlots(fs)
    ensures DecLoop(fs, st, [0] + rest) == Ok(st, rest)
  {
    assert ([0] + rest)[1..] == rest;
  }

  /** The terminator of an empty descriptor passes for a number with tag 0, of whatever wire type. */
  lemma TerminatorPasses(st: State, wireType: nat, n: nat, rest: seq<byte>)
    requires st.slots == [] && 1 <= wireType < 8 && n < TWO32
    ensures DecLoop([], st, [wireType] + (EncVarint(n) + rest)) == DecLoop([], st, rest)
  {
    var data := EncVarint(n) + rest;
    assert ([wireType] + data)[1..] == data;
    assert DecTag([wireType] + data) == Tag(0, wireType, data);
    SmallLength(n, rest);
  }

  /** After a message that ended with a zero tag, nothing is merged: what follows is left on the stream. */
  lemma NothingMergesAfterZeroTag(fs: seq<Field>, slots: seq<Slot>, a: seq<byte>, b: seq<byte>)
    requires DecNoinit(fs, slots, a).Ok? && StopsEarly(fs, Start(slots), a)
    ensures DecNoinit(fs, slots, a + b) == Ok(DecNoinit(fs, slots, a).value, DecNoinit(fs, slots, a).rest + b)
  {
    StopsForGood(fs, Start(slots), a, b);
  }

  /** A descriptor with one fixed-count array of one 32-bit word. */
  function OneWord(): seq<Field> {
    [Field(1, Static, Repeated, LFixed32, 0, 0, 4, 1, NullPtr)]
  }

  /** The state after the word has been received. */
  function GotWord(w: seq<byte>): State {
    State([Many([Num(FromLittleEndian(w))])], {}, Some(0), 1)
  }

  /** The word is received into an empty array and over an old element. */
  lemma WordIsRead(before: seq<Value>, w: seq<byte>, rest: seq<byte>)
    requires |w| == 4 && |before| <= 1
    ensures DecStep(OneWord(), Start([Many(before)]), 1, WT_32BIT, w + rest) == Ok(GotWord(w), rest)
  {
    var fs, word := OneWord(), Num(FromLittleEndian(w));
    assert FindTag(fs, 1) == Some(0);
    assert (w + rest)[..4] == w && (w + rest)[4..] == rest;
    assert Store(before, 0, word) == [word];
    assert DecSlot(fs[0], Many(before), 0, WT_32BIT, w + rest) == Ok((Many([word]), 1), rest);
    assert SlotAt(fs, 0) == 0;
    assert [Many(before)][0 := Many([word])] == [Many([word])];
  }

  lemma SecondWordFails(w: seq<byte>, rest: seq<byte>)
    requires |w| == 4
    ensures DecStep(OneWord(), GotWord(w), 1, WT_32BIT, w + rest).Fail?
  {
    assert FindTag(OneWord(), 1) == Some(0);
    assert SlotAt(OneWord(), 0) == 0;
    assert Received(OneWord(), GotWord(w), 0) == 1;
    assert DecField(OneWord(), GotWord(w), 0, WT_32BIT, w + rest).Fail?;
  }

  /** The exception in ConcatIsMerge occurs: both parts are accepted and their concatenation is refused. */
  lemma FixedCountIsNoMerge(w: seq<byte>)
    requires |w| == 4
    ensures var a := EncTag(WT_32BIT, 1) + w;
            && Decode(OneWord(), a).Ok?
            && DecNoinit(OneWord(), Decode(OneWord(), a).value, a).Ok?
            && ArrayAgain(OneWord(), DefaultSlots(OneWord()), a, a)
            && Decode(OneWord(), a + a).Fail?
  {
    var fs, a := OneWord(), EncTag(WT_32BIT, 1) + w;
    TagReads(WT_32BIT, 1, w);
    TagReads(WT_32BIT, 1, w + a);
    assert a + a == EncTag(WT_32BIT, 1) + (w + a);
    assert w + [] == w;
    assert DefaultSlots(fs) == [Many([])];
    WordIsRead([], w, []);
    WordIsRead([], w, a);
    WordIsRead(GotWord(w).slots[0].items, w, []);
    SecondWordFails(w, []);
    assert DecLoop(fs, GotWord(w), []) == Ok(GotWord(w), []);
    assert DecLoop(fs, Start([Many([])]), a) == Ok(GotWord(w), []);
    assert DecLoop(fs, Start(GotWord(w).slots), a) == Ok(GotWord(w), []);
    assert FindTag(fs, 1) == Some(0) && FirstFixed(fs, Start(GotWord(w).slots), a) == Some(0);
    assert DecLoop(fs, GotWord(w), a).Fail?;
    assert DecLoop(fs, Start([Many([])]), a + a) == DecLoop(fs, GotWord(w), a);
  }
}
