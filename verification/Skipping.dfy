/**
 * Encodings without their descriptor: a reader that knows only wire types finds the boundaries of all fields,
 * and one that knows only some of the fields gets these.
 */
module Skipping {
  import opened Bits
  import opened Varint
  import opened Descriptor
  import opened EncodeSpec
  import opened DecodeSpec
  import opened RoundTrip
  import opened Merge

  // ----- what is skipped

  /** The data of a field of each wire type. */
  predicate DataOf(wireType: nat, x: seq<byte>) {
    match wireType
    case 0 => x != [] && x[|x| - 1] < 128 && forall k | 0 <= k < |x| - 1 :: x[k] >= 128
    case 1 => |x| == 8
    case 2 => Varint32(x).Ok? && |Varint32(x).rest| == Varint32(x).value
    case 5 => |x| == 4
    case _ => false
  }

  lemma {:induction false} VarintData(x: seq<byte>, rest: seq<byte>)
    ensures SkipVarint(x + rest) == Ok((), rest) <==> DataOf(0, x)
    decreases |x|
  {
    var s := x + rest;
    if x == [] {
      assert s == rest;
    } else if x[0] < 128 {
      assert s[1..] == x[1..] + rest;
      if |x| > 1 { assert |s[1..]| > |rest|; }
    } else {
      var y := x[1..];
      assert s[1..] == y + rest;
      VarintData(y, rest);
      LaterBytes(x);
    }
  }

  lemma LaterBytes(x: seq<byte>)
    requires x != [] && x[0] >= 128
    ensures DataOf(0, x) <==> DataOf(0, x[1..])
  {
    var y := x[1..];
    if DataOf(0, y) {
      forall k | 0 <= k < |x| - 1 ensures x[k] >= 128 {
        if k > 0 { assert x[k] == y[k - 1]; }
      }
    }
  }

  /** A length that is read from a concatenation, and leaves all of its second part, is read from the first. */
  lemma {:induction false} LengthWithin(x: seq<byte>, rest: seq<byte>, bitpos: nat, result: nat)
    requires bitpos < 256 && result < TWO32
    requires var r := Varint32From(x + rest, bitpos, result); r.Ok? && |r.rest| >= |rest|
    ensures Varint32From(x, bitpos, result).Ok?
    decreases |x|
  {
    assert x == [] ==> x + rest == rest;
    if x != [] {
      assert (x + rest)[1..] == x[1..] + rest;
      if x[0] >= 128 {
        var result' := if bitpos >= 32 then result else BitOr(result, Shl(x[0] % 128, bitpos) % 0x1_0000_0000);
        assert result' < TWO32 by {
          ShlBy32(1);
          if bitpos < 32 { BitOrBound(result, Shl(x[0] % 128, bitpos) % 0x1_0000_0000, 32); }
        }
        LengthWithin(x[1..], rest, (bitpos + 7) % 256, result');
      }
    }
  }

  lemma DelimitedData(x: seq<byte>, rest: seq<byte>)
    ensures SkipField(2, x + rest) == Ok((), rest) <==> DataOf(2, x)
  {
    if Varint32(x).Ok? {
      Varint32Extends(x, rest);
      DropIsExact(Varint32(x).rest, rest, Varint32(x).value);
    } else if SkipField(2, x + rest) == Ok((), rest) {
      var r := Varint32(x + rest);
      assert |r.rest| == r.value + |rest|;
      assert x == [] ==> x + rest == rest;
      if x != [] {
        assert (x + rest)[1..] == x[1..] + rest;
        if x[0] >= 128 { LengthWithin(x[1..], rest, 7, x[0] % 128); }
      }
    }
  }

  lemma DropIsExact(x: seq<byte>, rest: seq<byte>, n: nat)
    ensures Drop(x + rest, n) == Ok((), rest) <==> |x| == n
  {
    if n <= |x + rest| { assert |(x + rest)[n..]| == |x| + |rest| - n; }
    if |x| == n { assert (x + rest)[n..] == rest; }
  }

  /** Exactly what pb_skip_field takes for the data of a field: nothing less, and nothing of what follows. */
  lemma SkipExact(wireType: nat, x: seq<byte>, rest: seq<byte>)
    ensures SkipField(wireType, x + rest) == Ok((), rest) <==> DataOf(wireType, x)
  {
    match wireType
    case 0 => VarintData(x, rest);
    case 1 => DropIsExact(x, rest, 8);
    case 2 => DelimitedData(x, rest);
    case 5 => DropIsExact(x, rest, 4);
    case _ =>
  }

  // ----- the boundaries of an encoding

  /** `x` is one complete field with the given tag. */
  predicate Complete(x: seq<byte>, tag: nat) {
    var t := DecTag(x);
    t.Tag? && t.tag == tag && DataOf(t.wireType, t.rest)
  }

  /** The tags found by a reader that skips every field. */
  function TagsOf(s: seq<byte>): Option<seq<nat>>
    decreases |s|
  {
    if s == [] then Some([])
    else match DecTag(s)
      case Bad => None
      case End(_) => None
      case Tag(tag, wireType, rest) =>
        match SkipField(wireType, rest)
        case Fail => None
        case Ok(_, rest') => Prepend([tag], TagsOf(rest'))
  }

  function Prepend(tags: seq<nat>, more: Option<seq<nat>>): Option<seq<nat>> {
    if more.Some? then Some(tags + more.value) else None
  }

  /** A complete field is skipped whatever follows it. */
  lemma CompleteIsSkipped(x: seq<byte>, tag: nat, rest: seq<byte>)
    requires Complete(x, tag)
    ensures var t := DecTag(x + rest); t.Tag? && t.tag == tag && SkipField(t.wireType, t.rest) == Ok((), rest)
    ensures TagsOf(x + rest) == Prepend([tag], TagsOf(rest))
  {
    Varint32Extends(x, rest);
    var t := DecTag(x);
    SkipExact(t.wireType, t.rest, rest);
    assert x + rest != [];
  }

  lemma NumberIsComplete(f: Field, v: Value)
    requires WfField(f) && WfValue(f, v) && Packable(f.ltype)
    ensures EncTagged(f, v).Some? && Complete(EncTagged(f, v).value, f.tag)
  {
    var data := EncScalar(f, v).value;
    TagReads(WireType(f.ltype), f.tag, data);
    match f.ltype
    case LBool => GroupsAreData(if NumOf(v) != 0 then 1 else 0);
    case LVarint => GroupsAreData(ToU64(CastSigned(NumOf(v), f.dataSize)));
    case LUvarint => GroupsAreData(CastUnsigned(NumOf(v), f.dataSize));
    case LSvarint => GroupsAreData(ZigZag(CastSigned(NumOf(v), f.dataSize)));
    case _ =>
  }

  lemma GroupsAreData(n: nat)
    ensures DataOf(0, EncVarint(n))
  {
    EncVarintMeaning(n, []);
    assert EncVarint(n) + [] == EncVarint(n);
  }

  lemma DelimitedIsComplete(tag: nat, body: seq<byte>)
    requires 1 <= tag < 0x2000_0000 && |body| < TWO32
    ensures Complete(EncTag(WT_STRING, tag) + Delimit(body), tag)
  {
    TagReads(WT_STRING, tag, Delimit(body));
    DelimitReads(body, []);
    assert Delimit(body) + [] == Delimit(body) && body + [] == body;
  }

  /** Every value is written as one complete field: the wire type says how long it is. */
  lemma ValueIsComplete(f: Field, v: Value)
    requires WfField(f) && WfValue(f, v) && EncTagged(f, v).Some? && |EncTagged(f, v).value| < TWO32
    ensures Complete(EncTagged(f, v).value, f.tag)
  {
    if Packable(f.ltype) {
      NumberIsComplete(f, v);
    } else {
      var body :=
        if f.ltype == LSubmessage then EncFields(f.ptr.fs, SlotsOf(v), 0).value
        else if f.ltype == LString then UpToNul(InBounds(BytesOf(v), f.dataSize))
        else BytesOf(v);
      assert EncValue(f, v) == Some(Delimit(body));
      DelimitedIsComplete(f.tag, body);
    }
  }

  function Copies(tag: nat, n: nat): seq<nat> {
    if n == 0 then [] else [tag] + Copies(tag, n - 1)
  }

  /** The tags a field is written with. */
  function TagsWritten(f: Field, s: Slot): seq<nat> {
    if !Written(f, s) then []
    else if f.htype == Repeated && !Packable(f.ltype) then Copies(f.tag, |ItemsOf(s)|)
    else [f.tag]
  }

  /** The first element of an array that is not packed, and what follows it. */
  lemma FirstElement(f: Field, items: seq<Value>, rest: seq<byte>) returns (first: seq<byte>, more: seq<byte>)
    requires WfField(f) && items != [] && WfValue(f, items[0])
    requires EncUnpacked(f, items).Some? && |EncUnpacked(f, items).value| < TWO32
    ensures EncUnpacked(f, items[1..]) == Some(more) && |more| < TWO32 && Complete(first, f.tag)
    ensures EncUnpacked(f, items).value + rest == first + (more + rest)
  {
    first, more := EncTagged(f, items[0]).value, EncUnpacked(f, items[1..]).value;
    ValueIsComplete(f, items[0]);
    Regrouped(first, more, rest);
  }

  lemma {:induction false} UnpackedTags(f: Field, items: seq<Value>, rest: seq<byte>)
    requires WfField(f) && forall k | 0 <= k < |items| :: WfValue(f, items[k])
    requires EncUnpacked(f, items).Some? && |EncUnpacked(f, items).value| < TWO32
    ensures TagsOf(EncUnpacked(f, items).value + rest) == Prepend(Copies(f.tag, |items|), TagsOf(rest))
    decreases |items|
  {
    if items == [] {
      assert [] + rest == rest;
      NothingPrepended(TagsOf(rest));
    } else {
      var first, more := FirstElement(f, items, rest);
      assert TagsOf(first + (more + rest)) == Prepend([f.tag], TagsOf(more + rest)) by {
        CompleteIsSkipped(first, f.tag, more + rest);
      }
      UnpackedTags(f, items[1..], rest);
      PrependTwice([f.tag], Copies(f.tag, |items| - 1), TagsOf(rest));
    }
  }

  lemma PrependTwice(a: seq<nat>, b: seq<nat>, more: Option<seq<nat>>)
    ensures Prepend(a, Prepend(b, more)) == Prepend(a + b, more)
  {
    if more.Some? { assert a + (b + more.value) == a + b + more.value; }
  }

  lemma NothingPrepended(more: Option<seq<nat>>)
    ensures Prepend([], more) == more
  {
    if more.Some? { assert [] + more.value == more.value; }
  }

  /** A field is skipped whole, with one tag for each of its values or one for all if it is packed. */
  lemma FieldTags(f: Field, s: Slot, rest: seq<byte>)
    requires WfField(f) && WfSlot(f, s) && EncField(f, s).Some? && |EncField(f, s).value| < TWO32
    ensures TagsOf(EncField(f, s).value + rest) == Prepend(TagsWritten(f, s), TagsOf(rest))
  {
    var e := EncField(f, s).value;
    if !Written(f, s) {
      assert e == [] && [] + rest == rest;
      NothingPrepended(TagsOf(rest));
    } else if f.htype != Repeated {
      ValueIsComplete(f, ValueOf(s));
      CompleteIsSkipped(e, f.tag, rest);
    } else if Packable(f.ltype) {
      DelimitedIsComplete(f.tag, EncPayload(f, s.items).value);
      CompleteIsSkipped(e, f.tag, rest);
    } else {
      UnpackedTags(f, s.items, rest);
    }
  }

  /** The tags of the fields from `i` on. */
  function AllTags(fs: seq<Field>, slots: seq<Slot>, i: nat): seq<nat>
    requires i <= |fs|
    decreases |fs| - i
  {
    if i == |fs| then [] else TagsWritten(fs[i], At(slots, SlotAt(fs, i))) + AllTags(fs, slots, i + 1)
  }

  lemma FirstField(fs: seq<Field>, slots: seq<Slot>, i: nat) returns (first: seq<byte>, more: seq<byte>)
    requires WfFields(fs) && WfSlots(fs, slots) && i < |fs| && EncFields(fs, slots, i).Some?
    ensures EncField(fs[i], At(slots, SlotAt(fs, i))) == Some(first) && EncFields(fs, slots, i + 1) == Some(more)
    ensures EncFields(fs, slots, i).value == first + more
    ensures WfField(fs[i]) && WfSlot(fs[i], At(slots, SlotAt(fs, i)))
  {
    first, more := NextField(fs, slots, i, []);
    assert more + [] == more && EncFields(fs, slots, i).value + [] == EncFields(fs, slots, i).value;
  }

  lemma {:induction false} FieldsTags(fs: seq<Field>, slots: seq<Slot>, i: nat)
    requires WfFields(fs) && WfSlots(fs, slots) && i <= |fs|
    requires EncFields(fs, slots, i).Some? && |EncFields(fs, slots, i).value| < TWO32
    ensures TagsOf(EncFields(fs, slots, i).value) == Some(AllTags(fs, slots, i))
    decreases |fs| - i
  {
    if i < |fs| {
      var first, more := FirstField(fs, slots, i);
      FieldTags(fs[i], At(slots, SlotAt(fs, i)), more);
      FieldsTags(fs, slots, i + 1);
    }
  }

  /** A reader without the descriptor finds just the fields that were written, in order, up to the end. */
  lemma MessageTags(fs: seq<Field>, slots: seq<Slot>)
    requires WfFields(fs) && WfSlots(fs, slots)
    requires var e := Encode(fs, slots); e.Some? && |e.value| < TWO32
    ensures TagsOf(Encode(fs, slots).value) == Some(AllTags(fs, slots, 0))
  {
    FieldsTags(fs, slots, 0);
  }

  // ----- a descriptor that lacks some fields

  /** A complete field the descriptor does not have leaves no trace. */
  lemma LackingOne(gs: seq<Field>, st: State, x: seq<byte>, tag: nat, rest: seq<byte>)
    requires |st.slots| == NumSlots(gs) && Complete(x, tag) && tag > 0 && FindTag(gs, tag) == None
    ensures DecLoop(gs, st, x + rest) == DecLoop(gs, st, rest)
  {
    CompleteIsSkipped(x, tag, rest);
    assert x + rest != [];
  }

  lemma {:induction false} LackingUnpacked(gs: seq<Field>, st: State, f: Field, items: seq<Value>, rest: seq<byte>)
    requires |st.slots| == NumSlots(gs) && FindTag(gs, f.tag) == None
    requires WfField(f) && forall k | 0 <= k < |items| :: WfValue(f, items[k])
    requires EncUnpacked(f, items).Some? && |EncUnpacked(f, items).value| < TWO32
    ensures DecLoop(gs, st, EncUnpacked(f, items).value + rest) == DecLoop(gs, st, rest)
    decreases |items|
  {
    if items == [] {
      assert [] + rest == rest;
    } else {
      var first, more := FirstElement(f, items, rest);
      LackingOne(gs, st, first, f.tag, more + rest);
      LackingUnpacked(gs, st, f, items[1..], rest);
    }
  }

  lemma LackingField(gs: seq<Field>, st: State, f: Field, s: Slot, rest: seq<byte>)
    requires |st.slots| == NumSlots(gs) && FindTag(gs, f.tag) == None
    requires WfField(f) && WfSlot(f, s) && EncField(f, s).Some? && |EncField(f, s).value| < TWO32
    ensures DecLoop(gs, st, EncField(f, s).value + rest) == DecLoop(gs, st, rest)
  {
    var e := EncField(f, s).value;
    if !Written(f, s) {
      assert e == [] && [] + rest == rest;
    } else if f.htype != Repeated {
      ValueIsComplete(f, ValueOf(s));
      LackingOne(gs, st, e, f.tag, rest);
    } else if Packable(f.ltype) {
      DelimitedIsComplete(f.tag, EncPayload(f, s.items).value);
      LackingOne(gs, st, e, f.tag, rest);
    } else {
      LackingUnpacked(gs, st, f, s.items, rest);
    }
  }

  /** `gs` has some of the fields of `fs`, in the same order, and `part` their slots in `slots`. */
  ghost predicate Restricts(fs: seq<Field>, slots: seq<Slot>, gs: seq<Field>, part: seq<Slot>, keep: seq<nat>) {
    && |keep| == |gs| && |part| == NumSlots(gs)
    && (forall k | 0 <= k < |keep| :: keep[k] < |fs| && gs[k] == fs[keep[k]])
    && (forall j, k | 0 <= j < k < |keep| :: keep[j] < keep[k])
    && (forall k | 0 <= k < |keep| :: At(part, SlotAt(gs, k)) == At(slots, SlotAt(fs, keep[k])))
  }

  lemma RestrictedWf(fs: seq<Field>, slots: seq<Slot>, gs: seq<Field>, part: seq<Slot>, keep: seq<nat>)
    requires WfFields(fs) && WfSlots(fs, slots) && Restricts(fs, slots, gs, part, keep)
    ensures WfFields(gs) && WfSlots(gs, part)
  {
    forall k | 0 <= k < |gs| ensures WfField(gs[k]) && WfSlot(gs[k], At(part, SlotAt(gs, k))) {
      assert WfField(fs[keep[k]]) && WfSlot(fs[keep[k]], At(slots, SlotAt(fs, keep[k])));
    }
    forall j, k | 0 <= j < k < |gs| ensures gs[j].tag != gs[k].tag {
      assert keep[j] < keep[k];
    }
  }

  /** Field `i` of `fs` comes between the fields of `gs`, and is none of them. */
  lemma NotKept(fs: seq<Field>, slots: seq<Slot>, gs: seq<Field>, part: seq<Slot>, keep: seq<nat>, i: nat, k: nat)
    requires WfFields(fs) && Restricts(fs, slots, gs, part, keep) && i < |fs| && k <= |gs|
    requires (k > 0 ==> keep[k - 1] < i) && (k < |gs| ==> keep[k] > i)
    ensures FindTag(gs, fs[i].tag) == None
  {
    forall j | 0 <= j < |gs| ensures gs[j].tag != fs[i].tag {
      if j < k {
        assert keep[j] <= keep[k - 1];
        assert fs[keep[j]].tag != fs[i].tag;
      } else {
        assert keep[k] <= keep[j];
        assert fs[i].tag != fs[keep[j]].tag;
      }
    }
  }

  /** Of the fields of `fs` from `i` on, `gs` has those from `k` on. */
  predicate Parted(keep: seq<nat>, i: nat, k: nat) {
    k <= |keep| && (k > 0 ==> keep[k - 1] < i) && (k < |keep| ==> keep[k] >= i)
  }

  /** Field `i` is read if `gs` has it, and skipped if not. */
  lemma RestrictedStep(fs: seq<Field>, slots: seq<Slot>, gs: seq<Field>, part: seq<Slot>,
                       keep: seq<nat>, i: nat, k: nat, st: State) returns (k': nat, st': State)
    requires WfFields(fs) && WfSlots(fs, slots) && Restricts(fs, slots, gs, part, keep)
    requires WfFields(gs) && WfSlots(gs, part) && Fits(gs, DefaultSlots(gs), part)
    requires i < |fs| && Parted(keep, i, k) && ReadBack(gs, DefaultSlots(gs), part, k, st)
    requires EncFields(fs, slots, i).Some? && |EncFields(fs, slots, i).value| < TWO32
    ensures EncFields(fs, slots, i + 1).Some?
    ensures |EncFields(fs, slots, i + 1).value| <= |EncFields(fs, slots, i).value|
    ensures Parted(keep, i + 1, k') && ReadBack(gs, DefaultSlots(gs), part, k', st')
    ensures DecLoop(gs, st, EncFields(fs, slots, i).value) == DecLoop(gs, st', EncFields(fs, slots, i + 1).value)
  {
    var first, more := FirstField(fs, slots, i);
    if k < |gs| && keep[k] == i {
      k' := k + 1;
      st' := FieldReads(gs, DefaultSlots(gs), part, k, st, more);
    } else {
      NotKept(fs, slots, gs, part, keep, i, k);
      LackingField(gs, st, fs[i], At(slots, SlotAt(fs, i)), more);
      k', st' := k, st;
    }
  }

  /** At the end of `fs`, `gs` is at its end too. */
  lemma RestrictedEnd(fs: seq<Field>, slots: seq<Slot>, gs: seq<Field>, part: seq<Slot>, keep: seq<nat>, k: nat, st: State)
    requires Restricts(fs, slots, gs, part, keep) && Parted(keep, |fs|, k) && |st.slots| == NumSlots(gs)
    ensures k == |gs| && EncFields(fs, slots, |fs|) == Some([]) && DecLoop(gs, st, []) == Ok(st, [])
  {
  }

  lemma {:induction false} RestrictedRead(fs: seq<Field>, slots: seq<Slot>, gs: seq<Field>, part: seq<Slot>,
                                          keep: seq<nat>, i: nat, k: nat, st: State) returns (st': State)
    requires WfFields(fs) && WfSlots(fs, slots) && Restricts(fs, slots, gs, part, keep)
    requires WfFields(gs) && WfSlots(gs, part) && Fits(gs, DefaultSlots(gs), part)
    requires i <= |fs| && Parted(keep, i, k) && ReadBack(gs, DefaultSlots(gs), part, k, st)
    requires EncFields(fs, slots, i).Some? && |EncFields(fs, slots, i).value| < TWO32
    ensures ReadBack(gs, DefaultSlots(gs), part, |gs|, st')
    ensures DecLoop(gs, st, EncFields(fs, slots, i).value) == Ok(st', [])
    decreases |fs| - i
  {
    if i == |fs| {
      RestrictedEnd(fs, slots, gs, part, keep, k, st);
      st' := st;
    } else {
      var k', st1 := RestrictedStep(fs, slots, gs, part, keep, i, k, st);
      st' := RestrictedRead(fs, slots, gs, part, keep, i + 1, k', st1);
    }
  }

  /**
   * A reader whose descriptor lacks some fields consumes the whole encoding and gets the message restricted to
   * the others.
   */
  lemma ReadWithFewerFields(fs: seq<Field>, slots: seq<Slot>, gs: seq<Field>, part: seq<Slot>, keep: seq<nat>)
    requires WfFields(fs) && WfSlots(fs, slots) && Restricts(fs, slots, gs, part, keep)
    requires var e := Encode(fs, slots); e.Some? && |e.value| < TWO32
    ensures var r := Decode(gs, Encode(fs, slots).value);
      r.Ok? && r.rest == [] && SameSlots(gs, part, r.value)
  {
    RestrictedWf(fs, slots, gs, part, keep);
    DefaultFits(gs, part);
    var st := Start(DefaultSlots(gs));
    assert RequiredAmong(gs, 0) == {};
    var st' := RestrictedRead(fs, slots, gs, part, keep, 0, 0, st);
    assert SameSlots(gs, part, CanonSlots(gs, part)) by { CanonSame(gs, part); }
  }
}
