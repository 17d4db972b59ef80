/**
 * Decoding what was encoded: for every well-formed descriptor and message, pb_decode reads back what
 * pb_encode wrote, up to what cannot be observed.
 */
module RoundTrip {
  import opened Bits
  import opened Varint
  import opened VarintFast
  import opened Descriptor
  import opened EncodeSpec
  import opened DecodeSpec

  // ----- scalars

  lemma {:induction false} LittleEndianBack(v: nat, n: nat)
    requires v < Shl(1, 8 * n)
    ensures FromLittleEndian(LittleEndian(v, n)) == v
  {
    if n > 0 {
      ShlTwice(1, 8 * (n - 1), 8);
      ShlBy8(Shl(1, 8 * (n - 1)));
      LittleEndianBack(v / 256, n - 1);
      assert LittleEndian(v, n)[1..] == LittleEndian(v / 256, n - 1);
    }
  }

  lemma ShlBy8(x: nat)
    ensures Shl(x, 8) == 256 * x
  {
    ShlBy7(x);
  }

  lemma LittleEndianReads(v: nat, rest: seq<byte>)
    ensures v < TWO32 ==> FromLittleEndian((LittleEndian(v, 4) + rest)[..4]) == v
    ensures v < TWO64 ==> FromLittleEndian((LittleEndian(v, 8) + rest)[..8]) == v
  {
    ShlBy32(1);
    ShlTwice(1, 63, 1);
    ShlBy63(1);
    assert (LittleEndian(v, 4) + rest)[..4] == LittleEndian(v, 4);
    assert (LittleEndian(v, 8) + rest)[..8] == LittleEndian(v, 8);
    if v < TWO32 { LittleEndianBack(v, 4); }
    if v < TWO64 { LittleEndianBack(v, 8); }
  }

  lemma CastsOfSmall(n: nat)
    requires n < TWO32
    ensures CastUnsigned(n, 4) == n
  {
  }

  lemma CastsOf64(n: nat)
    requires n < TWO64
    ensures CastUnsigned(n, 8) == n
  {
  }

  /** The 64-bit pattern of a signed integer of any size reads back as that integer. */
  lemma SignedReads(n: int, size: nat)
    requires -TWO63 <= n < TWO63 && size in {1, 2, 4, 8} && CastSigned(n, size) == n
    ensures CastSigned(ToU64(n), if size == 8 then 8 else 4) == n
  {
  }

  lemma ZigZagReads(n: int)
    requires -TWO63 <= n < TWO63
    ensures UnZigZag(ZigZag(n)) == n && ZigZag(n) < TWO64
  {
  }

  lemma Regrouped(a: seq<byte>, b: seq<byte>, c: seq<byte>)
    ensures a + b + c == a + (b + c)
  {
  }

  lemma LengthReads(bs: seq<byte>, rest: seq<byte>)
    requires |bs| < TWO32
    ensures Varint32(Delimit(bs) + rest) == Ok(|bs|, bs + rest)
  {
    SmallLength(|bs|, bs + rest);
    Regrouped(EncVarint(|bs|), bs, rest);
  }

  lemma SmallLength(n: nat, rest: seq<byte>)
    requires n < TWO32
    ensures Varint32(EncVarint(n) + rest) == Ok(n, rest)
  {
    Varint32OfEncoded(n, rest);
    SmallMod(n);
  }

  lemma Splits(bs: seq<byte>, rest: seq<byte>)
    ensures (bs + rest)[..|bs|] == bs && (bs + rest)[|bs|..] == rest
  {
  }

  /** A length-delimited field: the length and what follows it. */
  lemma DelimitReads(bs: seq<byte>, rest: seq<byte>)
    requires |bs| < TWO32
    ensures Varint32(Delimit(bs) + rest) == Ok(|bs|, bs + rest)
    ensures (bs + rest)[..|bs|] == bs && (bs + rest)[|bs|..] == rest
    ensures Substream(Delimit(bs) + rest) == Ok(bs, rest)
  {
    LengthReads(bs, rest);
    Splits(bs, rest);
  }

  lemma NumberReads(f: Field, v: Value, rest: seq<byte>)
    requires WfField(f) && WfValue(f, v) && Packable(f.ltype)
    ensures EncScalar(f, v).Some?
    ensures DecScalar(f, EncScalar(f, v).value + rest) == Ok(v, rest)
  {
    match f.ltype
    case LBool =>
      Varint32OfEncoded(v.n, rest);
    case LVarint =>
      Varint64OfEncoded(ToU64(v.n), rest);
      SignedReads(v.n, f.dataSize);
    case LUvarint =>
      Varint64OfEncoded(v.n, rest);
    case LSvarint =>
      ZigZagReads(v.n);
      Varint64OfEncoded(ZigZag(v.n), rest);
    case LFixed32 =>
      CastsOfSmall(v.n);
      LittleEndianReads(v.n, rest);
    case LFixed64 =>
      CastsOf64(v.n);
      LittleEndianReads(v.n, rest);
  }

  lemma BytesRead(f: Field, v: Value, rest: seq<byte>)
    requires WfField(f) && WfValue(f, v) && f.ltype == LBytes
    ensures DecScalar(f, Delimit(v.bs) + rest) == Ok(v, rest)
  {
    DelimitReads(v.bs, rest);
  }

  lemma StringReads(f: Field, v: Value, rest: seq<byte>)
    requires WfField(f) && WfValue(f, v) && f.ltype == LString
    ensures EncScalar(f, v) == Some(Delimit(v.bs))
    ensures DecScalar(f, Delimit(v.bs) + rest) == Ok(v, rest)
  {
    DelimitReads(v.bs, rest);
    NoNul(v.bs);
    WithNul(|v.bs|);
  }

  /** Any string field: what is encoded reads back exactly if a NUL was found within the field. */
  lemma StringExact(f: Field, v: Value, rest: seq<byte>)
    requires WfField(f) && f.ltype == LString
    ensures EncScalar(f, v).Some?
    ensures var s := UpToNul(InBounds(BytesOf(v), f.dataSize));
      DecScalar(f, EncScalar(f, v).value + rest) == if |s| < f.dataSize then Ok(Blob(s), rest) else Fail
  {
    var s := UpToNul(InBounds(BytesOf(v), f.dataSize));
    UpToNulFacts(InBounds(BytesOf(v), f.dataSize));
    if |s| < f.dataSize {
      StringReads(f, Blob(s), rest);
    } else {
      DelimitReads(s, rest);
    }
  }

  lemma {:induction false} UpToNulFacts(s: seq<byte>)
    ensures |UpToNul(s)| <= |s| && 0 !in UpToNul(s)
    ensures UpToNul(UpToNul(s)) == UpToNul(s)
  {
    if s != [] && s[0] != 0 {
      UpToNulFacts(s[1..]);
      assert UpToNul(s)[1..] == UpToNul(s[1..]);
    }
  }

  lemma FixedLengthBytesRead(f: Field, v: Value, rest: seq<byte>)
    requires WfField(f) && WfValue(f, v) && f.ltype == LFixedLengthBytes
    ensures DecScalar(f, Delimit(v.bs) + rest) == Ok(v, rest)
  {
    DelimitReads(v.bs, rest);
    if v.bs == [] {
      assert Zeros(0) == [];
      assert [] + rest == rest;
    }
  }

  lemma WithNul(n: nat)
    requires n + 1 < TWO32
    ensures (n + 1) % 0x1_0000_0000 == n + 1
  {
  }

  /** Each scalar encoder is undone by the decoder of its type, which consumes just what was written. */
  lemma ScalarReads(f: Field, v: Value, rest: seq<byte>)
    requires WfField(f) && WfValue(f, v) && f.ltype != LSubmessage
    ensures EncScalar(f, v).Some?
    ensures DecScalar(f, EncScalar(f, v).value + rest) == Ok(v, rest)
  {
    match f.ltype
    case LBytes => BytesRead(f, v, rest);
    case LString => StringReads(f, v, rest);
    case LFixedLengthBytes => FixedLengthBytesRead(f, v, rest);
    case _ => NumberReads(f, v, rest);
  }

  /** The bytes of a value, whatever follows them, are read as that value. */
  ghost predicate ReadsBack(f: Field, v: Value) {
    EncScalar(f, v).Some? && forall rest :: DecScalar(f, EncScalar(f, v).value + rest) == Ok(v, rest)
  }

  ghost predicate AllRead(f: Field, items: seq<Value>) {
    forall k | 0 <= k < |items| :: ReadsBack(f, items[k])
  }

  lemma AllReadBack(f: Field, items: seq<Value>)
    requires WfField(f) && Packable(f.ltype)
    requires forall k | 0 <= k < |items| :: WfValue(f, items[k])
    ensures AllRead(f, items)
  {
    forall k | 0 <= k < |items| ensures ReadsBack(f, items[k]) {
      forall rest ensures EncScalar(f, items[k]).Some? && DecScalar(f, EncScalar(f, items[k]).value + rest) == Ok(items[k], rest) {
        NumberReads(f, items[k], rest);
      }
      assert EncScalar(f, items[k]).Some? by { NumberReads(f, items[k], []); }
    }
  }

  lemma AllReadStep(f: Field, items: seq<Value>)
    requires items != [] && AllRead(f, items)
    ensures AllRead(f, items[1..]) && EncScalar(f, items[0]).Some?
  {
    assert ReadsBack(f, items[0]);
    assert forall k | 0 <= k < |items[1..]| :: items[1..][k] == items[k + 1];
  }

  /** The first element of a packed field. */
  lemma PackedStep(f: Field, done: seq<Value>, items: seq<Value>, tail: seq<byte>)
    requires items != [] && AllRead(f, items) && |done| <= f.arraySize
    ensures EncScalar(f, items[0]).Some?
    ensures DecPacked(f, done, |done|, EncScalar(f, items[0]).value + tail)
         == if |done| < f.arraySize then DecPacked(f, done + [items[0]], |done| + 1, tail) else None
  {
    assert ReadsBack(f, items[0]);
    var s := EncScalar(f, items[0]).value + tail;
    assert DecScalar(f, s) == Ok(items[0], tail);
    assert s != [];
    assert Store(done, |done|, items[0]) == done + [items[0]];
  }

  lemma FirstMoves<T>(a: seq<T>, b: seq<T>)
    requires b != []
    ensures a + b == a + [b[0]] + b[1..]
  {
  }

  /** A packed array appended to the elements already there. */
  lemma {:induction false} PayloadReads(f: Field, done: seq<Value>, items: seq<Value>)
    requires |done| + |items| <= f.arraySize && AllRead(f, items)
    ensures EncPayload(f, items).Some?
    ensures DecPacked(f, done, |done|, EncPayload(f, items).value) == Some((done + items, |done| + |items|))
    decreases |items|
  {
    if items == [] {
      assert done + items == done;
    } else {
      AllReadStep(f, items);
      PayloadReads(f, done + [items[0]], items[1..]);
      PackedStep(f, done, items, EncPayload(f, items[1..]).value);
      FirstMoves(done, items);
    }
  }

  // ----- merging messages

  /** The last value wins, except that submessages are merged. */
  function MergeValue(f: Field, prior: Value, v: Value): Value
    decreases f, 0
  {
    if f.ltype == LSubmessage && f.ptr.Fields? then Sub(MergeSlots(f.ptr.fs, SlotsOf(prior), SlotsOf(v))) else v
  }

  /** Elements of an array are merged into default values. */
  function FreshItems(f: Field, items: seq<Value>): (r: seq<Value>)
    ensures |r| == |items|
    decreases f, 1
  {
    seq(|items|, k requires 0 <= k < |items| => MergeValue(f, DefaultValue(f), items[k]))
  }

  /** Arrays are appended; a oneof switches to the new member, merging only into the same submessage. */
  function MergeSlot(f: Field, base: Slot, s: Slot): Slot
    decreases f, 2
  {
    match f.htype
    case Required => Plain(MergeValue(f, ValueOf(base), ValueOf(s)))
    case Optional =>
      var v := MergeValue(f, ValueOf(base), ValueOf(s));
      if f.sizeOffset != 0 then Opt(true, v) else Plain(v)
    case Repeated => Many(ItemsOf(base) + FreshItems(f, ItemsOf(s)))
    case OneOf =>
      Union(f.tag, MergeValue(f, if WhichOf(base) == f.tag then ValueOf(base) else DefaultValue(f), ValueOf(s)))
  }

  /** The message `base` with the written ones among the first `n` fields of `slots` merged in. */
  function MergePrefix(fs: seq<Field>, base: seq<Slot>, slots: seq<Slot>, n: nat): (r: seq<Slot>)
    requires n <= |fs| && |base| == NumSlots(fs)
    ensures |r| == NumSlots(fs)
    decreases fs, n
  {
    if n == 0 then base
    else
      var before := MergePrefix(fs, base, slots, n - 1);
      SlotInRange(fs, n - 1);
      var p := SlotAt(fs, n - 1);
      if Written(fs[n - 1], At(slots, p)) then before[p := MergeSlot(fs[n - 1], before[p], At(slots, p))] else before
  }

  function MergeSlots(fs: seq<Field>, base: seq<Slot>, slots: seq<Slot>): (r: seq<Slot>)
    ensures |r| == |base|
    decreases fs, |fs| + 1
  {
    if |base| == NumSlots(fs) then MergePrefix(fs, base, slots, |fs|) else base
  }

  /** The message as it is read back into a default message. */
  function CanonSlots(fs: seq<Field>, slots: seq<Slot>): seq<Slot> {
    MergeSlots(fs, DefaultSlots(fs), slots)
  }

  ghost predicate FitsValue(f: Field, prior: Value, v: Value)
    decreases f, 0
  {
    f.ltype == LSubmessage && f.ptr.Fields? ==> prior.Sub? && v.Sub? && Fits(f.ptr.fs, prior.slots, v.slots)
  }

  /** There is room for the elements; a fixed-count array has not been received before. */
  ghost predicate FitsSlot(f: Field, base: Slot, s: Slot)
    decreases f, 1
  {
    match f.htype
    case Required => FitsValue(f, ValueOf(base), ValueOf(s))
    case Optional => FitsValue(f, ValueOf(base), ValueOf(s))
    case Repeated =>
      && base.Many?
      && (if f.sizeOffset != 0 then |base.items| + |ItemsOf(s)| <= f.arraySize else base.items == [])
    case OneOf => WhichOf(base) == f.tag ==> FitsValue(f, ValueOf(base), ValueOf(s))
  }

  /** `slots` can be merged into `base`. */
  ghost predicate Fits(fs: seq<Field>, base: seq<Slot>, slots: seq<Slot>)
    decreases fs
  {
    && |base| == NumSlots(fs)
    && forall i | 0 <= i < |fs| && Written(fs[i], At(slots, SlotAt(fs, i))) ::
         FitsSlot(fs[i], At(base, SlotAt(fs, i)), At(slots, SlotAt(fs, i))) && UnionOk(fs, fs[i], At(base, SlotAt(fs, i)))
  }

  /** Every well-formed message fits into the default message. */
  lemma DefaultFits(fs: seq<Field>, slots: seq<Slot>)
    requires WfFields(fs) && WfSlots(fs, slots)
    ensures Fits(fs, DefaultSlots(fs), slots)
    decreases fs, 1
  {
    forall i | 0 <= i < |fs| && Written(fs[i], At(slots, SlotAt(fs, i)))
      ensures FitsSlot(fs[i], At(DefaultSlots(fs), SlotAt(fs, i)), At(slots, SlotAt(fs, i)))
      ensures UnionOk(fs, fs[i], At(DefaultSlots(fs), SlotAt(fs, i)))
    {
      DefaultAt(fs, |fs|, i);
      assert WfField(fs[i]) && WfSlot(fs[i], At(slots, SlotAt(fs, i)));
      if fs[i].htype in {Required, Optional} {
        DefaultFitsValue(fs[i], ValueOf(At(slots, SlotAt(fs, i))));
      }
    }
  }

  lemma DefaultFitsValue(f: Field, v: Value)
    requires WfField(f) && WfValue(f, v)
    ensures FitsValue(f, DefaultValue(f), v)
    decreases f, 0
  {
    if f.ltype == LSubmessage { DefaultFits(f.ptr.fs, v.slots); }
  }

  /** A slot keeps what it holds until one of its fields is written. */
  lemma {:induction false} Untouched(fs: seq<Field>, base: seq<Slot>, slots: seq<Slot>, n: nat, p: nat)
    requires n <= |fs| && |base| == NumSlots(fs) && p < NumSlots(fs)
    requires forall k | 0 <= k < n :: SlotAt(fs, k) == p ==> !Written(fs[k], At(slots, p))
    ensures MergePrefix(fs, base, slots, n)[p] == base[p]
    decreases n
  {
    if n > 0 { Untouched(fs, base, slots, n - 1, p); }
  }

  /** When field `i` is reached and was written, its slot still holds what it held at first. */
  lemma FreshSlot(fs: seq<Field>, base: seq<Slot>, slots: seq<Slot>, i: nat)
    requires WfFields(fs) && |base| == NumSlots(fs) && i < |fs| && Written(fs[i], At(slots, SlotAt(fs, i)))
    ensures SlotAt(fs, i) < NumSlots(fs)
    ensures MergePrefix(fs, base, slots, i)[SlotAt(fs, i)] == base[SlotAt(fs, i)]
  {
    SlotInRange(fs, i);
    forall k | 0 <= k < i && SlotAt(fs, k) == SlotAt(fs, i)
      ensures !Written(fs[k], At(slots, SlotAt(fs, i)))
    {
      SharedSlot(fs, k, i);
    }
    Untouched(fs, base, slots, i, SlotAt(fs, i));
  }

  // ----- reading back one field

  lemma TagReads(wireType: nat, tag: nat, rest: seq<byte>)
    requires wireType < 8 && 1 <= tag < 0x2000_0000
    ensures EncTag(wireType, tag) != []
    ensures DecTag(EncTag(wireType, tag) + rest) == Tag(tag, wireType, rest)
  {
    Varint32OfEncoded(tag * 8 + wireType, rest);
    TagSplits(wireType, tag);
  }

  lemma TagSplits(wireType: nat, tag: nat)
    requires wireType < 8 && tag < 0x2000_0000
    ensures (tag * 8 + wireType) / 8 == tag && (tag * 8 + wireType) % 8 == wireType
    ensures (tag * 8 + wireType) % 0x1_0000_0000 == tag * 8 + wireType
  {
  }

  lemma FindsField(fs: seq<Field>, i: nat)
    requires WfFields(fs) && i < |fs|
    ensures FindTag(fs, fs[i].tag) == Some(i)
  {
  }

  /** The loop meets field `i`: its tag is read, and the field is decoded. */
  lemma MeetsField(fs: seq<Field>, st: State, i: nat, wireType: nat, data: seq<byte>)
    requires WfFields(fs) && i < |fs| && |st.slots| == NumSlots(fs) && wireType < 8
    ensures DecLoop(fs, st, EncTag(wireType, fs[i].tag) + data)
         == (match DecField(fs, st, i, wireType, data)
             case Fail => Fail
             case Ok(st', rest) => DecLoop(fs, st', rest))
  {
    TagReads(wireType, fs[i].tag, data);
    FindsField(fs, i);
    assert EncTag(wireType, fs[i].tag) + data != [];
  }

  /** The state after a field other than a fixed-count array. */
  function After(fs: seq<Field>, st: State, i: nat, slot: Slot): State
    requires i < |fs| && SlotAt(fs, i) < |st.slots|
  {
    State(st.slots[SlotAt(fs, i) := slot], if fs[i].htype == Required then st.seen + {i} else st.seen,
          st.fixed, st.fixedSize)
  }

  /** A single value comes back merged into its slot. */
  lemma SlotReads(f: Field, base: Slot, slot: Slot, n: nat, tail: seq<byte>)
    requires WfField(f) && f.htype != Repeated && WfSlot(f, slot) && Written(f, slot) && FitsSlot(f, base, slot)
    requires var e := EncValue(f, ValueOf(slot)); e.Some? && |e.value| < TWO32
    ensures DecSlot(f, base, n, WireType(f.ltype), EncValue(f, ValueOf(slot)).value + tail)
         == Ok((MergeSlot(f, base, slot), n), tail)
    decreases f, 2
  {
    var v := ValueOf(slot);
    if f.htype == OneOf && WhichOf(base) != f.tag {
      DefaultFitsValue(f, v);
      ValueReads(f, DefaultValue(f), v, tail);
    } else {
      ValueReads(f, ValueOf(base), v, tail);
    }
  }

  /** A field that holds a single value and was written. */
  lemma SingleReads(fs: seq<Field>, st: State, i: nat, slot: Slot, tail: seq<byte>)
    requires WfFields(fs) && i < |fs| && |st.slots| == NumSlots(fs) && SlotAt(fs, i) < |st.slots|
    requires fs[i].htype != Repeated && WfSlot(fs[i], slot) && Written(fs[i], slot)
    requires FitsSlot(fs[i], st.slots[SlotAt(fs, i)], slot) && UnionOk(fs, fs[i], st.slots[SlotAt(fs, i)])
    requires var e := EncTagged(fs[i], ValueOf(slot)); e.Some? && |e.value| < TWO32
    ensures DecLoop(fs, st, EncTagged(fs[i], ValueOf(slot)).value + tail)
         == DecLoop(fs, After(fs, st, i, MergeSlot(fs[i], st.slots[SlotAt(fs, i)], slot)), tail)
    decreases fs, 0
  {
    var f, base := fs[i], st.slots[SlotAt(fs, i)];
    var data := EncValue(f, ValueOf(slot)).value;
    assert EncTagged(f, ValueOf(slot)).value + tail == EncTagFor(f) + (data + tail) by {
      Regrouped(EncTagFor(f), data, tail);
    }
    MeetsField(fs, st, i, WireType(f.ltype), data + tail);
    SlotReads(f, base, slot, Received(fs, st, i), tail);
  }

  /** A value comes back merged with the one that was there. */
  lemma ValueReads(f: Field, prior: Value, v: Value, tail: seq<byte>)
    requires WfField(f) && WfValue(f, v)
    requires f.htype == Repeated || FitsValue(f, prior, v)
    requires EncValue(f, v).Some? && |EncValue(f, v).value| < TWO32
    ensures DecValue(f, prior, EncValue(f, v).value + tail)
         == Ok(MergeValue(f, if f.htype == Repeated then DefaultValue(f) else prior, v), tail)
    decreases f, 1
  {
    if f.ltype == LSubmessage {
      var body := EncFields(f.ptr.fs, v.slots, 0).value;
      assert Substream(Delimit(body) + tail) == Ok(body, tail) by { DelimitReads(body, tail); }
      DefaultFits(f.ptr.fs, v.slots);
      MessageReads(f.ptr.fs, if f.htype == Repeated then DefaultSlots(f.ptr.fs) else SlotsOf(prior), v.slots);
    } else {
      ScalarReads(f, v, tail);
    }
  }

  /** `done` elements of array `i` have been received. */
  predicate Receiving(fs: seq<Field>, st: State, i: nat, done: seq<Value>)
    requires i < |fs| && SlotAt(fs, i) < |st.slots|
  {
    && st.slots[SlotAt(fs, i)] == Many(done)
    && (FixedCount(fs[i]) ==>
          if st.fixed == Some(i) then st.fixedSize == |done| else FixedDone(fs, st) && done == [])
  }

  /** The state after elements of array `i` have been received. */
  function AfterItems(fs: seq<Field>, st: State, i: nat, items: seq<Value>): State
    requires i < |fs| && SlotAt(fs, i) < |st.slots|
  {
    State(st.slots[SlotAt(fs, i) := Many(items)], st.seen,
          if FixedCount(fs[i]) then Some(i) else st.fixed,
          if FixedCount(fs[i]) then |items| else st.fixedSize)
  }

  /** A packed field of array `i`. */
  lemma ReceivesPacked(fs: seq<Field>, st: State, i: nat, done: seq<Value>, items: seq<Value>,
                       data: seq<byte>, body: seq<byte>, tail: seq<byte>)
    requires i < |fs| && |st.slots| == NumSlots(fs) && SlotAt(fs, i) < |st.slots|
    requires fs[i].htype == Repeated && Packable(fs[i].ltype) && Receiving(fs, st, i, done)
    requires Substream(data) == Ok(body, tail)
    requires DecPacked(fs[i], done, |done|, body) == Some((items, |items|))
    ensures DecField(fs, st, i, WT_STRING, data) == Ok(AfterItems(fs, st, i, items), tail)
  {
    var slot := st.slots[SlotAt(fs, i)];
    assert DecSlot(fs[i], slot, |done|, WT_STRING, data) == Ok((Many(items), |items|), tail);
  }

  /** A separately tagged element of array `i`. */
  lemma ReceivesOne(fs: seq<Field>, st: State, i: nat, done: seq<Value>, v: Value, wireType: nat,
                    data: seq<byte>, tail: seq<byte>)
    requires i < |fs| && |st.slots| == NumSlots(fs) && SlotAt(fs, i) < |st.slots|
    requires fs[i].htype == Repeated && Receiving(fs, st, i, done) && |done| < fs[i].arraySize
    requires !(wireType == WT_STRING && Packable(fs[i].ltype))
    requires DecValue(fs[i], Num(0), data) == Ok(v, tail)
    ensures DecField(fs, st, i, wireType, data) == Ok(AfterItems(fs, st, i, done + [v]), tail)
  {
    var slot := st.slots[SlotAt(fs, i)];
    assert Store(done, |done|, v) == done + [v];
    assert DecSlot(fs[i], slot, |done|, wireType, data) == Ok((Many(done + [v]), |done| + 1), tail);
  }

  lemma PackedReads(fs: seq<Field>, st: State, i: nat, done: seq<Value>, items: seq<Value>, tail: seq<byte>)
    requires WfFields(fs) && i < |fs| && |st.slots| == NumSlots(fs) && SlotAt(fs, i) < |st.slots|
    requires fs[i].htype == Repeated && Packable(fs[i].ltype) && Receiving(fs, st, i, done)
    requires |done| + |items| <= fs[i].arraySize && AllRead(fs[i], items)
    requires EncPayload(fs[i], items).Some? && |EncPayload(fs[i], items).value| < TWO32
    ensures DecLoop(fs, st, EncTag(WT_STRING, fs[i].tag) + Delimit(EncPayload(fs[i], items).value) + tail)
         == DecLoop(fs, AfterItems(fs, st, i, done + items), tail)
  {
    var payload := EncPayload(fs[i], items).value;
    assert DecPacked(fs[i], done, |done|, payload) == Some((done + items, |done + items|)) by {
      PayloadReads(fs[i], done, items);
    }
    PackedFieldReads(fs, st, i, done, done + items, payload, tail);
  }

  /** A packed field with a given payload. */
  lemma PackedFieldReads(fs: seq<Field>, st: State, i: nat, done: seq<Value>, all: seq<Value>,
                         payload: seq<byte>, tail: seq<byte>)
    requires WfFields(fs) && i < |fs| && |st.slots| == NumSlots(fs) && SlotAt(fs, i) < |st.slots|
    requires fs[i].htype == Repeated && Packable(fs[i].ltype) && Receiving(fs, st, i, done)
    requires |payload| < TWO32 && DecPacked(fs[i], done, |done|, payload) == Some((all, |all|))
    ensures DecLoop(fs, st, EncTag(WT_STRING, fs[i].tag) + Delimit(payload) + tail)
         == DecLoop(fs, AfterItems(fs, st, i, all), tail)
  {
    var data := Delimit(payload) + tail;
    assert Substream(data) == Ok(payload, tail) by { DelimitReads(payload, tail); }
    assert DecField(fs, st, i, WT_STRING, data) == Ok(AfterItems(fs, st, i, all), tail) by {
      ReceivesPacked(fs, st, i, done, all, data, payload, tail);
    }
    MeetsField(fs, st, i, WT_STRING, data);
    Regrouped(EncTag(WT_STRING, fs[i].tag), Delimit(payload), tail);
  }

  /** The state after elements have been received one after another. */
  lemma AfterMoreItems(fs: seq<Field>, st: State, i: nat, first: seq<Value>, all: seq<Value>)
    requires i < |fs| && SlotAt(fs, i) < |st.slots|
    ensures AfterItems(fs, AfterItems(fs, st, i, first), i, all) == AfterItems(fs, st, i, all)
    ensures Receiving(fs, AfterItems(fs, st, i, first), i, first)
  {
  }

  /** The first of several separately tagged elements. */
  lemma FirstReads(fs: seq<Field>, st: State, i: nat, done: seq<Value>, items: seq<Value>, tail: seq<byte>)
    requires WfFields(fs) && i < |fs| && |st.slots| == NumSlots(fs) && SlotAt(fs, i) < |st.slots|
    requires fs[i].htype == Repeated && Receiving(fs, st, i, done) && |done| < fs[i].arraySize
    requires items != [] && WfValue(fs[i], items[0])
    requires var e := EncUnpacked(fs[i], items); e.Some? && |e.value| < TWO32
    ensures EncUnpacked(fs[i], items[1..]).Some?
    ensures DecLoop(fs, st, EncUnpacked(fs[i], items).value + tail)
         == DecLoop(fs, AfterItems(fs, st, i, done + [MergeValue(fs[i], DefaultValue(fs[i]), items[0])]),
                    EncUnpacked(fs[i], items[1..]).value + tail)
    decreases fs, 1, 0
  {
    var f := fs[i];
    UnpackedSplits(f, items, tail);
    var data, more := EncValue(f, items[0]).value, EncUnpacked(f, items[1..]).value + tail;
    ValueReads(f, Num(0), items[0], more);
    ReceivesOne(fs, st, i, done, MergeValue(f, DefaultValue(f), items[0]), WireType(f.ltype), data + more, more);
    MeetsField(fs, st, i, WireType(f.ltype), data + more);
  }

  lemma UnpackedSplits(f: Field, items: seq<Value>, tail: seq<byte>)
    requires items != [] && EncUnpacked(f, items).Some?
    ensures EncValue(f, items[0]).Some? && EncUnpacked(f, items[1..]).Some?
    ensures |EncValue(f, items[0]).value| <= |EncUnpacked(f, items).value|
    ensures |EncUnpacked(f, items[1..]).value| <= |EncUnpacked(f, items).value|
    ensures EncUnpacked(f, items).value + tail
         == EncTag(WireType(f.ltype), f.tag) + (EncValue(f, items[0]).value + (EncUnpacked(f, items[1..]).value + tail))
  {
    var tag, data, more := EncTagFor(f), EncValue(f, items[0]), EncUnpacked(f, items[1..]);
    assert EncTagged(f, items[0]) == Append(Some(tag), data);
    assert EncUnpacked(f, items).value == (tag + data.value) + more.value;
    Reassociate(tag, data.value, more.value, tail);
  }

  lemma Reassociate(a: seq<byte>, b: seq<byte>, c: seq<byte>, d: seq<byte>)
    ensures a + b + c + d == a + (b + (c + d))
  {
  }

  lemma FreshFirst(f: Field, done: seq<Value>, items: seq<Value>)
    requires items != []
    ensures done + FreshItems(f, items)
         == done + [MergeValue(f, DefaultValue(f), items[0])] + FreshItems(f, items[1..])
    ensures items[1..] == [] ==> FreshItems(f, items[1..]) == []
  {
  }

  /** Separately tagged elements. */
  lemma {:induction false} UnpackedReads(fs: seq<Field>, st: State, i: nat, done: seq<Value>, items: seq<Value>,
                                         tail: seq<byte>)
    requires WfFields(fs) && i < |fs| && |st.slots| == NumSlots(fs) && SlotAt(fs, i) < |st.slots|
    requires fs[i].htype == Repeated && Receiving(fs, st, i, done)
    requires items != [] && |done| + |items| <= fs[i].arraySize
    requires forall k | 0 <= k < |items| :: WfValue(fs[i], items[k])
    requires var e := EncUnpacked(fs[i], items); e.Some? && |e.value| < TWO32
    ensures DecLoop(fs, st, EncUnpacked(fs[i], items).value + tail)
         == DecLoop(fs, AfterItems(fs, st, i, done + FreshItems(fs[i], items)), tail)
    decreases fs, 1, |items|
  {
    var f := fs[i];
    var done' := done + [MergeValue(f, DefaultValue(f), items[0])];
    var all := done + FreshItems(f, items);
    FirstReads(fs, st, i, done, items, tail);
    AfterMoreItems(fs, st, i, done', all);
    FreshFirst(f, done, items);
    if items[1..] == [] {
      assert EncUnpacked(f, items[1..]).value + tail == tail;
      assert done' + [] == done';
    } else {
      UnpackedReads(fs, AfterItems(fs, st, i, done'), i, done', items[1..], tail);
    }
  }

  // ----- reading back a message

  /** The REQUIRED fields among the first `n`. */
  function RequiredAmong(fs: seq<Field>, n: nat): set<nat>
    requires n <= |fs|
  {
    set i: nat | i < n && fs[i].htype == Required
  }

  lemma RequiredStep(fs: seq<Field>, i: nat)
    requires i < |fs|
    ensures RequiredAmong(fs, i + 1)
         == if fs[i].htype == Required then RequiredAmong(fs, i) + {i} else RequiredAmong(fs, i)
  {
    if fs[i].htype == Required {
      assert RequiredAmong(fs, i + 1) == RequiredAmong(fs, i) + {i};
    } else {
      assert RequiredAmong(fs, i + 1) == RequiredAmong(fs, i);
    }
  }

  /** The state of the loop after the first `n` fields of `slots` have been read into `base`. */
  predicate ReadBack(fs: seq<Field>, base: seq<Slot>, slots: seq<Slot>, n: nat, st: State)
    requires n <= |fs| && |base| == NumSlots(fs)
  {
    && st.slots == MergePrefix(fs, base, slots, n)
    && st.seen == RequiredAmong(fs, n)
    && FixedDone(fs, st)
    && (st.fixed.Some? ==> st.fixed.value < n)
  }

  /** A whole array, appended to what is there. */
  lemma ArrayReads(fs: seq<Field>, st: State, i: nat, items: seq<Value>, tail: seq<byte>)
    requires WfFields(fs) && i < |fs| && |st.slots| == NumSlots(fs) && SlotAt(fs, i) < |st.slots|
    requires fs[i].htype == Repeated && FitsSlot(fs[i], st.slots[SlotAt(fs, i)], Many(items))
    requires FixedDone(fs, st) && st.fixed != Some(i)
    requires items != [] && forall k | 0 <= k < |items| :: WfValue(fs[i], items[k])
    requires var e := EncArray(fs[i], items); e.Some? && |e.value| < TWO32
    ensures DecLoop(fs, st, EncArray(fs[i], items).value + tail)
         == DecLoop(fs, AfterItems(fs, st, i, ItemsOf(st.slots[SlotAt(fs, i)]) + FreshItems(fs[i], items)), tail)
    decreases fs, 2, 0
  {
    var f, done := fs[i], ItemsOf(st.slots[SlotAt(fs, i)]);
    assert Receiving(fs, st, i, done);
    if Packable(f.ltype) {
      assert FreshItems(f, items) == items;
      AllReadBack(f, items);
      PackedReads(fs, st, i, done, items, tail);
    } else {
      UnpackedReads(fs, st, i, done, items, tail);
    }
  }

  /** A field that is left out leaves the state of the loop as it is. */
  lemma UnwrittenReads(fs: seq<Field>, base: seq<Slot>, slots: seq<Slot>, i: nat, st: State)
    requires WfFields(fs) && |base| == NumSlots(fs) && i < |fs| && ReadBack(fs, base, slots, i, st)
    requires !Written(fs[i], At(slots, SlotAt(fs, i)))
    ensures ReadBack(fs, base, slots, i + 1, st)
  {
    RequiredStep(fs, i);
  }

  lemma SingleFieldReads(fs: seq<Field>, base: seq<Slot>, slots: seq<Slot>, i: nat, st: State, tail: seq<byte>)
    returns (st': State)
    requires WfFields(fs) && WfSlots(fs, slots) && Fits(fs, base, slots)
    requires i < |fs| && ReadBack(fs, base, slots, i, st)
    requires fs[i].htype != Repeated && Written(fs[i], At(slots, SlotAt(fs, i)))
    requires var e := EncField(fs[i], At(slots, SlotAt(fs, i))); e.Some? && |e.value| < TWO32
    ensures ReadBack(fs, base, slots, i + 1, st')
    ensures DecLoop(fs, st, EncField(fs[i], At(slots, SlotAt(fs, i))).value + tail) == DecLoop(fs, st', tail)
    decreases fs, 2, 1
  {
    var f, slot := fs[i], At(slots, SlotAt(fs, i));
    assert WfSlot(f, slot);
    FreshSlot(fs, base, slots, i);
    SingleReads(fs, st, i, slot, tail);
    st' := After(fs, st, i, MergeSlot(f, base[SlotAt(fs, i)], slot));
    RequiredStep(fs, i);
  }

  lemma ArrayFieldReads(fs: seq<Field>, base: seq<Slot>, slots: seq<Slot>, i: nat, st: State, tail: seq<byte>)
    returns (st': State)
    requires WfFields(fs) && WfSlots(fs, slots) && Fits(fs, base, slots)
    requires i < |fs| && ReadBack(fs, base, slots, i, st)
    requires fs[i].htype == Repeated && Written(fs[i], At(slots, SlotAt(fs, i)))
    requires var e := EncField(fs[i], At(slots, SlotAt(fs, i))); e.Some? && |e.value| < TWO32
    ensures ReadBack(fs, base, slots, i + 1, st')
    ensures DecLoop(fs, st, EncField(fs[i], At(slots, SlotAt(fs, i))).value + tail) == DecLoop(fs, st', tail)
    decreases fs, 2, 1
  {
    var f, slot := fs[i], At(slots, SlotAt(fs, i));
    assert WfSlot(f, slot);
    FreshSlot(fs, base, slots, i);
    ArrayReads(fs, st, i, slot.items, tail);
    st' := AfterItems(fs, st, i, base[SlotAt(fs, i)].items + FreshItems(f, slot.items));
    RequiredStep(fs, i);
  }

  /** One field of a message is read back. */
  lemma FieldReads(fs: seq<Field>, base: seq<Slot>, slots: seq<Slot>, i: nat, st: State, tail: seq<byte>)
    returns (st': State)
    requires WfFields(fs) && WfSlots(fs, slots) && Fits(fs, base, slots)
    requires i < |fs| && ReadBack(fs, base, slots, i, st)
    requires var e := EncField(fs[i], At(slots, SlotAt(fs, i))); e.Some? && |e.value| < TWO32
    ensures ReadBack(fs, base, slots, i + 1, st')
    ensures DecLoop(fs, st, EncField(fs[i], At(slots, SlotAt(fs, i))).value + tail) == DecLoop(fs, st', tail)
    decreases fs, 2, 2
  {
    var f, slot := fs[i], At(slots, SlotAt(fs, i));
    if !Written(f, slot) {
      assert EncField(f, slot).value == [] && [] + tail == tail;
      UnwrittenReads(fs, base, slots, i, st);
      st' := st;
    } else if f.htype != Repeated {
      st' := SingleFieldReads(fs, base, slots, i, st, tail);
    } else {
      st' := ArrayFieldReads(fs, base, slots, i, st, tail);
    }
  }

  /** The remaining fields of a message are read back. */
  lemma {:induction false} FieldsRead(fs: seq<Field>, base: seq<Slot>, slots: seq<Slot>, i: nat, st: State)
    returns (st': State)
    requires WfFields(fs) && WfSlots(fs, slots) && Fits(fs, base, slots)
    requires i <= |fs| && ReadBack(fs, base, slots, i, st)
    requires var e := EncFields(fs, slots, i); e.Some? && |e.value| < TWO32
    ensures ReadBack(fs, base, slots, |fs|, st')
    ensures DecLoop(fs, st, EncFields(fs, slots, i).value) == Ok(st', [])
    decreases fs, 3, |fs| - i
  {
    if i == |fs| {
      st' := st;
    } else {
      var tail := EncFields(fs, slots, i + 1).value;
      var st1 := FieldReads(fs, base, slots, i, st, tail);
      st' := FieldsRead(fs, base, slots, i + 1, st1);
    }
  }

  /**
   * Decoding an encoded message into another message merges the two: the last value wins, arrays are
   * appended, submessages are merged.
   */
  lemma MessageReads(fs: seq<Field>, base: seq<Slot>, slots: seq<Slot>)
    requires WfFields(fs) && WfSlots(fs, slots) && Fits(fs, base, slots)
    requires var e := Encode(fs, slots); e.Some? && |e.value| < TWO32
    ensures DecNoinit(fs, base, Encode(fs, slots).value) == Ok(MergeSlots(fs, base, slots), [])
    decreases fs, 4
  {
    var st := Start(base);
    assert RequiredAmong(fs, 0) == {};
    var st' := FieldsRead(fs, base, slots, 0, st);
  }

  // ----- what comes back is the same message

  /** A proto3 field that is left out cannot be told from its default. */
  lemma DefaultsAreSame(f: Field, s: Slot)
    requires WfField(f) && WfSlot(f, s) && IsDefault(f, s)
    ensures SameSlot(f, s, DefaultSlot(f))
    decreases f, 1
  {
    if f.htype == Optional && f.sizeOffset == 0 {
      if f.ltype == LSubmessage {
        DefaultFieldsAreSame(f.ptr.fs, s.v.slots);
      } else if f.ltype == LFixedLengthBytes {
        assert s.v.bs == [] && Zeros(0) == [];
      }
    }
  }

  lemma DefaultFieldsAreSame(fs: seq<Field>, slots: seq<Slot>)
    requires WfFields(fs) && WfSlots(fs, slots)
    requires forall i | 0 <= i < |fs| :: IsDefault(fs[i], At(slots, SlotAt(fs, i)))
    ensures SameSlots(fs, slots, DefaultSlots(fs))
    decreases fs, 0
  {
    forall i | 0 <= i < |fs|
      ensures SameSlot(fs[i], At(slots, SlotAt(fs, i)), At(DefaultSlots(fs), SlotAt(fs, i)))
    {
      DefaultAt(fs, |fs|, i);
      DefaultsAreSame(fs[i], At(slots, SlotAt(fs, i)));
    }
  }

  /** Fields after `i` leave alone what was written for field `i`. */
  lemma {:induction false} Kept(fs: seq<Field>, base: seq<Slot>, slots: seq<Slot>, i: nat, n: nat)
    requires WfFields(fs) && |base| == NumSlots(fs) && i < n <= |fs|
    requires fs[i].htype == OneOf ==> Written(fs[i], At(slots, SlotAt(fs, i)))
    ensures SlotAt(fs, i) < NumSlots(fs)
    ensures MergePrefix(fs, base, slots, n)[SlotAt(fs, i)] == MergePrefix(fs, base, slots, i + 1)[SlotAt(fs, i)]
    decreases n
  {
    SlotInRange(fs, i);
    if i < n - 1 {
      Kept(fs, base, slots, i, n - 1);
      if SlotAt(fs, n - 1) == SlotAt(fs, i) {
        SharedSlot(fs, i, n - 1);
        assert fs[i].tag != fs[n - 1].tag;
      }
    }
  }

  /** The slot of a field that was written, in the end. */
  lemma MergedSlot(fs: seq<Field>, base: seq<Slot>, slots: seq<Slot>, i: nat)
    requires WfFields(fs) && |base| == NumSlots(fs) && i < |fs| && Written(fs[i], At(slots, SlotAt(fs, i)))
    ensures SlotAt(fs, i) < NumSlots(fs)
    ensures MergeSlots(fs, base, slots)[SlotAt(fs, i)]
         == MergeSlot(fs[i], base[SlotAt(fs, i)], At(slots, SlotAt(fs, i)))
  {
    FreshSlot(fs, base, slots, i);
    Kept(fs, base, slots, i, |fs|);
  }

  /** The slot of a field outside of any oneof that was not written, in the end. */
  lemma UnmergedSlot(fs: seq<Field>, base: seq<Slot>, slots: seq<Slot>, i: nat)
    requires |base| == NumSlots(fs) && i < |fs| && fs[i].htype != OneOf
    requires !Written(fs[i], At(slots, SlotAt(fs, i)))
    ensures SlotAt(fs, i) < NumSlots(fs)
    ensures MergeSlots(fs, base, slots)[SlotAt(fs, i)] == base[SlotAt(fs, i)]
  {
    var p := SlotAt(fs, i);
    SlotInRange(fs, i);
    forall k | 0 <= k < |fs| && SlotAt(fs, k) == p ensures !Written(fs[k], At(slots, p)) {
      if k < i { SharedSlot(fs, k, i); }
      if i < k { SharedSlot(fs, i, k); }
    }
    Untouched(fs, base, slots, |fs|, p);
  }

  /** A oneof that does not hold member `i` does not hold it when it is read back. */
  lemma {:induction false} NotHeld(fs: seq<Field>, slots: seq<Slot>, i: nat, n: nat)
    requires WfFields(fs) && i < |fs| && n <= |fs| && fs[i].htype == OneOf
    requires WhichOf(At(slots, SlotAt(fs, i))) != fs[i].tag
    ensures SlotAt(fs, i) < NumSlots(fs)
    ensures WhichOf(MergePrefix(fs, DefaultSlots(fs), slots, n)[SlotAt(fs, i)]) != fs[i].tag
    decreases n
  {
    SlotInRange(fs, i);
    if n == 0 {
      DefaultAt(fs, |fs|, i);
      assert WfField(fs[i]);
    } else {
      NotHeld(fs, slots, i, n - 1);
      if SlotAt(fs, n - 1) == SlotAt(fs, i) && n - 1 != i {
        if n - 1 < i {
          SharedSlot(fs, n - 1, i);
          assert fs[n - 1].tag != fs[i].tag;
        } else {
          SharedSlot(fs, i, n - 1);
          assert fs[i].tag != fs[n - 1].tag;
        }
      }
    }
  }

  lemma FreshValueSame(f: Field, v: Value)
    requires WfField(f) && WfValue(f, v)
    ensures SameValue(f, v, MergeValue(f, DefaultValue(f), v))
    decreases f, 0
  {
    if f.ltype == LSubmessage {
      CanonSame(f.ptr.fs, v.slots);
    }
  }

  lemma FreshSlotSame(f: Field, s: Slot)
    requires WfField(f) && WfSlot(f, s) && Written(f, s)
    ensures SameSlot(f, s, MergeSlot(f, DefaultSlot(f), s))
    decreases f, 1
  {
    if f.htype == Repeated {
      assert [] + FreshItems(f, s.items) == FreshItems(f, s.items);
      forall k | 0 <= k < |s.items| ensures SameValue(f, s.items[k], FreshItems(f, s.items)[k]) {
        FreshValueSame(f, s.items[k]);
      }
    } else {
      FreshValueSame(f, s.v);
    }
  }

  lemma CanonFieldSame(fs: seq<Field>, slots: seq<Slot>, i: nat)
    requires WfFields(fs) && WfSlots(fs, slots) && i < |fs|
    ensures SameSlot(fs[i], At(slots, SlotAt(fs, i)), At(CanonSlots(fs, slots), SlotAt(fs, i)))
    decreases fs, 2
  {
    var f, base := fs[i], DefaultSlots(fs);
    var s := At(slots, SlotAt(fs, i));
    assert WfSlot(f, s);
    DefaultAt(fs, |fs|, i);
    if Written(f, s) {
      MergedSlot(fs, base, slots, i);
      FreshSlotSame(f, s);
    } else if f.htype == OneOf {
      NotHeld(fs, slots, i, |fs|);
    } else {
      UnmergedSlot(fs, base, slots, i);
      if f.htype == Optional && f.sizeOffset == 0 { DefaultsAreSame(f, s); }
    }
  }

  /** The message that comes back cannot be told from the one that was encoded. */
  lemma CanonSame(fs: seq<Field>, slots: seq<Slot>)
    requires WfFields(fs) && WfSlots(fs, slots)
    ensures SameSlots(fs, slots, CanonSlots(fs, slots))
    decreases fs, 3
  {
    forall i | 0 <= i < |fs|
      ensures SameSlot(fs[i], At(slots, SlotAt(fs, i)), At(CanonSlots(fs, slots), SlotAt(fs, i)))
    {
      CanonFieldSame(fs, slots, i);
    }
  }

  /**
   * The round trip. If pb_encode succeeds on a well-formed message, then pb_decode succeeds on the bytes,
   * consumes them all, and yields a message that agrees with the original in everything observable.
   */
  lemma EncodeThenDecode(fs: seq<Field>, slots: seq<Slot>)
    requires WfFields(fs) && WfSlots(fs, slots)
    requires var e := Encode(fs, slots); e.Some? && |e.value| < TWO32
    ensures var r := Decode(fs, Encode(fs, slots).value);
            r.Ok? && r.rest == [] && SameSlots(fs, slots, r.value)
  {
    DefaultFits(fs, slots);
    MessageReads(fs, DefaultSlots(fs), slots);
    CanonSame(fs, slots);
  }
}
