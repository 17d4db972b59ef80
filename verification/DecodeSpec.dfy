/** What pb_decode_noinit makes of a byte sequence and a message to start from. */
module DecodeSpec {
  import opened Bits
  import opened Varint
  import opened Descriptor

  // ----- tags and skipping

  /** A tag was read, the message ended with a zero byte, or neither. */
  datatype TagResult = Bad | End(rest: seq<byte>) | Tag(tag: nat, wireType: nat, rest: seq<byte>)

  function DecTag(s: seq<byte>): (r: TagResult)
    ensures !r.Bad? ==> |r.rest| < |s|
  {
    match Varint32(s)
    case Fail => Bad
    case Ok(n, rest) => if n == 0 then End(rest) else Tag(n / 8, n % 8, rest)
  }

  /** pb_skip_field. */
  function SkipField(wireType: nat, s: seq<byte>): (r: Parse<()>)
    ensures r.Ok? ==> |r.rest| <= |s|
  {
    if wireType == 0 then SkipVarint(s)
    else if wireType == 1 then Drop(s, 8)
    else if wireType == 2 then
      match Varint32(s) {
        case Fail => Fail
        case Ok(n, rest) => Drop(rest, n)
      }
    else if wireType == 5 then Drop(s, 4)
    else Fail
  }

  function Drop(s: seq<byte>, n: nat): (r: Parse<()>)
    ensures r.Ok? ==> |r.rest| <= |s|
  {
    if |s| < n then Fail else Ok((), s[n..])
  }

  /** pb_make_string_substream: the bytes of the substream. */
  function Substream(s: seq<byte>): (r: Parse<seq<byte>>)
    ensures r.Ok? ==> |r.value| + |r.rest| < |s|
  {
    match Varint32(s)
    case Fail => Fail
    case Ok(n, rest) => Take(rest, n)
  }

  // ----- values

  /** The field decoders other than pb_dec_submessage. */
  function DecScalar(f: Field, s: seq<byte>): (r: Parse<Value>)
    ensures r.Ok? ==> |r.rest| < |s|
  {
    match f.ltype
    case LBool =>
      (match Varint32(s)
       case Fail => Fail
       case Ok(n, rest) => Ok(Num(if n != 0 then 1 else 0), rest))
    case LVarint =>
      (match Varint64(s)
       case Fail => Fail
       case Ok(n, rest) =>
         var svalue := CastSigned(n, if f.dataSize == 8 then 8 else 4);
         if f.dataSize in {1, 2, 4, 8} && CastSigned(svalue, f.dataSize) == svalue then Ok(Num(svalue), rest)
         else Fail)
    case LUvarint =>
      (match Varint64(s)
       case Fail => Fail
       case Ok(n, rest) =>
         if f.dataSize in {1, 2, 4, 8} && CastUnsigned(n, f.dataSize) == n then Ok(Num(n), rest) else Fail)
    case LSvarint =>
      (match Varint64(s)
       case Fail => Fail
       case Ok(n, rest) =>
         var value := UnZigZag(n);
         if f.dataSize in {1, 2, 4, 8} && CastSigned(value, f.dataSize) == value then Ok(Num(value), rest)
         else Fail)
    case LFixed32 => if |s| < 4 then Fail else Ok(Num(FromLittleEndian(s[..4])), s[4..])
    case LFixed64 => if |s| < 8 then Fail else Ok(Num(FromLittleEndian(s[..8])), s[8..])
    case LBytes =>
      (match Varint32(s)
       case Fail => Fail
       case Ok(n, rest) =>
         if n + 4 > f.dataSize || |rest| < n then Fail else Ok(Blob(rest[..n]), rest[n..]))
    case LString =>
      (match Varint32(s)
       case Fail => Fail
       case Ok(n, rest) =>
         // the size with its NUL is computed in 32 bits
         var allocSize := (n + 1) % 0x1_0000_0000;
         if allocSize < n || allocSize > f.dataSize || |rest| < n then Fail
         else Ok(Blob(UpToNul(rest[..n])), rest[n..]))
    case LFixedLengthBytes =>
      (match Varint32(s)
       case Fail => Fail
       case Ok(n, rest) =>
         if n == 0 then Ok(Blob(Zeros(f.dataSize)), rest)
         else if n != f.dataSize || |rest| < n then Fail
         else Ok(Blob(rest[..n]), rest[n..]))
    case LSubmessage => Fail
    case LExtension => Fail
  }

  /** Storing element `n` of an array. */
  function Store(items: seq<Value>, n: nat, v: Value): (r: seq<Value>)
    requires n <= |items|
    ensures |r| == (if n < |items| then |items| else |items| + 1)
    ensures r[n] == v && forall k | 0 <= k < |items| && k != n :: r[k] == items[k]
  {
    if n < |items| then items[n := v] else items + [v]
  }

  /** The elements of a packed field, stored from element `n` on; the bytes must be used up. */
  function DecPacked(f: Field, items: seq<Value>, n: nat, s: seq<byte>): (r: Option<(seq<Value>, nat)>)
    requires n <= |items|
    ensures r.Some? ==> r.value.1 <= |r.value.0|
    decreases |s|
  {
    if s == [] then Some((items, n))
    else if n >= f.arraySize then None
    else match DecScalar(f, s)
      case Fail => None
      case Ok(v, rest) => DecPacked(f, Store(items, n, v), n + 1, rest)
  }

  // ----- fields and messages

  /**
   * The state of the loop in pb_decode_noinit: the message, the REQUIRED fields that occurred, and the
   * fixed-count array being received with the number of its elements so far.
   */
  datatype State = State(slots: seq<Slot>, seen: set<nat>, fixed: Option<nat>, fixedSize: nat)

  function Start(slots: seq<Slot>): State {
    State(slots, {}, None, 0)
  }

  /** A value of the field, decoded into a place that holds `prior`. */
  function DecValue(f: Field, prior: Value, s: seq<byte>): (r: Parse<Value>)
    ensures r.Ok? ==> |r.rest| < |s|
    decreases f, |s|, 0
  {
    if f.ltype == LSubmessage then
      match Substream(s)
      case Fail => Fail
      case Ok(body, rest) =>
        if !f.ptr.Fields? then Fail else
        // array elements are initialised, other submessages are merged
        var init := if f.htype == Repeated then DefaultSlots(f.ptr.fs) else SlotsOf(prior);
        match DecNoinit(f.ptr.fs, init, body)
        case Fail => Fail
        case Ok(slots, _) => Ok(Sub(slots), rest)
    else DecScalar(f, s)
  }

  /** decode_static_field on a slot. `n` is the element count of an array; the new count is returned. */
  function DecSlot(f: Field, slot: Slot, n: nat, wireType: nat, s: seq<byte>): (r: Parse<(Slot, nat)>)
    ensures r.Ok? ==> |r.rest| < |s|
    ensures r.Ok? && f.htype == Repeated ==> r.value.1 <= |ItemsOf(r.value.0)|
    decreases f, |s|, 1
  {
    match f.htype
    case Required =>
      (match DecValue(f, ValueOf(slot), s)
       case Fail => Fail
       case Ok(v, rest) => Ok((Plain(v), n), rest))
    case Optional =>
      (match DecValue(f, ValueOf(slot), s)
       case Fail => Fail
       case Ok(v, rest) => Ok((if f.sizeOffset != 0 then Opt(true, v) else Plain(v), n), rest))
    case Repeated =>
      if n > |ItemsOf(slot)| then Fail
      else if wireType == 2 && Packable(f.ltype) then
        (match Substream(s)
         case Fail => Fail
         case Ok(body, rest) =>
           match DecPacked(f, ItemsOf(slot), n, body)
           case None => Fail
           case Some(r) => Ok((Many(r.0), r.1), rest))
      else if n >= f.arraySize then Fail
      else
        (match DecValue(f, Num(0), s)
         case Fail => Fail
         case Ok(v, rest) => Ok((Many(Store(ItemsOf(slot), n, v)), n + 1), rest))
    case OneOf =>
      // a submessage that becomes the member is initialised first
      var prior := if f.ltype == LSubmessage && WhichOf(slot) != f.tag && f.ptr.Fields?
                 then Sub(DefaultSlots(f.ptr.fs)) else ValueOf(slot);
      (match DecValue(f, prior, s)
       case Fail => Fail
       case Ok(v, rest) => Ok((Union(f.tag, v), n), rest))
  }

  /** A fixed-count array has no counter in the struct. */
  predicate FixedCount(f: Field) {
    f.htype == Repeated && f.sizeOffset == 0
  }

  /** The fixed-count array being received, if any, is complete. */
  predicate FixedDone(fs: seq<Field>, st: State) {
    st.fixed.Some? && st.fixed.value < |fs| ==> st.fixedSize == fs[st.fixed.value].arraySize
  }

  /** pb_release_union_field refuses a oneof that holds an unknown member. */
  predicate UnionOk(fs: seq<Field>, f: Field, slot: Slot) {
    f.htype == OneOf && WhichOf(slot) != 0 && WhichOf(slot) != f.tag ==> FindTag(fs, WhichOf(slot)).Some?
  }

  /** The number of elements an array has received when field `i` is met. */
  function Received(fs: seq<Field>, st: State, i: nat): nat
    requires i < |fs|
  {
    if !FixedCount(fs[i]) then |ItemsOf(At(st.slots, SlotAt(fs, i)))|
    else if st.fixed == Some(i) then st.fixedSize
    else 0
  }

  /** The state after field `i` has been decoded into its slot, with the new number of elements. */
  function Updated(fs: seq<Field>, st: State, i: nat, slot: Slot, n: nat): State
    requires i < |fs| && SlotAt(fs, i) < |st.slots|
  {
    State(st.slots[SlotAt(fs, i) := slot],
          if fs[i].htype == Required then st.seen + {i} else st.seen,
          if FixedCount(fs[i]) then Some(i) else st.fixed,
          if FixedCount(fs[i]) then n else st.fixedSize)
  }

  /** Field `i` has been met with the given wire type; `s` starts with its data. */
  function DecField(fs: seq<Field>, st: State, i: nat, wireType: nat, s: seq<byte>): (r: Parse<State>)
    requires i < |fs| && |st.slots| == NumSlots(fs)
    ensures r.Ok? ==> |r.rest| < |s| && |r.value.slots| == NumSlots(fs)
    decreases fs, |s|, 2
  {
    SlotInRange(fs, i);
    var f, slot := fs[i], st.slots[SlotAt(fs, i)];
    if FixedCount(f) && st.fixed != Some(i) && !FixedDone(fs, st) then Fail
    else if !UnionOk(fs, f, slot) then Fail
    else
      match DecSlot(f, slot, Received(fs, st, i), wireType, s)
      case Fail => Fail
      case Ok(r, rest) => Ok(Updated(fs, st, i, r.0, r.1), rest)
  }

  /**
   * One field of the message whose tag has been read. An unknown field is skipped. The descriptor of an
   * empty message starts with its terminator, which has tag 0 and passes for a bool field.
   */
  function DecStep(fs: seq<Field>, st: State, tag: nat, wireType: nat, s: seq<byte>): (r: Parse<State>)
    requires |st.slots| == NumSlots(fs)
    ensures r.Ok? ==> |r.rest| <= |s| && |r.value.slots| == NumSlots(fs)
    decreases fs, |s|, 3
  {
    match FindTag(fs, tag)
    case Some(i) => DecField(fs, st, i, wireType, s)
    case None =>
      if fs == [] && tag == 0 then
        match Varint32(s)
        case Fail => Fail
        case Ok(_, rest) => Ok(st, rest)
      else
        match SkipField(wireType, s)
        case Fail => Fail
        case Ok(_, rest) => Ok(st, rest)
  }

  /** The loop of pb_decode_noinit: it ends with the input or with a zero tag. */
  function DecLoop(fs: seq<Field>, st: State, s: seq<byte>): (r: Parse<State>)
    requires |st.slots| == NumSlots(fs)
    ensures r.Ok? ==> |r.rest| <= |s| && |r.value.slots| == NumSlots(fs)
    decreases fs, |s|, 4
  {
    if s == [] then Ok(st, s)
    else match DecTag(s)
      case Bad => Fail
      case End(rest) => Ok(st, rest)
      case Tag(tag, wireType, rest) =>
        match DecStep(fs, st, tag, wireType, rest)
        case Fail => Fail
        case Ok(st', rest') => DecLoop(fs, st', rest')
  }

  /** Every REQUIRED field that is tracked has occurred. */
  predicate RequiredSeen(fs: seq<Field>, seen: set<nat>) {
    forall i | 0 <= i < |fs| ::
      fs[i].htype == Required && RequiredBefore(fs, i) < MAX_REQUIRED_FIELDS ==> i in seen
  }

  /** pb_decode_noinit. A struct of another shape than the descriptor's is refused. */
  function DecNoinit(fs: seq<Field>, slots: seq<Slot>, s: seq<byte>): (r: Parse<seq<Slot>>)
    ensures r.Ok? ==> |r.rest| <= |s| && |r.value| == NumSlots(fs)
    decreases fs, |s|, 5
  {
    if |slots| != NumSlots(fs) then Fail
    else match DecLoop(fs, Start(slots), s)
      case Fail => Fail
      case Ok(st, rest) => if FixedDone(fs, st) && RequiredSeen(fs, st.seen) then Ok(st.slots, rest) else Fail
  }

  /** pb_decode. */
  function Decode(fs: seq<Field>, s: seq<byte>): Parse<seq<Slot>> {
    DecNoinit(fs, DefaultSlots(fs), s)
  }

  /** pb_decode_delimited: whatever the message leaves of its bytes is skipped. */
  function DecodeDelimited(fs: seq<Field>, s: seq<byte>): Parse<seq<Slot>> {
    match Substream(s)
    case Fail => Fail
    case Ok(body, rest) =>
      match Decode(fs, body)
      case Fail => Fail
      case Ok(slots, _) => Ok(slots, rest)
  }
}
