/**
 * Arrays on the heap: allocate_field, and the growth of an array while elements are decoded into it. The heap
 * may refuse any request.
 */
module PointerArray {
  import opened Bits
  import opened Varint
  import opened Descriptor
  import opened DecodeSpec
  import opened IStream
  import opened Stranded
  import opened ScalarDecoder
  import opened Defaults
  import Decoder

  /** The heap: which requests it grants, and the requests so far, in bytes. */
  class Heap {
    const plan: nat -> bool
    var requests: seq<nat>

    constructor (plan: nat -> bool)
      ensures this.plan == plan && requests == []
    {
      this.plan := plan;
      requests := [];
    }

    /** pb_realloc. */
    method Realloc(bytes: nat) returns (granted: bool)
      modifies this
      ensures granted == plan(|old(requests)|) && requests == old(requests) + [bytes]
    {
      granted := plan(|requests|);
      requests := requests + [bytes];
    }
  }

  /** From request number `at` on, all of these requests are granted. */
  predicate Granted(plan: nat -> bool, at: nat, wants: seq<nat>) {
    forall k | at <= k < at + |wants| :: plan(k)
  }

  /** The requests that are made of a list: those up to the first that is refused. */
  function Tried(plan: nat -> bool, at: nat, wants: seq<nat>): seq<nat>
    decreases |wants|
  {
    if wants == [] then []
    else [wants[0]] + if plan(at) then Tried(plan, at + 1, wants[1..]) else []
  }

  /** A repeated field of pointer type: the allocation, and how many of its elements are in use. */
  class PointerArray {
    var data: array<Value>
    var size: nat

    ghost predicate Valid()
      reads this
    {
      size <= data.Length && size <= PB_SIZE_MAX
    }

    ghost function Items(): (items: seq<Value>)
      requires Valid()
      reads this, data
      ensures |items| == size
    {
      data[..size]
    }

    constructor ()
      ensures Valid() && fresh(data) && Items() == []
    {
      data := new Value[0];
      size := 0;
    }
  }

  // ----- allocation

  lemma {:induction false} ProductMonotone(a: nat, b: nat, x: nat)
    requires a <= b
    ensures a * x <= b * x
  {
  }

  /** Dividing the largest size finds an overflow of the product. */
  lemma DivisionFindsOverflow(max: nat, n: nat, size: nat)
    requires n > 0
    ensures max / n < size <==> max < n * size
  {
    var q, r := max / n, max % n;
    assert max == n * q + r;
    if q < size {
      ProductMonotone(q + 1, size, n);
      assert (q + 1) * n == n * q + n;
    } else {
      ProductMonotone(size, q, n);
    }
  }

  /** Halves of a word do not overflow. */
  lemma HalvesDoNotOverflow(n: nat, size: nat)
    requires n < TWO32 && size < TWO32
    ensures n * size < TWO64
  {
    ProductMonotone(n, TWO32, size);
    ProductMonotone(size, TWO32, TWO32);
  }

  /** The check in allocate_field, which divides only if one factor has more than half of the bits. */
  method SizeTooLarge(dataSize: nat, arraySize: nat) returns (tooLarge: bool)
    requires 0 < dataSize < TWO64 && 0 < arraySize < TWO64
    ensures tooLarge <==> dataSize * arraySize >= TWO64
  {
    var checkLimit := 0x1_0000_0000;
    tooLarge := false;
    if dataSize >= checkLimit || arraySize >= checkLimit {
      var sizeMax := 0xFFFF_FFFF_FFFF_FFFF;
      DivisionFindsOverflow(sizeMax, arraySize, dataSize);
      tooLarge := sizeMax / arraySize < dataSize;
    } else {
      HalvesDoNotOverflow(dataSize, arraySize);
    }
  }

  /** The requests allocate_field makes; none for a size it refuses itself. */
  function Request(dataSize: nat, arraySize: nat): seq<nat> {
    if dataSize != 0 && arraySize != 0 && dataSize * arraySize < TWO64 then [dataSize * arraySize] else []
  }

  /** allocate_field: a failure leaves the old allocation alone. */
  method AllocateField(arr: PointerArray, dataSize: nat, arraySize: nat, heap: Heap) returns (ok: bool)
    requires arr.Valid() && dataSize < TWO64 && arr.size <= arraySize < TWO64
    modifies arr`data, heap
    ensures heap.requests == old(heap.requests) + Request(dataSize, arraySize)
    ensures ok == (Request(dataSize, arraySize) != [] && heap.plan(|old(heap.requests)|))
    ensures arr.Valid() && arr.Items() == old(arr.Items())
    ensures if ok then fresh(arr.data) && arr.data.Length == arraySize else arr.data == old(arr.data)
  {
    assert heap.requests + [] == heap.requests;
    if dataSize == 0 || arraySize == 0 {
      return false;
    }
    var tooLarge := SizeTooLarge(dataSize, arraySize);
    if tooLarge {
      return false;
    }
    ok := heap.Realloc(dataSize * arraySize);
    if ok {
      var contents := arr.data[..];
      arr.data := new Value[arraySize](i => if 0 <= i < |contents| then contents[i] else Num(0));
      assert arr.data[..arr.size] == contents[..arr.size];
    }
  }

  // ----- growth

  /** A guess at the number of elements the remaining bytes hold, rounded upwards. */
  function Remaining(bytesLeft: nat, dataSize: nat): (remain: nat)
    requires 0 < bytesLeft && 0 < dataSize
    ensures remain > 0
  {
    (bytesLeft - 1) / dataSize + 1
  }

  /** The number of elements to allocate when there are bytes left and `n` elements in use. */
  function Grown(dataSize: nat, n: nat, allocatedSize: nat, bytesLeft: nat): (size: nat)
    requires 0 < dataSize && 0 < bytesLeft && n <= allocatedSize <= PB_SIZE_MAX && n < PB_SIZE_MAX
    ensures n < size && allocatedSize <= size <= PB_SIZE_MAX
  {
    if n + 1 <= allocatedSize then allocatedSize
    else if Remaining(bytesLeft, dataSize) < PB_SIZE_MAX - allocatedSize
    then allocatedSize + Remaining(bytesLeft, dataSize)
    else allocatedSize + 1
  }

  /** What is requested to get room for one more element. */
  function Growth(dataSize: nat, n: nat, allocatedSize: nat, bytesLeft: nat): seq<nat>
    requires 0 < dataSize && 0 < bytesLeft && n <= allocatedSize <= PB_SIZE_MAX && n < PB_SIZE_MAX
  {
    if n + 1 <= allocatedSize then [] else [dataSize * Grown(dataSize, n, allocatedSize, bytesLeft)]
  }

  /** Room for one more element: if there is none, for as many as the rest of the input may hold. */
  method Grow(arr: PointerArray, dataSize: nat, allocatedSize: nat, bytesLeft: nat, heap: Heap)
    returns (ok: bool, allocatedSize': nat)
    requires arr.Valid() && 0 < dataSize <= PB_SIZE_MAX && 0 < bytesLeft
    requires arr.size < PB_SIZE_MAX && arr.size <= allocatedSize <= PB_SIZE_MAX && allocatedSize <= arr.data.Length
    modifies arr`data, heap
    ensures arr.Valid() && arr.Items() == old(arr.Items()) && (arr.data == old(arr.data) || fresh(arr.data))
    ensures allocatedSize' == Grown(dataSize, arr.size, allocatedSize, bytesLeft)
    ensures heap.requests == old(heap.requests) + Growth(dataSize, arr.size, allocatedSize, bytesLeft)
    ensures ok == Granted(heap.plan, |old(heap.requests)|, Growth(dataSize, arr.size, allocatedSize, bytesLeft))
    ensures ok ==> allocatedSize' <= arr.data.Length
  {
    ok, allocatedSize' := true, allocatedSize;
    if arr.size + 1 > allocatedSize {
      var remain := Remaining(bytesLeft, dataSize);
      if remain < PB_SIZE_MAX - allocatedSize {
        allocatedSize' := allocatedSize + remain;
      } else {
        allocatedSize' := allocatedSize + 1;
      }
      HalvesDoNotOverflow(dataSize, allocatedSize');
      ok := AllocateField(arr, dataSize, allocatedSize', heap);
    } else {
      assert heap.requests + [] == heap.requests;
    }
  }

  // ----- packed fields

  /**
   * How an element on the heap is decoded: there is room for any count the counter can hold, and strings and
   * bytes, which get allocations of their own, may have any length.
   */
  function OnHeap(f: Field): Field {
    f.(arraySize := PB_SIZE_MAX, atype := Static,
       dataSize := if f.ltype in {LBytes, LString} then 0x2_0000_0000 else f.dataSize)
  }

  /** The requests for a packed field, until its elements end or one is refused. */
  function Wants(f: Field, n: nat, allocatedSize: nat, s: seq<byte>): seq<nat>
    requires 0 < f.dataSize && n <= allocatedSize <= PB_SIZE_MAX
    decreases |s|
  {
    if s == [] || n == PB_SIZE_MAX then []
    else Growth(f.dataSize, n, allocatedSize, |s|)
         + match DecScalar(f, s)
           case Fail => []
           case Ok(_, rest) => Wants(f, n + 1, Grown(f.dataSize, n, allocatedSize, |s|), rest)
  }

  lemma TriedBoth(plan: nat -> bool, made: seq<nat>, first: seq<nat>, more: seq<nat>)
    requires |first| <= 1
    ensures made + Tried(plan, |made|, first + more)
         == made + first + if Granted(plan, |made|, first) then Tried(plan, |made + first|, more) else []
    ensures Granted(plan, |made|, first + more)
       <==> Granted(plan, |made|, first) && Granted(plan, |made + first|, more)
  {
    if first == [] {
      assert first + more == more && made + first == made;
    } else {
      assert (first + more)[1..] == more;
      var rest := if plan(|made|) then Tried(plan, |made| + 1, more) else [];
      assert Tried(plan, |made|, first + more) == first + rest;
      assert made + (first + rest) == made + first + rest;
    }
  }

  /** One element, written inside the allocation. */
  method DecodeItem(substream: IStream, f: Field, arr: PointerArray) returns (good: bool)
    requires substream.Valid() && substream.bytesLeft > 0 && Packable(f.ltype)
    requires arr.Valid() && arr.size < PB_SIZE_MAX && arr.size < arr.data.Length
    modifies substream, arr`size, arr.data
    ensures substream.Valid() && arr.Valid() && arr.data == old(arr.data)
    ensures substream.End() == old(substream.End())
    ensures good ==> substream.bytesLeft < old(substream.bytesLeft)
    ensures var r := DecScalar(f, old(substream.Avail()));
      && good == r.Ok?
      && arr.Items() == old(arr.Items()) + (if good then [r.value] else [])
      && (good ==> substream.Avail() == r.rest)
  {
    var v;
    good, v := DecScalarField(substream, f);
    assert |old(substream.Avail())| == old(substream.bytesLeft);
    if good {
      assert |substream.Avail()| == substream.bytesLeft;
      arr.data[arr.size] := v;
      arr.size := arr.size + 1;
      assert arr.Items() == old(arr.Items()) + [v];
    } else {
      assert arr.Items() + [] == arr.Items();
    }
  }

  /** When `requests` have been made, `now` are what is left of `wants`, which came after `made`. */
  ghost predicate Due(plan: nat -> bool, requests: seq<nat>, now: seq<nat>, made: seq<nat>, wants: seq<nat>) {
    && |made| <= |requests|
    && made + Tried(plan, |made|, wants) == requests + Tried(plan, |requests|, now)
    && (Granted(plan, |made|, wants) <==> Granted(plan, |requests|, now))
  }

  /** The requests of one trip through the loop, and the others. */
  lemma DueStep(plan: nat -> bool, requests: seq<nat>, first: seq<nat>, more: seq<nat>, made: seq<nat>, wants: seq<nat>)
    requires |first| <= 1 && Due(plan, requests, first + more, made, wants)
    ensures if Granted(plan, |requests|, first) then Due(plan, requests + first, more, made, wants)
            else made + Tried(plan, |made|, wants) == requests + first && !Granted(plan, |made|, wants)
  {
    TriedBoth(plan, requests, first, more);
  }

  /**
   * Where the loop over a packed field stands: what it has left to do comes to what there was to do at first,
   * `all` with the requests `wants`.
   */
  ghost predicate Underway(f: Field, items: seq<Value>, allocatedSize: nat, s: seq<byte>, plan: nat -> bool,
                           requests: seq<nat>, all: Option<(seq<Value>, nat)>, wants: seq<nat>, made: seq<nat>)
    requires 0 < f.dataSize && |items| <= allocatedSize <= PB_SIZE_MAX
  {
    && DecPacked(OnHeap(f), items, |items|, s) == all
    && Due(plan, requests, Wants(f, |items|, allocatedSize, s), made, wants)
  }

  /** It has failed: not all could be decoded, or the heap has refused a request. */
  ghost predicate Stuck(plan: nat -> bool, requests: seq<nat>,
                        all: Option<(seq<Value>, nat)>, wants: seq<nat>, made: seq<nat>) {
    && !(all.Some? && Granted(plan, |made|, wants))
    && requests == made + Tried(plan, |made|, wants)
  }

  /** The requests after those of one trip through the loop. */
  function MoreWants(f: Field, n: nat, allocatedSize: nat, s: seq<byte>): seq<nat>
    requires 0 < f.dataSize && n <= allocatedSize <= PB_SIZE_MAX && s != [] && n != PB_SIZE_MAX
  {
    match DecScalar(f, s)
    case Fail => []
    case Ok(_, rest) => Wants(f, n + 1, Grown(f.dataSize, n, allocatedSize, |s|), rest)
  }

  lemma SameScalar(f: Field, g: Field, s: seq<byte>)
    requires f.ltype == g.ltype && f.dataSize == g.dataSize
    ensures DecScalar(f, s) == DecScalar(g, s)
  {
  }

  lemma PackedStep(f: Field, items: seq<Value>, s: seq<byte>)
    requires Packable(f.ltype) && s != [] && |items| < PB_SIZE_MAX
    ensures var r := DecScalar(f, s);
      DecPacked(OnHeap(f), items, |items|, s)
      == if r.Ok? then DecPacked(OnHeap(f), items + [r.value], |items| + 1, r.rest) else None
  {
    var g := OnHeap(f);
    assert g.arraySize == PB_SIZE_MAX;
    SameScalar(f, g, s);
  }

  /** One trip through the loop. */
  lemma Trip(f: Field, items: seq<Value>, allocatedSize: nat, s: seq<byte>, plan: nat -> bool,
             requests: seq<nat>, all: Option<(seq<Value>, nat)>, wants: seq<nat>, made: seq<nat>)
    requires Packable(f.ltype) && 0 < f.dataSize && s != []
    requires |items| <= allocatedSize <= PB_SIZE_MAX && |items| < PB_SIZE_MAX
    requires Underway(f, items, allocatedSize, s, plan, requests, all, wants, made)
    ensures var first, r := Growth(f.dataSize, |items|, allocatedSize, |s|), DecScalar(f, s);
      if Granted(plan, |requests|, first) && r.Ok?
      then Underway(f, items + [r.value], Grown(f.dataSize, |items|, allocatedSize, |s|), r.rest, plan,
                    requests + first, all, wants, made)
      else Stuck(plan, requests + first, all, wants, made)
  {
    var first, more := Growth(f.dataSize, |items|, allocatedSize, |s|), MoreWants(f, |items|, allocatedSize, s);
    assert Wants(f, |items|, allocatedSize, s) == first + more;
    DueStep(plan, requests, first, more, made, wants);
    PackedStep(f, items, s);
    assert requests + first + [] == requests + first;
  }

  lemma TooMany(f: Field, items: seq<Value>, s: seq<byte>, plan: nat -> bool,
                requests: seq<nat>, all: Option<(seq<Value>, nat)>, wants: seq<nat>, made: seq<nat>)
    requires 0 < f.dataSize && s != [] && |items| == PB_SIZE_MAX
    requires Underway(f, items, |items|, s, plan, requests, all, wants, made)
    ensures Stuck(plan, requests, all, wants, made)
  {
    assert requests + [] == requests;
  }

  /** The body of the loop. */
  method DecodeNext(substream: IStream, f: Field, arr: PointerArray, allocatedSize: nat, heap: Heap,
                    ghost all: Option<(seq<Value>, nat)>, ghost wants: seq<nat>, ghost made: seq<nat>)
    returns (status: bool, allocatedSize': nat)
    requires Packable(f.ltype) && 0 < f.dataSize <= PB_SIZE_MAX
    requires substream.Valid() && substream.bytesLeft != 0 && arr.Valid()
    requires arr.size <= allocatedSize <= PB_SIZE_MAX && allocatedSize <= arr.data.Length
    requires Underway(f, arr.Items(), allocatedSize, substream.Avail(), heap.plan, heap.requests, all, wants, made)
    modifies substream, arr, arr.data, heap
    ensures substream.Valid() && substream.End() == old(substream.End()) && arr.Valid()
    ensures arr.data == old(arr.data) || fresh(arr.data)
    ensures old(arr.Items()) <= arr.Items()
    ensures if status then
        && substream.bytesLeft < old(substream.bytesLeft)
        && arr.size <= allocatedSize' <= PB_SIZE_MAX && allocatedSize' <= arr.data.Length
        && Underway(f, arr.Items(), allocatedSize', substream.Avail(), heap.plan, heap.requests, all, wants, made)
      else Stuck(heap.plan, heap.requests, all, wants, made)
  {
    ghost var s, items := substream.Avail(), arr.Items();
    assert |s| == substream.bytesLeft;
    allocatedSize' := allocatedSize;
    if arr.size == PB_SIZE_MAX {
      TooMany(f, items, s, heap.plan, heap.requests, all, wants, made);
      return false, allocatedSize';
    }
    Trip(f, items, allocatedSize, s, heap.plan, heap.requests, all, wants, made);
    status, allocatedSize' := Grow(arr, f.dataSize, allocatedSize, substream.bytesLeft, heap);
    if status {
      status := DecodeItem(substream, f, arr);
    }
  }

  /**
   * The loop over a packed field in decode_pointer_field. It succeeds exactly if the elements use up the
   * field and the heap grants every request, and it makes just the requests up to the first refusal. The
   * counter never exceeds the number of elements allocated, which never exceeds the largest count.
   */
  method DecodeItems(substream: IStream, f: Field, arr: PointerArray, heap: Heap) returns (status: bool)
    requires substream.Valid() && arr.Valid() && Packable(f.ltype) && 0 < f.dataSize <= PB_SIZE_MAX
    modifies substream, arr, arr.data, heap
    ensures substream.Valid() && substream.End() == old(substream.End()) && arr.Valid()
    ensures old(arr.Items()) <= arr.Items()
    ensures var r := DecPacked(OnHeap(f), old(arr.Items()), old(arr.size), old(substream.Avail()));
      var wants, at := Wants(f, old(arr.size), old(arr.size), old(substream.Avail())), |old(heap.requests)|;
      && status == (r.Some? && Granted(heap.plan, at, wants))
      && (status ==> r == Some((arr.Items(), arr.size)))
      && heap.requests == old(heap.requests) + Tried(heap.plan, at, wants)
  {
    ghost var all := DecPacked(OnHeap(f), arr.Items(), arr.size, substream.Avail());
    ghost var wants, made := Wants(f, arr.size, arr.size, substream.Avail()), heap.requests;
    status := true;
    var allocatedSize := arr.size;
    while substream.bytesLeft != 0
      invariant status && substream.End() == old(substream.End())
      invariant substream.Valid() && arr.Valid()
      invariant arr.size <= allocatedSize <= PB_SIZE_MAX && allocatedSize <= arr.data.Length
      invariant Underway(f, arr.Items(), allocatedSize, substream.Avail(), heap.plan, heap.requests, all, wants, made)
      invariant arr.data == old(arr.data) || fresh(arr.data)
      invariant old(arr.Items()) <= arr.Items()
      decreases substream.bytesLeft
    {
      status, allocatedSize := DecodeNext(substream, f, arr, allocatedSize, heap, all, wants, made);
      if !status {
        return;
      }
    }
    assert |substream.Avail()| == substream.bytesLeft;
    assert heap.requests + [] == heap.requests;
  }

  /**
   * A packed field in decode_pointer_field. Unlike the one in decode_static_field it is closed in any case,
   * so that the stream goes on after it.
   */
  method DecodePackedPointer(stream: IStream, f: Field, arr: PointerArray, heap: Heap) returns (ok: bool)
    requires stream.Valid() && arr.Valid() && Packable(f.ltype) && 0 < f.dataSize <= PB_SIZE_MAX
    modifies stream, arr, arr.data, heap
    ensures arr.Valid() && old(arr.Items()) <= arr.Items()
    ensures var s := Substream(old(stream.Avail()));
      if s.Fail? then !ok && stream.Valid() && stream.End() == old(stream.End()) && heap.requests == old(heap.requests)
      else
        var r := DecPacked(OnHeap(f), old(arr.Items()), old(arr.size), s.value);
        var wants, at := Wants(f, old(arr.size), old(arr.size), s.value), |old(heap.requests)|;
        && ok == (r.Some? && Granted(heap.plan, at, wants))
        && (ok ==> r == Some((arr.Items(), arr.size)))
        && heap.requests == old(heap.requests) + Tried(heap.plan, at, wants)
        && stream.Has(old(stream.End()), s.rest)
  {
    var substream;
    ok, substream := MakeStringSubstream(stream);
    if !ok {
      return;
    }
    var status := DecodeItems(substream, f, arr, heap);
    ok := CloseStringSubstream(stream, substream);
    ok := ok && status;
  }

  /** Fixed-width numbers take up as many bytes in the message as in the struct. */
  predicate FixedWidth(f: Field) {
    (f.ltype == LFixed32 && f.dataSize == 4) || (f.ltype == LFixed64 && f.dataSize == 8)
  }

  lemma {:induction false} RoomForAll(f: Field, n: nat, allocatedSize: nat, s: seq<byte>)
    requires FixedWidth(f) && n <= allocatedSize <= PB_SIZE_MAX
    requires s != [] ==> Remaining(|s|, f.dataSize) <= allocatedSize - n
    ensures Wants(f, n, allocatedSize, s) == []
    decreases |s|
  {
    if s != [] && |s| >= f.dataSize { RoomForAll(f, n + 1, allocatedSize, DecScalar(f, s).rest); }
  }

  /** The guess is right for them: a single request makes room for all elements. */
  lemma FixedWantsOnce(f: Field, n: nat, s: seq<byte>)
    requires FixedWidth(f) && s != [] && n + Remaining(|s|, f.dataSize) < PB_SIZE_MAX
    ensures Wants(f, n, n, s) == [f.dataSize * (n + Remaining(|s|, f.dataSize))]
  {
    var size := n + Remaining(|s|, f.dataSize);
    assert Grown(f.dataSize, n, n, |s|) == size;
    if |s| >= f.dataSize { RoomForAll(f, n + 1, size, DecScalar(f, s).rest); }
  }

  // ----- elements with tags of their own

  /** The allocation for bytes with their length, or for a string with its NUL, computed in 32 bits. */
  function BlobSize(f: Field, n: nat): nat {
    if f.ltype == LBytes then n + 4 else (n + 1) % 0x1_0000_0000
  }

  /** The request for the data of an element, besides its place in the array. */
  function OwnRequest(f: Field, s: seq<byte>): seq<nat> {
    if f.ltype !in {LBytes, LString} || DecScalar(OnHeap(f), s).Fail? then []
    else [BlobSize(f, Varint32(s).value)]
  }

  /** There is room for the bytes and their length, or for the string and its NUL. */
  lemma BlobHasRoom(f: Field, s: seq<byte>)
    requires f.ltype in {LBytes, LString} && DecScalar(OnHeap(f), s).Ok?
    ensures var read, left := |Varint32(s).rest|, |DecScalar(OnHeap(f), s).rest|;
      OwnRequest(f, s) == [read - left + if f.ltype == LBytes then 4 else 1]
  {
    BlobOnHeap(f, s);
  }

  lemma BlobOnHeap(f: Field, s: seq<byte>)
    requires f.ltype in {LBytes, LString}
    ensures var r := Varint32(s);
      DecScalar(OnHeap(f), s)
      == if r.Fail? || BlobSize(f, r.value) < r.value || |r.rest| < r.value then Fail
         else var bytes := r.rest[..r.value];
              Ok(Blob(if f.ltype == LBytes then bytes else UpToNul(bytes)), r.rest[r.value..])
  {
  }

  /** pb_dec_bytes and pb_dec_string for a field of pointer type. */
  method DecodeBlob(stream: IStream, f: Field, heap: Heap) returns (ok: bool, v: Value)
    requires stream.Valid() && f.ltype in {LBytes, LString}
    modifies stream, heap
    ensures stream.Valid() && stream.End() == old(stream.End())
    ensures var r, own := DecScalar(OnHeap(f), old(stream.Avail())), OwnRequest(f, old(stream.Avail()));
      && ok == (r.Ok? && Granted(heap.plan, |old(heap.requests)|, own))
      && (ok ==> v == r.value && Left(stream, old(stream.End()), r))
      && heap.requests == old(heap.requests) + own
  {
    v := Blob([]);
    BlobOnHeap(f, stream.Avail());
    assert heap.requests + [] == heap.requests;
    var size;
    ok, size := DecodeVarint32(stream);
    if !ok {
      return;
    }
    assert |stream.Avail()| == stream.bytesLeft;
    var allocSize := BlobSize(f, size);
    if size > allocSize || stream.bytesLeft < size {
      return false, v;
    }
    ok := heap.Realloc(allocSize);
    if !ok {
      return;
    }
    var bytes;
    ok, bytes := stream.Read(size);
    v := Blob(if f.ltype == LBytes then bytes else UpToNul(bytes));
  }

  /** The decoder of an element. */
  method DecodeElement(stream: IStream, f: Field, heap: Heap) returns (ok: bool, v: Value)
    requires stream.Valid() && ReadableField(OnHeap(f))
    modifies stream, heap
    ensures stream.Valid()
    ensures var r, own := DecValue(OnHeap(f), Num(0), old(stream.Avail())), OwnRequest(f, old(stream.Avail()));
      && ok == (r.Ok? && Granted(heap.plan, |old(heap.requests)|, own))
      && (ok ==> v == r.value && Left(stream, old(stream.End()), r))
      && heap.requests == old(heap.requests) + own
    ensures !ok ==> stream.End() == old(stream.End()) - |StrandedValue(OnHeap(f), Num(0), old(stream.Avail()))|
  {
    assert heap.requests + [] == heap.requests;
    if f.ltype in {LBytes, LString} {
      ok, v := DecodeBlob(stream, f, heap);
    } else {
      ok, v := Decoder.DecodeValue(stream, OnHeap(f), Num(0));
    }
  }

  /**
   * A separately tagged element in decode_pointer_field, of any type. The counter is advanced before the
   * element is decoded, so a bad element is counted as well.
   */
  method DecodeOnePointer(stream: IStream, f: Field, arr: PointerArray, heap: Heap) returns (ok: bool)
    requires stream.Valid() && arr.Valid() && f.htype == Repeated && ReadableField(OnHeap(f)) && f.dataSize <= PB_SIZE_MAX
    modifies stream, arr, arr.data, heap
    ensures arr.Valid() && stream.Valid()
    ensures var r, own := DecValue(OnHeap(f), Num(0), old(stream.Avail())), OwnRequest(f, old(stream.Avail()));
      var place := if old(arr.size) == PB_SIZE_MAX then [] else Request(f.dataSize, old(arr.size) + 1);
      var at := |old(heap.requests)|;
      if place == [] || !heap.plan(at) then
        && !ok && arr.Items() == old(arr.Items()) && heap.requests == old(heap.requests) + place
        && stream.Has(old(stream.End()), old(stream.Avail()))
      else
        && ok == (r.Ok? && Granted(heap.plan, at + 1, own))
        && arr.size == old(arr.size) + 1 && arr.Items()[..old(arr.size)] == old(arr.Items())
        && (ok ==> arr.Items()[old(arr.size)] == r.value && stream.Has(old(stream.End()), r.rest))
        && heap.requests == old(heap.requests) + place + own
        && (!ok ==> stream.End() == old(stream.End()) - |StrandedValue(OnHeap(f), Num(0), old(stream.Avail()))|)
  {
    if arr.size == PB_SIZE_MAX {
      assert heap.requests + [] == heap.requests;
      return false;
    }
    ok := AllocateField(arr, f.dataSize, arr.size + 1, heap);
    if !ok {
      return;
    }
    ghost var before := arr.Items();
    var v;
    ok, v := DecodeElement(stream, f, heap);
    arr.data[arr.size] := v;
    arr.size := arr.size + 1;
    assert arr.Items() == before + [v];
  }
}
