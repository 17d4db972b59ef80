/** Alamofire's MultipartFormData: body parts with their streams, encoded in memory or written to a stream. */
module Multipart {
  import opened Bits
  import opened Framing
  import opened MultipartSpec

  class BodyPart {
    const headers: seq<Header>
    /** The reads the body stream still has to offer. */
    var input: seq<Read>
    const bodyContentLength: nat
    var hasInitialBoundary: bool
    var hasFinalBoundary: bool

    ghost function Value(): PartState
      reads this
    {
      PartState(headers, input, bodyContentLength, hasInitialBoundary, hasFinalBoundary)
    }

    constructor (headers: seq<Header>, input: seq<Read>, bodyContentLength: nat)
      ensures Value() == PartState(headers, input, bodyContentLength, false, false)
    {
      this.headers := headers;
      this.input := input;
      this.bodyContentLength := bodyContentLength;
      hasInitialBoundary, hasFinalBoundary := false, false;
    }

    /** One read of the body stream: the bytes, or false if the stream breaks. */
    method ReadChunk() returns (bytes: seq<byte>, ok: bool)
      requires input != []
      modifies this`input
      ensures input == old(input)[1..]
      ensures ok == !old(input)[0].Broken?
      ensures bytes == if old(input)[0].Bytes? then old(input)[0].bytes else []
    {
      var r := input[0];
      input := input[1..];
      bytes := if r.Bytes? then r.bytes else [];
      ok := !r.Broken?;
    }
  }

  class OutputStream {
    const plan: nat -> Answer
    var attempt: nat
    var written: seq<byte>

    constructor (plan: nat -> Answer)
      ensures this.plan == plan && attempt == 0 && written == []
    {
      this.plan := plan;
      attempt := 0;
      written := [];
    }

    /** `r` has been written since there were `before` bytes, starting with the given attempt. */
    ghost predicate Wrote(before: seq<byte>, r: Pushed)
      reads this
    {
      written == before + r.written && attempt == r.attempt
    }
  }

  /** What has been written in all, when `r` is written after `done`. */
  ghost function After(done: seq<byte>, r: Pushed): Pushed {
    Pushed(done + r.written, r.attempt, r.ok)
  }

  lemma Concatenated(a: seq<byte>, b: seq<byte>, c: seq<byte>)
    ensures a + b + c == a + (b + c)
  {
  }

  lemma NothingAfter(done: seq<byte>, attempt: nat, ok: bool)
    ensures After(done, Pushed([], attempt, ok)) == Pushed(done, attempt, ok)
  {
  }

  lemma AfterNothing(r: Pushed)
    ensures After([], r) == r
  {
  }

  /** One trip through the loop of write(_:to:). */
  lemma PushStep(plan: nat -> Answer, attempt: nat, rest: seq<byte>, done: seq<byte>)
    requires rest != []
    ensures After(done, Push(plan, attempt, rest)) ==
      match plan(attempt)
      case NoSpace => Pushed(done, attempt + 1, true)
      case Fails => Pushed(done, attempt + 1, false)
      case Accepts(n) =>
        var m := if n + 1 <= |rest| then n + 1 else |rest|;
        After(done + rest[..m], Push(plan, attempt + 1, rest[m..]))
  {
  }

  /** write(_:to:), the loop over what is left of the buffer. */
  method Write(buffer: seq<byte>, output: OutputStream) returns (ok: bool)
    modifies output
    ensures ok == Push(output.plan, old(output.attempt), buffer).ok
    ensures output.Wrote(old(output.written), Push(output.plan, old(output.attempt), buffer))
  {
    ghost var start, done: seq<byte> := output.written, [];
    ghost var all := Push(output.plan, output.attempt, buffer);
    AfterNothing(all);
    var rest := buffer;
    while |rest| > 0
      invariant output.written == start + done
      invariant After(done, Push(output.plan, output.attempt, rest)) == all
      decreases |rest|
    {
      PushStep(output.plan, output.attempt, rest, done);
      var answer := output.plan(output.attempt);
      output.attempt := output.attempt + 1;
      if answer.NoSpace? {
        return true;
      }
      if answer.Fails? {
        return false;
      }
      var bytesWritten := if answer.n + 1 <= |rest| then answer.n + 1 else |rest|;
      Concatenated(start, done, rest[..bytesWritten]);
      output.written := output.written + rest[..bytesWritten];
      done := done + rest[..bytesWritten];
      rest := rest[bytesWritten..];
    }
    NothingAfter(done, output.attempt, true);
    ok := true;
  }

  class MultipartFormData {
    const boundary: seq<byte>
    var bodyParts: seq<BodyPart>
    var bodyPartError: bool

    /** The parts are different objects. */
    ghost predicate Valid()
      reads this
    {
      forall i, j | 0 <= i < j < |bodyParts| :: bodyParts[i] != bodyParts[j]
    }

    ghost function Parts(): (parts: seq<PartState>)
      reads this, bodyParts
      ensures |parts| == |bodyParts|
    {
      seq(|bodyParts|, k requires 0 <= k < |bodyParts| reads this, bodyParts => bodyParts[k].Value())
    }

    constructor (boundary: seq<byte>)
      ensures Valid() && this.boundary == boundary && bodyParts == [] && !bodyPartError
    {
      this.boundary := boundary;
      bodyParts := [];
      bodyPartError := false;
    }

    /** append(_:withLength:headers:). */
    method Append(input: seq<Read>, length: nat, headers: seq<Header>)
      requires Valid()
      modifies this
      ensures Valid() && bodyPartError == old(bodyPartError)
      ensures Parts() == old(Parts()) + [PartState(headers, input, length, false, false)]
      ensures |bodyParts| == |old(bodyParts)| + 1 && bodyParts[..|bodyParts| - 1] == old(bodyParts)
      ensures fresh(bodyParts[|bodyParts| - 1])
    {
      var part := new BodyPart(headers, input, length);
      bodyParts := bodyParts + [part];
    }

    /** The first and the last part are flagged. */
    method SetFlags()
      requires Valid()
      modifies bodyParts
      ensures Parts() == Flagged(old(Parts()))
    {
      if |bodyParts| > 0 {
        bodyParts[0].hasInitialBoundary := true;
        bodyParts[|bodyParts| - 1].hasFinalBoundary := true;
      }
    }
  }

  /** encodeBodyStream. */
  method EncodeBodyStream(part: BodyPart) returns (r: Outcome<seq<byte>>)
    modifies part`input
    ensures r == EncodeBody(old(part.Value())) && part.input == Unread(old(part.input))
    ensures r == if !Unbroken(old(part.input)) then Failed(ReadFailed)
                 else if |Body(old(part.input))| != part.bodyContentLength then Failed(UnexpectedLength)
                 else Done(Body(old(part.input)))
  {
    ReadsExactly(part.input);
    var encoded: seq<byte> := [];
    ghost var all := part.input;
    assert [] + Content(all) == Content(all);
    while part.input != []
      invariant Chunks(all).1 == Chunks(part.input).1
      invariant Content(all) == encoded + Content(part.input)
      invariant Unread(part.input) == Unread(all)
      decreases |part.input|
    {
      var bytes, ok := part.ReadChunk();
      if !ok {
        return Failed(ReadFailed);
      }
      if |bytes| == 0 {
        assert encoded + [] == encoded;
        assert Chunks(all).1 && Content(all) == encoded && part.input == Unread(all);
        break;
      }
      encoded := encoded + bytes;
    }
    assert encoded + [] == encoded;
    assert Chunks(all).1 && Content(all) == encoded && part.input == Unread(all);
    if |encoded| != part.bodyContentLength {
      return Failed(UnexpectedLength);
    }
    r := Done(encoded);
  }

  /** encode(_:) for one body part. */
  method EncodeBodyPart(boundary: seq<byte>, part: BodyPart) returns (r: Outcome<seq<byte>>)
    modifies part`input
    ensures r == EncodePart(boundary, old(part.Value())) && part.input == Unread(old(part.input))
  {
    var encoded := BoundaryData(if part.hasInitialBoundary then Initial else Encapsulated, boundary);
    encoded := encoded + EncodeHeaders(part.headers);
    var body := EncodeBodyStream(part);
    if body.Failed? {
      return body;
    }
    encoded := encoded + body.value;
    if part.hasFinalBoundary {
      encoded := encoded + BoundaryData(Final, boundary);
    } else {
      assert encoded + [] == encoded;
    }
    r := Done(encoded);
  }

  /** What is encoded in all, when `r` comes after `done`. */
  ghost function Prefixed(done: seq<byte>, r: Outcome<seq<byte>>): Outcome<seq<byte>> {
    if r.Done? then Done(done + r.value) else r
  }

  lemma PrefixedStep(boundary: seq<byte>, parts: seq<PartState>, k: nat, done: seq<byte>)
    requires k < |parts|
    ensures var first := EncodePart(boundary, parts[k]);
      Prefixed(done, EncodeParts(boundary, parts[k..]))
      == if first.Failed? then first else Prefixed(done + first.value, EncodeParts(boundary, parts[k + 1..]))
  {
    assert parts[k..][1..] == parts[k + 1..];
    var first, rest := EncodePart(boundary, parts[k]), EncodeParts(boundary, parts[k + 1..]);
    if first.Done? && rest.Done? {
      assert done + (first.value + rest.value) == done + first.value + rest.value;
    }
  }

  /** The parts from `k` on are as they were. */
  ghost predicate Untouched(bodyParts: seq<BodyPart>, parts: seq<PartState>, k: nat)
    reads bodyParts
  {
    |bodyParts| == |parts| && forall i | k <= i < |bodyParts| :: bodyParts[i].Value() == parts[i]
  }

  /** The first `n` parts have been read. */
  ghost predicate FirstRead(bodyParts: seq<BodyPart>, parts: seq<PartState>, n: nat)
    reads bodyParts
  {
    |bodyParts| == |parts| && forall i | 0 <= i < |bodyParts| :: bodyParts[i].Value() == if i < n then Used(parts[i]) else parts[i]
  }

  lemma StartedStep(parts: seq<PartState>, k: nat)
    requires k < |parts|
    ensures Started(parts[k..]) == 1 + if EncodeBody(parts[k]).Failed? then 0 else Started(parts[k + 1..])
  {
    assert parts[k..][1..] == parts[k + 1..];
  }

  /** One part of a form. */
  method EncodeNext(boundary: seq<byte>, bodyParts: seq<BodyPart>, k: nat, ghost parts: seq<PartState>)
    returns (r: Outcome<seq<byte>>)
    requires forall i, j | 0 <= i < j < |bodyParts| :: bodyParts[i] != bodyParts[j]
    requires k < |bodyParts| && FirstRead(bodyParts, parts, k)
    modifies bodyParts
    ensures |parts| == |bodyParts| && r == EncodePart(boundary, parts[k]) && FirstRead(bodyParts, parts, k + 1)
  {
    r := EncodeBodyPart(boundary, bodyParts[k]);
  }

  /** The loop of encode(). */
  method EncodeAll(boundary: seq<byte>, bodyParts: seq<BodyPart>, ghost parts: seq<PartState>)
    returns (r: Outcome<seq<byte>>)
    requires forall i, j | 0 <= i < j < |bodyParts| :: bodyParts[i] != bodyParts[j]
    requires FirstRead(bodyParts, parts, 0)
    modifies bodyParts
    ensures r == EncodeParts(boundary, parts) && FirstRead(bodyParts, parts, Started(parts))
  {
    var encoded: seq<byte> := [];
    var k := 0;
    assert parts[0..] == parts;
    assert Prefixed([], EncodeParts(boundary, parts)) == EncodeParts(boundary, parts) by {
      var whole := EncodeParts(boundary, parts);
      if whole.Done? { assert [] + whole.value == whole.value; }
    }
    while k < |bodyParts|
      invariant k <= |bodyParts| && FirstRead(bodyParts, parts, k) && Started(parts) == k + Started(parts[k..])
      invariant Prefixed(encoded, EncodeParts(boundary, parts[k..])) == EncodeParts(boundary, parts)
    {
      PrefixedStep(boundary, parts, k, encoded);
      StartedStep(parts, k);
      var encodedData := EncodeNext(boundary, bodyParts, k, parts);
      if encodedData.Failed? {
        return encodedData;
      }
      encoded := encoded + encodedData.value;
      k := k + 1;
    }
    assert encoded + [] == encoded;
    r := Done(encoded);
  }

  /** encode(). The flags stay set, and the streams have been read. */
  method Encode(form: MultipartFormData) returns (r: Outcome<seq<byte>>)
    requires form.Valid()
    modifies form.bodyParts
    ensures r == if form.bodyPartError then Failed(BodyPartInvalid)
                 else EncodeParts(form.boundary, Flagged(old(form.Parts())))
    ensures form.Parts() == if form.bodyPartError then old(form.Parts()) else AfterEncoding(Flagged(old(form.Parts())))
  {
    if form.bodyPartError {
      return Failed(BodyPartInvalid);
    }
    form.SetFlags();
    ghost var parts := form.Parts();
    r := EncodeAll(form.boundary, form.bodyParts, parts);
    assert form.Parts() == AfterEncoding(parts);
  }

  /**
   * A form with an empty part that is encoded, gets another part and is encoded again: the second encoding
   * succeeds as well, but has a final boundary between the parts.
   */
  method AppendAfterEncoding(boundary: seq<byte>, headers: seq<Header>, input: seq<Read>, length: nat, more: seq<Header>)
    returns (first: Outcome<seq<byte>>, second: Outcome<seq<byte>>)
    requires Sound(PartState(more, input, length, false, false))
    ensures first == Done(Form(boundary, [Part(headers, [])]))
    ensures second.Done? && second != Done(Form(boundary, [Part(headers, []), Part(more, Body(input))]))
  {
    EncodedThenAppended(boundary, headers, PartState(more, input, length, false, false));
    var form := new MultipartFormData(boundary);
    form.Append([], 0, headers);
    assert form.Parts() == [PartState(headers, [], 0, false, false)];
    first := Encode(form);
    form.Append(input, length, more);
    second := Encode(form);
  }

  // ----- writing to a stream

  lemma FirstPiece(plan: nat -> Answer, attempt: nat, piece: seq<byte>, rest: seq<seq<byte>>)
    ensures var first := Push(plan, attempt, piece);
      PushAll(plan, attempt, [piece] + rest)
      == if first.ok then After(first.written, PushAll(plan, first.attempt, rest)) else first
  {
  }

  /** One more chunk of a body stream. */
  lemma ChunkStep(plan: nat -> Answer, attempt: nat, input: seq<Read>, done: seq<byte>)
    requires input != [] && input[0].Bytes? && input[0].bytes != []
    ensures Chunks(input).1 == Chunks(input[1..]).1
    ensures var first := Push(plan, attempt, input[0].bytes);
      After(done, PushAll(plan, attempt, Chunks(input).0))
      == if first.ok then After(done + first.written, PushAll(plan, first.attempt, Chunks(input[1..]).0))
         else After(done, first)
  {
    var bytes, rest := input[0].bytes, Chunks(input[1..]).0;
    assert Chunks(input).0 == [bytes] + rest;
    FirstPiece(plan, attempt, bytes, rest);
    var first := Push(plan, attempt, bytes);
    if first.ok { Concatenated(done, first.written, PushAll(plan, first.attempt, rest).written); }
  }

  /** writeBodyStream: what has been read is written before more is read. */
  method WriteBodyStream(part: BodyPart, output: OutputStream) returns (ok: bool)
    modifies part`input, output
    ensures var c := Chunks(old(part.input)); var r := PushAll(output.plan, old(output.attempt), c.0);
      ok == (r.ok && c.1) && output.Wrote(old(output.written), r)
    ensures ok <==> Unbroken(old(part.input)) && Unfailing(output.plan, old(output.attempt), output.attempt)
  {
    ReadsExactly(part.input);
    PushAllExact(output.plan, output.attempt, Chunks(part.input).0);
    ghost var start, done: seq<byte> := output.written, [];
    ghost var all, sound := PushAll(output.plan, output.attempt, Chunks(part.input).0), Chunks(part.input).1;
    AfterNothing(all);
    while part.input != []
      invariant output.written == start + done
      invariant After(done, PushAll(output.plan, output.attempt, Chunks(part.input).0)) == all
      invariant Chunks(part.input).1 == sound
      decreases |part.input|
    {
      if part.input[0].Bytes? && part.input[0].bytes != [] {
        ChunkStep(output.plan, output.attempt, part.input, done);
      } else {
        NothingAfter(done, output.attempt, true);
      }
      var bytes;
      bytes, ok := part.ReadChunk();
      if !ok {
        return;
      }
      if |bytes| == 0 {
        return true;
      }
      ghost var r := Push(output.plan, output.attempt, bytes);
      ok := Write(bytes, output);
      Concatenated(start, done, r.written);
      if !ok {
        return;
      }
      done := done + r.written;
    }
    NothingAfter(done, output.attempt, true);
    ok := true;
  }

  /** write(_:to:) for two buffers, the boundary before a part and its headers. */
  method WriteHead(boundary: seq<byte>, part: BodyPart, output: OutputStream) returns (ok: bool)
    modifies output
    ensures var p := part.Value();
      var r := PushAll(output.plan, old(output.attempt), [LeadingBoundary(boundary, p), EncodeHeaders(p.headers)]);
      ok == r.ok && output.Wrote(old(output.written), r)
  {
    ghost var start, plan, attempt := output.written, output.plan, output.attempt;
    var initialData := BoundaryData(if part.hasInitialBoundary then Initial else Encapsulated, boundary);
    var headerData := EncodeHeaders(part.headers);
    ghost var first := Push(plan, attempt, initialData);
    ghost var second := Push(plan, first.attempt, headerData);
    FirstPiece(plan, attempt, initialData, [headerData]);
    FirstPiece(plan, first.attempt, headerData, []);
    NothingAfter(second.written, second.attempt, true);
    assert [initialData] + [headerData] == [initialData, headerData] && [headerData] + [] == [headerData];
    ok := Write(initialData, output);
    if !ok {
      return;
    }
    ok := Write(headerData, output);
    Concatenated(start, first.written, second.written);
  }

  /** Writing on after what has been written from `a`. */
  lemma WroteOn(start: seq<byte>, plan: nat -> Answer, attempt: nat, a: seq<seq<byte>>, b: seq<seq<byte>>)
    ensures var first := PushAll(plan, attempt, a); var all := PushAll(plan, attempt, a + b);
      && (!first.ok ==> all == first)
      && (first.ok ==>
            var second := PushAll(plan, first.attempt, b);
            && all.ok == second.ok && all.attempt == second.attempt
            && start + all.written == start + first.written + second.written)
  {
    PushAllBoth(plan, attempt, a, b);
    var first := PushAll(plan, attempt, a);
    if first.ok { Concatenated(start, first.written, PushAll(plan, first.attempt, b).written); }
  }

  /** The final boundary, if the part has it. */
  method WriteTail(boundary: seq<byte>, part: BodyPart, output: OutputStream) returns (ok: bool)
    modifies output
    ensures var last := if part.hasFinalBoundary then [BoundaryData(Final, boundary)] else [];
      var r := PushAll(output.plan, old(output.attempt), last);
      ok == r.ok && output.Wrote(old(output.written), r)
  {
    ok := true;
    if part.hasFinalBoundary {
      ghost var finalData := BoundaryData(Final, boundary);
      ghost var r := Push(output.plan, output.attempt, finalData);
      FirstPiece(output.plan, output.attempt, finalData, []);
      NothingAfter(r.written, r.attempt, true);
      assert [finalData] + [] == [finalData];
      ok := Write(BoundaryData(Final, boundary), output);
    } else {
      assert output.written + [] == output.written;
    }
  }

  /** write(_:to:) for a body part. */
  method WriteBodyPart(boundary: seq<byte>, part: BodyPart, output: OutputStream) returns (ok: bool)
    modifies part`input, output
    ensures var p := PartPieces(boundary, old(part.Value())); var r := PushAll(output.plan, old(output.attempt), p.0);
      ok == (r.ok && p.1) && output.Wrote(old(output.written), r)
  {
    ghost var start, plan, attempt, p := output.written, output.plan, output.attempt, part.Value();
    ghost var head, body := [LeadingBoundary(boundary, p), EncodeHeaders(p.headers)], Chunks(p.input).0;
    ghost var last := if p.final then [BoundaryData(Final, boundary)] else [];
    WroteOn(start, plan, attempt, head, body);
    WroteOn(start, plan, attempt, head + body, last);
    ok := WriteHead(boundary, part, output);
    if !ok {
      return;
    }
    ok := WriteBodyStream(part, output);
    if !ok {
      return;
    }
    ok := WriteTail(boundary, part, output);
  }

  /** The pieces of the parts from `k` on. */
  lemma NextPieces(boundary: seq<byte>, parts: seq<PartState>, k: nat)
    requires k < |parts|
    ensures var first := PartPieces(boundary, parts[k]); var rest := Pieces(boundary, parts[k + 1..]);
      Pieces(boundary, parts[k..]) == if first.1 then (first.0 + rest.0, rest.1) else first
  {
  }

  /** The pieces in `done` have been written, and those of the parts from `k` on come next. */
  ghost predicate Writing(output: OutputStream, start: seq<byte>, attempt: nat, boundary: seq<byte>,
                          parts: seq<PartState>, k: nat, done: seq<seq<byte>>)
    requires k <= |parts|
    reads output
  {
    && PushAll(output.plan, attempt, done).ok
    && output.Wrote(start, PushAll(output.plan, attempt, done))
    && Pieces(boundary, parts) == (done + Pieces(boundary, parts[k..]).0, Pieces(boundary, parts[k..]).1)
  }

  /** One part of a form. */
  method WriteNext(boundary: seq<byte>, part: BodyPart, output: OutputStream, ghost start: seq<byte>,
                   ghost attempt: nat, ghost parts: seq<PartState>, ghost k: nat, ghost done: seq<seq<byte>>)
    returns (ok: bool, ghost done': seq<seq<byte>>)
    requires k < |parts| && part.Value() == parts[k]
    requires Writing(output, start, attempt, boundary, parts, k, done)
    modifies part`input, output
    ensures ok ==> Writing(output, start, attempt, boundary, parts, k + 1, done')
    ensures !ok ==>
      var p := Pieces(boundary, parts); var r := PushAll(output.plan, attempt, p.0);
      !(r.ok && p.1) && output.Wrote(start, r)
  {
    ghost var p, rest := PartPieces(boundary, parts[k]), Pieces(boundary, parts[k + 1..]);
    NextPieces(boundary, parts, k);
    WroteOn(start, output.plan, attempt, done, p.0);
    WroteOn(start, output.plan, attempt, done + p.0, rest.0);
    assert done + (p.0 + rest.0) == done + p.0 + rest.0;
    done' := done + p.0;
    ok := WriteBodyPart(boundary, part, output);
  }

  /** The loop of writeEncodedData(to:). */
  method WriteAll(boundary: seq<byte>, bodyParts: seq<BodyPart>, output: OutputStream, ghost parts: seq<PartState>)
    returns (ok: bool)
    requires forall i, j | 0 <= i < j < |bodyParts| :: bodyParts[i] != bodyParts[j]
    requires Untouched(bodyParts, parts, 0)
    modifies bodyParts, output
    ensures var p := Pieces(boundary, parts); var r := PushAll(output.plan, old(output.attempt), p.0);
      ok == (r.ok && p.1) && output.Wrote(old(output.written), r)
  {
    ghost var start, attempt, done := output.written, output.attempt, [];
    var k := 0;
    assert parts[0..] == parts && start + [] == start && [] + Pieces(boundary, parts).0 == Pieces(boundary, parts).0;
    while k < |bodyParts|
      invariant k <= |bodyParts| && Untouched(bodyParts, parts, k)
      invariant Writing(output, start, attempt, boundary, parts, k, done)
    {
      ok, done := WriteNext(boundary, bodyParts[k], output, start, attempt, parts, k, done);
      if !ok {
        return;
      }
      k := k + 1;
    }
    assert done + [] == done;
    ok := true;
  }

  /** writeEncodedData(to:), to a file that can be created. */
  method WriteEncodedData(form: MultipartFormData, output: OutputStream) returns (ok: bool)
    requires form.Valid()
    modifies form.bodyParts, output
    ensures form.bodyPartError ==> !ok && output.written == old(output.written)
    ensures !form.bodyPartError ==>
      var p := Pieces(form.boundary, Flagged(old(form.Parts())));
      var r := PushAll(output.plan, old(output.attempt), p.0);
      ok == (r.ok && p.1) && output.Wrote(old(output.written), r)
  {
    if form.bodyPartError {
      return false;
    }
    form.SetFlags();
    ghost var parts := form.Parts();
    ok := WriteAll(form.boundary, form.bodyParts, output, parts);
  }
}
