/**
 * What encode() and writeEncodedData(to:) of Alamofire's MultipartFormData produce, for body streams that
 * hand out their bytes in any chunks and output streams that accept any number of bytes at a time.
 */
module MultipartSpec {
  import opened Bits
  import opened Framing

  datatype EncodingError = BodyPartInvalid | ReadFailed | UnexpectedLength | WriteFailed

  datatype Outcome<T> = Done(value: T) | Failed(error: EncodingError)

  /** One call of read on a body stream: some bytes, none, or an error. */
  datatype Read = Bytes(bytes: seq<byte>) | Nothing | Broken

  /** A body part: the reads its stream still has to offer, its announced length, its boundary flags. */
  datatype PartState = PartState(headers: seq<Header>, input: seq<Read>, length: nat, initial: bool, final: bool)

  // ----- reading

  /** The chunks read until the stream has nothing more; false if it breaks. */
  function Chunks(input: seq<Read>): (seq<seq<byte>>, bool) {
    if input == [] || input[0] == Nothing || input[0] == Bytes([]) then ([], true)
    else if input[0] == Broken then ([], false)
    else
      var rest := Chunks(input[1..]);
      ([input[0].bytes] + rest.0, rest.1)
  }

  function Flatten(pieces: seq<seq<byte>>): seq<byte> {
    if pieces == [] then [] else pieces[0] + Flatten(pieces[1..])
  }

  lemma {:induction false} FlattenBoth(a: seq<seq<byte>>, b: seq<seq<byte>>)
    ensures Flatten(a + b) == Flatten(a) + Flatten(b)
  {
    if a == [] {
      assert a + b == b;
    } else {
      assert (a + b)[1..] == a[1..] + b;
      FlattenBoth(a[1..], b);
    }
  }

  /** What a body stream contains. */
  function Content(input: seq<Read>): seq<byte> {
    Flatten(Chunks(input).0)
  }

  /** The reads a body stream still offers after it has been read up to its end or its error. */
  function Unread(input: seq<Read>): seq<Read> {
    if input == [] then []
    else if input[0].Bytes? && input[0] != Bytes([]) then Unread(input[1..])
    else input[1..]
  }

  /** A read that yields bytes. */
  predicate IsChunk(r: Read) {
    r.Bytes? && r.bytes != []
  }

  /** A read that finds the end of the stream. */
  predicate IsEnd(r: Read) {
    r == Nothing || r == Bytes([])
  }

  /** How many reads yield bytes before the first that does not. */
  function Leading(input: seq<Read>): (n: nat)
    ensures n <= |input| && (forall k | 0 <= k < n :: IsChunk(input[k])) && (n < |input| ==> !IsChunk(input[n]))
  {
    if input == [] || !IsChunk(input[0]) then 0 else 1 + Leading(input[1..])
  }

  function Joined(chunks: seq<Read>): seq<byte>
    requires forall k | 0 <= k < |chunks| :: IsChunk(chunks[k])
  {
    if chunks == [] then []
    else
      assert IsChunk(chunks[0]);
      chunks[0].bytes + Joined(chunks[1..])
  }

  /** The bytes a stream yields before its first read without any. */
  function Body(input: seq<Read>): seq<byte> {
    Joined(input[..Leading(input)])
  }

  /** No read fails before the end is found. */
  ghost predicate Unbroken(input: seq<Read>) {
    forall k | 0 <= k < |input| && input[k] == Broken :: exists j | 0 <= j < k :: IsEnd(input[j])
  }

  lemma UnbrokenStep(input: seq<Read>)
    requires input != []
    ensures IsEnd(input[0]) ==> Unbroken(input)
    ensures input[0] == Broken ==> !Unbroken(input)
    ensures IsChunk(input[0]) ==> (Unbroken(input) <==> Unbroken(input[1..]))
  {
    var rest := input[1..];
    if IsChunk(input[0]) && Unbroken(rest) {
      forall k | 0 <= k < |input| && input[k] == Broken ensures exists j | 0 <= j < k :: IsEnd(input[j]) {
        assert rest[k - 1] == Broken;
        var j :| 0 <= j < k - 1 && IsEnd(rest[j]);
        assert IsEnd(input[j + 1]);
      }
    }
    if IsChunk(input[0]) && Unbroken(input) {
      forall k | 0 <= k < |rest| && rest[k] == Broken ensures exists j | 0 <= j < k :: IsEnd(rest[j]) {
        assert input[k + 1] == Broken;
        var j :| 0 <= j < k + 1 && IsEnd(input[j]);
        assert IsEnd(rest[j - 1]);
      }
    }
  }

  /**
   * What is read of a stream: the bytes before its first read that yields none, without an error exactly if no
   * read fails before the end is found; and that read is the last.
   */
  lemma {:induction false} ReadsExactly(input: seq<Read>)
    ensures Chunks(input).1 <==> Unbroken(input)
    ensures Content(input) == Body(input)
    ensures Unread(input) == if Leading(input) == |input| then [] else input[Leading(input) + 1..]
    decreases |input|
  {
    if input != [] {
      UnbrokenStep(input);
      if IsChunk(input[0]) {
        var rest := input[1..];
        ReadsExactly(rest);
        assert input[..Leading(input)][1..] == rest[..Leading(rest)];
      }
    }
  }

  // ----- encode()

  function LeadingBoundary(boundary: seq<byte>, p: PartState): seq<byte> {
    BoundaryData(if p.initial then Initial else Encapsulated, boundary)
  }

  function TrailingBoundary(boundary: seq<byte>, p: PartState): seq<byte> {
    if p.final then BoundaryData(Final, boundary) else []
  }

  /** encodeBodyStream: the whole body, if its length is the announced one. */
  function EncodeBody(p: PartState): Outcome<seq<byte>> {
    if !Chunks(p.input).1 then Failed(ReadFailed)
    else if |Content(p.input)| != p.length then Failed(UnexpectedLength)
    else Done(Content(p.input))
  }

  function EncodePart(boundary: seq<byte>, p: PartState): Outcome<seq<byte>> {
    match EncodeBody(p)
    case Failed(e) => Failed(e)
    case Done(body) =>
      Done(LeadingBoundary(boundary, p) + EncodeHeaders(p.headers) + body + TrailingBoundary(boundary, p))
  }

  function EncodeParts(boundary: seq<byte>, parts: seq<PartState>): Outcome<seq<byte>> {
    if parts == [] then Done([])
    else match EncodePart(boundary, parts[0])
      case Failed(e) => Failed(e)
      case Done(first) =>
        match EncodeParts(boundary, parts[1..])
        case Failed(e) => Failed(e)
        case Done(rest) => Done(first + rest)
  }

  /** The number of parts encode() comes to: all of them, or those up to the first that is refused. */
  function Started(parts: seq<PartState>): (n: nat)
    ensures n <= |parts|
  {
    if parts == [] then 0
    else if EncodeBody(parts[0]).Failed? then 1
    else 1 + Started(parts[1..])
  }

  /** A part whose stream has been read. */
  function Used(p: PartState): PartState {
    p.(input := Unread(p.input))
  }

  /** The parts after encode(): their streams have been read. */
  function AfterEncoding(parts: seq<PartState>): seq<PartState> {
    seq(|parts|, k requires 0 <= k < |parts| => if k < Started(parts) then Used(parts[k]) else parts[k])
  }

  /** The first part gets the initial boundary and the last the final one; the flags are never taken back. */
  function Flagged(parts: seq<PartState>): (r: seq<PartState>)
    ensures |r| == |parts|
  {
    if parts == [] then []
    else
      var first := parts[0 := parts[0].(initial := true)];
      first[|parts| - 1 := first[|parts| - 1].(final := true)]
  }

  // ----- writeEncodedData(to:)

  /** One look at the output stream: it accepts up to `n + 1` bytes, has no space, or fails. */
  datatype Answer = Accepts(n: nat) | NoSpace | Fails

  /** What has been written, at which attempt the output stream is, and whether it has not failed. */
  datatype Pushed = Pushed(written: seq<byte>, attempt: nat, ok: bool)

  /** The loop of write(_:to:): the rest of the buffer is tried again, until there is no space. */
  function Push(plan: nat -> Answer, attempt: nat, buffer: seq<byte>): Pushed
    decreases |buffer|
  {
    if buffer == [] then Pushed([], attempt, true)
    else match plan(attempt)
      case NoSpace => Pushed([], attempt + 1, true)
      case Fails => Pushed([], attempt + 1, false)
      case Accepts(n) =>
        var m := if n + 1 <= |buffer| then n + 1 else |buffer|;
        var rest := Push(plan, attempt + 1, buffer[m..]);
        Pushed(buffer[..m] + rest.written, rest.attempt, rest.ok)
  }

  /** Buffers written one after another, up to a failure. */
  function PushAll(plan: nat -> Answer, attempt: nat, pieces: seq<seq<byte>>): Pushed
    decreases |pieces|
  {
    if pieces == [] then Pushed([], attempt, true)
    else
      var first := Push(plan, attempt, pieces[0]);
      if !first.ok then first
      else
        var rest := PushAll(plan, first.attempt, pieces[1..]);
        Pushed(first.written + rest.written, rest.attempt, rest.ok)
  }

  /** The buffers a part is written from; false if its stream breaks after them. */
  function PartPieces(boundary: seq<byte>, p: PartState): (seq<seq<byte>>, bool) {
    var c := Chunks(p.input);
    var before := [LeadingBoundary(boundary, p), EncodeHeaders(p.headers)] + c.0;
    if !c.1 then (before, false)
    else (before + (if p.final then [BoundaryData(Final, boundary)] else []), true)
  }

  function Pieces(boundary: seq<byte>, parts: seq<PartState>): (seq<seq<byte>>, bool) {
    if parts == [] then ([], true)
    else
      var first := PartPieces(boundary, parts[0]);
      if !first.1 then first
      else
        var rest := Pieces(boundary, parts[1..]);
        (first.0 + rest.0, rest.1)
  }

  lemma {:induction false} PushAllBoth(plan: nat -> Answer, attempt: nat, a: seq<seq<byte>>, b: seq<seq<byte>>)
    ensures var first := PushAll(plan, attempt, a);
      PushAll(plan, attempt, a + b)
      == if !first.ok then first
         else var rest := PushAll(plan, first.attempt, b); Pushed(first.written + rest.written, rest.attempt, rest.ok)
    decreases |a|
  {
    if a == [] {
      assert a + b == b;
    } else {
      assert (a + b)[1..] == a[1..] + b;
      PushAllBoth(plan, Push(plan, attempt, a[0]).attempt, a[1..], b);
    }
  }

  // ----- output streams

  /** From one attempt up to another, the output stream accepts bytes. */
  ghost predicate Accepting(plan: nat -> Answer, from: nat, to: nat) {
    forall k: nat | from <= k < to :: plan(k).Accepts?
  }

  /** From one attempt up to another, the output stream does not fail. */
  ghost predicate Unfailing(plan: nat -> Answer, from: nat, to: nat) {
    forall k: nat | from <= k < to :: !plan(k).Fails?
  }

  /**
   * Writing a buffer succeeds exactly if the output stream did not fail whenever it was looked at. The buffer
   * arrives whole exactly if the stream then accepted bytes, and otherwise in part.
   */
  lemma {:induction false} PushExact(plan: nat -> Answer, attempt: nat, buffer: seq<byte>)
    ensures var r := Push(plan, attempt, buffer);
      && r.attempt >= attempt && |r.written| <= |buffer| && r.written == buffer[..|r.written|]
      && (r.ok && r.written == buffer <==> Accepting(plan, attempt, r.attempt))
      && (r.ok <==> Unfailing(plan, attempt, r.attempt))
      && (|r.written| == |buffer| ==> r.ok)
    decreases |buffer|
  {
    if buffer != [] {
      if plan(attempt).Accepts? {
        var n := plan(attempt).n;
        var m := if n + 1 <= |buffer| then n + 1 else |buffer|;
        PushExact(plan, attempt + 1, buffer[m..]);
        assert buffer == buffer[..m] + buffer[m..];
      }
    }
  }

  lemma {:induction false} PushAllExact(plan: nat -> Answer, attempt: nat, pieces: seq<seq<byte>>)
    ensures var r := PushAll(plan, attempt, pieces);
      && r.attempt >= attempt && |r.written| <= |Flatten(pieces)|
      && (r.ok && r.written == Flatten(pieces) <==> Accepting(plan, attempt, r.attempt))
      && (r.ok <==> Unfailing(plan, attempt, r.attempt))
    decreases |pieces|
  {
    if pieces != [] {
      PushExact(plan, attempt, pieces[0]);
      var first := Push(plan, attempt, pieces[0]);
      if first.ok {
        PushAllExact(plan, first.attempt, pieces[1..]);
        var rest := PushAll(plan, first.attempt, pieces[1..]);
        SameParts(first.written, rest.written, pieces[0], Flatten(pieces[1..]));
      }
    }
  }

  lemma SameParts(a: seq<byte>, b: seq<byte>, c: seq<byte>, d: seq<byte>)
    requires |a| <= |c| && |b| <= |d|
    ensures a + b == c + d <==> a == c && b == d
  {
    if a + b == c + d {
      assert |a| == |c|;
      assert (a + b)[..|a|] == a && (c + d)[..|c|] == c;
      assert (a + b)[|a|..] == b && (c + d)[|c|..] == d;
    }
  }

  // ----- forms

  function PartOf(p: PartState): Part {
    Part(p.headers, Body(p.input))
  }

  function PartsOf(parts: seq<PartState>): (r: seq<Part>)
    ensures |r| == |parts|
  {
    seq(|parts|, k requires 0 <= k < |parts| => PartOf(parts[k]))
  }

  /** The stream of the part does not break, and is as long as was announced. */
  ghost predicate Sound(p: PartState) {
    Unbroken(p.input) && |Body(p.input)| == p.length
  }

  ghost predicate AllSound(parts: seq<PartState>) {
    forall k | 0 <= k < |parts| :: Sound(parts[k])
  }

  /** The parts one after another, each with the boundaries its flags ask for. */
  function Join(boundary: seq<byte>, parts: seq<PartState>): seq<byte> {
    if parts == [] then []
    else LeadingBoundary(boundary, parts[0]) + Contents(PartOf(parts[0])) + TrailingBoundary(boundary, parts[0])
         + Join(boundary, parts[1..])
  }

  lemma {:induction false} EncodeIsJoin(boundary: seq<byte>, parts: seq<PartState>)
    requires AllSound(parts)
    ensures EncodeParts(boundary, parts) == Done(Join(boundary, parts))
    decreases |parts|
  {
    if parts != [] {
      assert Sound(parts[0]);
      assert AllSound(parts[1..]) by { assert forall k | 0 <= k < |parts[1..]| :: parts[1..][k] == parts[k + 1]; }
      EncodeIsJoin(boundary, parts[1..]);
      var p := parts[0];
      ReadsExactly(p.input);
      Regroup(LeadingBoundary(boundary, p), EncodeHeaders(p.headers), Body(p.input), TrailingBoundary(boundary, p));
    }
  }

  lemma Regroup(a: seq<byte>, b: seq<byte>, c: seq<byte>, d: seq<byte>)
    ensures a + b + c + d == a + (b + c) + d
  {
  }

  /** The flags of a form that nothing has been appended to since its parts were flagged. */
  ghost predicate InnerUnflagged(parts: seq<PartState>) {
    forall k | 0 <= k < |parts| - 1 :: !parts[k].final
  }

  ghost predicate NoInitial(parts: seq<PartState>) {
    forall k | 0 <= k < |parts| :: !parts[k].initial
  }

  lemma TailOfParts(parts: seq<PartState>)
    requires parts != []
    ensures PartsOf(parts)[0] == PartOf(parts[0]) && PartsOf(parts)[1..] == PartsOf(parts[1..])
    ensures NoInitial(parts) ==> NoInitial(parts[1..])
    ensures |parts| > 1 ==> (InnerUnflagged(parts) <==> !parts[0].final && InnerUnflagged(parts[1..]))
  {
    var rest := parts[1..];
    assert forall k | 0 <= k < |rest| :: rest[k] == parts[k + 1];
    if |parts| > 1 && !parts[0].final && InnerUnflagged(rest) {
      forall k | 0 <= k < |parts| - 1 ensures !parts[k].final {
        if k > 0 { assert parts[k] == rest[k - 1]; }
      }
    }
  }

  /** The parts after the first boundary. A part that was the last one before adds a final boundary of its own. */
  lemma {:induction false} JoinFollowing(boundary: seq<byte>, parts: seq<PartState>)
    requires parts != [] && NoInitial(parts) && parts[|parts| - 1].final
    ensures |Join(boundary, parts)| >= |Following(boundary, PartsOf(parts))|
    ensures InnerUnflagged(parts) ==> Join(boundary, parts) == Following(boundary, PartsOf(parts))
    ensures !InnerUnflagged(parts) ==> |Join(boundary, parts)| > |Following(boundary, PartsOf(parts))|
    decreases |parts|
  {
    TailOfParts(parts);
    if |parts| == 1 {
      assert PartsOf(parts[1..]) == [];
      assert Join(boundary, parts[1..]) == [];
    } else {
      JoinFollowing(boundary, parts[1..]);
    }
  }

  lemma FlagsSet(parts: seq<PartState>)
    requires parts != []
    ensures PartsOf(Flagged(parts)) == PartsOf(parts)
    ensures AllSound(parts) ==> AllSound(Flagged(parts))
    ensures InnerUnflagged(Flagged(parts)) <==> InnerUnflagged(parts)
    ensures NoInitial(parts[1..]) ==> NoInitial(Flagged(parts)[1..])
    ensures Flagged(parts)[0].initial && Flagged(parts)[|parts| - 1].final
  {
    var flagged := Flagged(parts);
    assert PartsOf(flagged) == PartsOf(parts);
    if AllSound(parts) {
      forall k | 0 <= k < |flagged| ensures Sound(flagged[k]) {
        assert Sound(parts[k]);
      }
    }
    assert forall k | 0 <= k < |parts| - 1 :: flagged[k].final == parts[k].final;
    assert forall k | 0 < k < |parts| :: flagged[k].initial == parts[k].initial;
    if NoInitial(parts[1..]) {
      forall k | 0 <= k < |flagged[1..]| ensures !flagged[1..][k].initial {
        assert flagged[1..][k] == flagged[k + 1] && parts[1..][k] == parts[k + 1];
      }
    }
  }

  /** The first part, and the others after it. */
  lemma JoinFirst(boundary: seq<byte>, parts: seq<PartState>)
    requires |parts| > 1 && parts[0].initial && NoInitial(parts[1..]) && parts[|parts| - 1].final
    ensures Join(boundary, parts) == Form(boundary, PartsOf(parts)) <==> InnerUnflagged(parts)
  {
    TailOfParts(parts);
    JoinFollowing(boundary, parts[1..]);
    var head, trail := BoundaryData(Initial, boundary) + Contents(PartOf(parts[0])), TrailingBoundary(boundary, parts[0]);
    if !parts[0].final {
      assert head + trail == head;
      if InnerUnflagged(parts[1..]) {
      } else {
        assert |Join(boundary, parts)| > |Form(boundary, PartsOf(parts))|;
      }
    } else {
      assert |Join(boundary, parts)| > |Form(boundary, PartsOf(parts))|;
    }
  }

  /**
   * Encoding gives the form of the parts exactly if no part but the last was flagged as the last one before:
   * after an encoding, nothing may be appended.
   */
  lemma EncodeExact(boundary: seq<byte>, parts: seq<PartState>)
    requires parts != [] && AllSound(parts) && NoInitial(parts[1..])
    ensures EncodeParts(boundary, Flagged(parts)) == Done(Form(boundary, PartsOf(parts))) <==> InnerUnflagged(parts)
  {
    FlagsSet(parts);
    EncodeIsJoin(boundary, Flagged(parts));
    if |parts| == 1 {
      assert Join(boundary, Flagged(parts)[1..]) == [];
      assert Form(boundary, PartsOf(parts)) + [] == Form(boundary, PartsOf(parts));
      assert PartsOf(parts)[1..] == [];
    } else {
      JoinFirst(boundary, Flagged(parts));
    }
  }

  /** A form that has not been encoded before. */
  ghost predicate Fresh(parts: seq<PartState>) {
    forall k | 0 <= k < |parts| :: !parts[k].initial && !parts[k].final
  }

  /** The first encoding of a form gives its framing, however the streams are cut into chunks. */
  lemma FreshForm(boundary: seq<byte>, parts: seq<PartState>)
    requires Fresh(parts) && AllSound(parts)
    ensures EncodeParts(boundary, Flagged(parts)) == Done(Form(boundary, PartsOf(parts)))
  {
    if parts != [] { EncodeExact(boundary, parts); }
  }

  /** A part with an empty body that has been encoded is flagged as the last one, and can be encoded again. */
  lemma EncodedThenAppended(boundary: seq<byte>, headers: seq<Header>, p: PartState)
    requires Sound(p) && !p.initial
    ensures var one := Flagged([PartState(headers, [], 0, false, false)]);
      && EncodeParts(boundary, one) == Done(Form(boundary, [Part(headers, [])]))
      && EncodeParts(boundary, Flagged(AfterEncoding(one) + [p])).Done?
      && EncodeParts(boundary, Flagged(AfterEncoding(one) + [p]))
         != Done(Form(boundary, [Part(headers, []), PartOf(p)]))
  {
    var empty, was := PartState(headers, [], 0, false, false), PartState(headers, [], 0, true, true);
    FreshForm(boundary, [empty]);
    assert PartsOf([empty]) == [Part(headers, [])];
    assert AfterEncoding(Flagged([empty])) == [was];
    var two := [was, p];
    assert [was] + [p] == two && two[0].final;
    assert PartsOf(two) == [Part(headers, []), PartOf(p)];
    FlagsSet(two);
    EncodesSound(boundary, Flagged(two));
    EncodeExact(boundary, two);
  }

  // ----- files

  ghost predicate NoneBroken(parts: seq<PartState>) {
    forall k | 0 <= k < |parts| :: Unbroken(parts[k].input)
  }

  lemma FlattenOne(a: seq<byte>)
    ensures Flatten([a]) == a
  {
  }

  lemma FlattenTwo(a: seq<byte>, b: seq<byte>)
    ensures Flatten([a, b]) == a + b && Flatten([a]) == a
  {
    FlattenOne(a);
    FlattenOne(b);
    assert [a, b][1..] == [b];
  }

  lemma PartPiecesJoin(boundary: seq<byte>, p: PartState)
    requires Unbroken(p.input)
    ensures PartPieces(boundary, p).1
    ensures Flatten(PartPieces(boundary, p).0)
         == LeadingBoundary(boundary, p) + Contents(PartOf(p)) + TrailingBoundary(boundary, p)
  {
    var a, h, c := LeadingBoundary(boundary, p), EncodeHeaders(p.headers), Chunks(p.input).0;
    var last := if p.final then [BoundaryData(Final, boundary)] else [];
    ReadsExactly(p.input);
    FlattenTwo(a, h);
    FlattenTwo(BoundaryData(Final, boundary), []);
    FlattenBoth([a, h], c);
    FlattenBoth([a, h] + c, last);
    assert Flatten(last) == TrailingBoundary(boundary, p);
    Regroup(a, h, Body(p.input), TrailingBoundary(boundary, p));
  }

  /** The pieces that are written make up what encode() returns. */
  lemma {:induction false} PiecesJoin(boundary: seq<byte>, parts: seq<PartState>)
    requires NoneBroken(parts)
    ensures Pieces(boundary, parts).1 && Flatten(Pieces(boundary, parts).0) == Join(boundary, parts)
    decreases |parts|
  {
    if parts != [] {
      assert NoneBroken(parts[1..]) by { assert forall k | 0 <= k < |parts[1..]| :: parts[1..][k] == parts[k + 1]; }
      PiecesJoin(boundary, parts[1..]);
      PartPiecesJoin(boundary, parts[0]);
      FlattenBoth(PartPieces(boundary, parts[0]).0, Pieces(boundary, parts[1..]).0);
    }
  }

  lemma {:induction false} PiecesEnd(boundary: seq<byte>, parts: seq<PartState>)
    ensures Pieces(boundary, parts).1 <==> NoneBroken(parts)
    decreases |parts|
  {
    if parts != [] {
      PiecesEnd(boundary, parts[1..]);
      ReadsExactly(parts[0].input);
      assert NoneBroken(parts) <==> Unbroken(parts[0].input) && NoneBroken(parts[1..]) by {
        assert forall k | 0 <= k < |parts[1..]| :: parts[1..][k] == parts[k + 1];
      }
    }
  }

  /** encode() accepts exactly the forms whose streams are all sound. */
  lemma {:induction false} EncodesSound(boundary: seq<byte>, parts: seq<PartState>)
    ensures EncodeParts(boundary, parts).Done? <==> AllSound(parts)
    decreases |parts|
  {
    if parts != [] {
      EncodesSound(boundary, parts[1..]);
      ReadsExactly(parts[0].input);
      assert AllSound(parts) <==> Sound(parts[0]) && AllSound(parts[1..]) by {
        assert forall k | 0 <= k < |parts[1..]| :: parts[1..][k] == parts[k + 1];
      }
    }
  }

  /** It fails with the error of the first part that is not sound. */
  lemma {:induction false} FirstError(boundary: seq<byte>, parts: seq<PartState>, k: nat)
    requires k < |parts| && !Sound(parts[k]) && forall j | 0 <= j < k :: Sound(parts[j])
    ensures EncodeParts(boundary, parts)
         == Failed(if Unbroken(parts[k].input) then UnexpectedLength else ReadFailed)
    decreases |parts|
  {
    ReadsExactly(parts[0].input);
    if k > 0 {
      assert Sound(parts[0]);
      var rest := parts[1..];
      assert forall j | 0 <= j < k - 1 :: rest[j] == parts[j + 1];
      assert rest[k - 1] == parts[k];
      FirstError(boundary, rest, k - 1);
    }
  }

  lemma SoundIsUnbroken(parts: seq<PartState>)
    requires AllSound(parts)
    ensures NoneBroken(parts)
  {
    forall k | 0 <= k < |parts| ensures Unbroken(parts[k].input) {
      assert Sound(parts[k]);
    }
  }

  /**
   * writeEncodedData(to:) succeeds with the bytes that encode() returns, for any chunks read and any number
   * of bytes accepted at a time, exactly if every body stream is sound and the output stream has space
   * whenever it is looked at.
   */
  lemma FileExact(boundary: seq<byte>, parts: seq<PartState>, plan: nat -> Answer)
    ensures var p := Pieces(boundary, parts); var r := PushAll(plan, 0, p.0);
      p.1 && r.ok && EncodeParts(boundary, parts) == Done(r.written)
      <==> AllSound(parts) && Accepting(plan, 0, r.attempt)
  {
    EncodesSound(boundary, parts);
    if AllSound(parts) {
      SoundIsUnbroken(parts);
      PiecesJoin(boundary, parts);
      EncodeIsJoin(boundary, parts);
      PushAllExact(plan, 0, Pieces(boundary, parts).0);
    }
  }

  /**
   * With an output stream that always has space, writing fails exactly if a body stream breaks. A body of
   * another length than announced, which encode() refuses, is written without an error.
   */
  lemma FileWithSpace(boundary: seq<byte>, parts: seq<PartState>, plan: nat -> Answer)
    requires forall k :: plan(k).Accepts?
    ensures var p := Pieces(boundary, parts); var r := PushAll(plan, 0, p.0);
      && (p.1 && r.ok <==> NoneBroken(parts))
      && (NoneBroken(parts) ==> r.written == Join(boundary, parts))
      && (EncodeParts(boundary, parts) == Done(r.written) <==> AllSound(parts))
  {
    PiecesEnd(boundary, parts);
    EncodesSound(boundary, parts);
    if AllSound(parts) {
      SoundIsUnbroken(parts);
      EncodeIsJoin(boundary, parts);
    }
    if NoneBroken(parts) { PiecesJoin(boundary, parts); }
    PushAllExact(plan, 0, Pieces(boundary, parts).0);
  }

  /** Writing succeeds exactly if no body stream breaks and the output stream does not fail when it is looked at. */
  lemma WritesExactly(boundary: seq<byte>, parts: seq<PartState>, plan: nat -> Answer)
    ensures var p := Pieces(boundary, parts); var r := PushAll(plan, 0, p.0);
      p.1 && r.ok <==> NoneBroken(parts) && Unfailing(plan, 0, r.attempt)
  {
    PiecesEnd(boundary, parts);
    PushAllExact(plan, 0, Pieces(boundary, parts).0);
  }

  /** An output stream without space at first: the initial boundary is missing, and there is no error. */
  lemma SilentTruncation(boundary: seq<byte>, p: PartState, plan: nat -> Answer)
    requires Unbroken(p.input) && plan(0) == NoSpace && forall k: nat | k > 0 :: plan(k).Accepts?
    ensures var r := PushAll(plan, 0, PartPieces(boundary, p).0);
      r.ok && LeadingBoundary(boundary, p) + r.written == Flatten(PartPieces(boundary, p).0) && |r.written| < |Flatten(PartPieces(boundary, p).0)|
  {
    var pieces := PartPieces(boundary, p).0;
    assert pieces[0] == LeadingBoundary(boundary, p);
    assert Push(plan, 0, pieces[0]) == Pushed([], 1, true);
    PushAllExact(plan, 1, pieces[1..]);
    assert [] + Flatten(pieces[1..]) == Flatten(pieces[1..]);
  }
}
