/** Length-delimited messages, one after another on a stream. */
module Delimited {
  import opened Bits
  import opened Varint
  import opened Descriptor
  import opened EncodeSpec
  import opened DecodeSpec
  import opened Stranded
  import opened RoundTrip

  /**
   * An accepted delimited message takes up exactly its length prefix and its body: wherever decoding the body
   * ends, the stream goes on after it. After a refused one it does so exactly if nothing was left stranded.
   */
  lemma BodyIsSkipped(fs: seq<Field>, body: seq<byte>, rest: seq<byte>)
    requires |body| < TWO32
    ensures Substream(Delimit(body) + rest).Ok?
    ensures DecodeDelimited(fs, Delimit(body) + rest)
         == if Decode(fs, body).Ok? then Ok(Decode(fs, body).value, rest) else Fail
    ensures Moves(fs, Delimit(body) + rest) == |Delimit(body)|
        <==> Decode(fs, body).Ok? || StrandedMessage(fs, DefaultSlots(fs), body) == []
  {
    DelimitReads(body, rest);
    if Decode(fs, body).Ok? { AcceptedStrandsNothing(fs, Start(DefaultSlots(fs)), body); }
  }

  /** The delimited encodings of several messages. */
  function EncodeAll(fs: seq<Field>, messages: seq<seq<Slot>>): Option<seq<byte>> {
    if messages == [] then Some([])
    else Append(EncodeDelimited(fs, messages[0]), EncodeAll(fs, messages[1..]))
  }

  /** `n` delimited messages in a row. */
  function DecodeAll(fs: seq<Field>, n: nat, s: seq<byte>): Parse<seq<seq<Slot>>> {
    if n == 0 then Ok([], s)
    else match DecodeDelimited(fs, s)
      case Fail => Fail
      case Ok(m, rest) =>
        match DecodeAll(fs, n - 1, rest)
        case Fail => Fail
        case Ok(ms, rest') => Ok([m] + ms, rest')
  }

  /** Message by message the same, as far as can be observed. */
  ghost predicate SameMessages(fs: seq<Field>, a: seq<seq<Slot>>, b: seq<seq<Slot>>) {
    |a| == |b| && forall k | 0 <= k < |a| :: SameSlots(fs, a[k], b[k])
  }

  lemma ConsSame(fs: seq<Field>, m: seq<Slot>, first: seq<Slot>, ms: seq<seq<Slot>>, others: seq<seq<Slot>>)
    requires SameSlots(fs, m, first) && SameMessages(fs, ms, others)
    ensures SameMessages(fs, [m] + ms, [first] + others)
  {
  }

  /** A message within its bounds that is not too long for a length prefix. */
  ghost predicate Sendable(fs: seq<Field>, m: seq<Slot>) {
    WfSlots(fs, m) && Encode(fs, m).Some? && |Encode(fs, m).value| < TWO32
  }

  ghost predicate AllSendable(fs: seq<Field>, messages: seq<seq<Slot>>) {
    forall k | 0 <= k < |messages| :: Sendable(fs, messages[k])
  }

  /** One message and the rest of the stream. */
  lemma FirstOfAll(fs: seq<Field>, messages: seq<seq<Slot>>, rest: seq<byte>)
    requires messages != [] && Encode(fs, messages[0]).Some? && EncodeAll(fs, messages[1..]).Some?
    ensures EncodeAll(fs, messages).Some?
    ensures EncodeAll(fs, messages).value + rest
         == Delimit(Encode(fs, messages[0]).value) + (EncodeAll(fs, messages[1..]).value + rest)
  {
  }

  lemma AllStep(fs: seq<Field>, n: nat, s: seq<byte>, m: seq<Slot>, more: seq<byte>, ms: seq<seq<Slot>>,
                rest: seq<byte>)
    requires n > 0 && DecodeDelimited(fs, s) == Ok(m, more) && DecodeAll(fs, n - 1, more) == Ok(ms, rest)
    ensures DecodeAll(fs, n, s) == Ok([m] + ms, rest)
  {
  }

  /** The messages are read from `s`, which leaves `rest`. */
  ghost predicate Recovers(fs: seq<Field>, messages: seq<seq<Slot>>, s: seq<byte>, rest: seq<byte>) {
    var r := DecodeAll(fs, |messages|, s);
    r.Ok? && r.rest == rest && SameMessages(fs, messages, r.value)
  }

  /** The first message of a stream whose other messages are read back. */
  lemma NextMessage(fs: seq<Field>, messages: seq<seq<Slot>>, body: seq<byte>, more: seq<byte>, rest: seq<byte>)
    requires messages != [] && |body| < TWO32
    requires Decode(fs, body).Ok? && SameSlots(fs, messages[0], Decode(fs, body).value)
    requires Recovers(fs, messages[1..], more, rest)
    ensures Recovers(fs, messages, Delimit(body) + more, rest)
  {
    var first, others := Decode(fs, body).value, DecodeAll(fs, |messages| - 1, more).value;
    BodyIsSkipped(fs, body, more);
    AllStep(fs, |messages|, Delimit(body) + more, first, more, others, rest);
    ConsSame(fs, messages[0], first, messages[1..], others);
    assert messages == [messages[0]] + messages[1..];
  }

  /** What was written as a stream of delimited messages is read back message by message. */
  lemma {:induction false} StreamRoundTrip(fs: seq<Field>, messages: seq<seq<Slot>>, rest: seq<byte>)
    requires WfFields(fs) && AllSendable(fs, messages)
    ensures EncodeAll(fs, messages).Some?
    ensures Recovers(fs, messages, EncodeAll(fs, messages).value + rest, rest)
    decreases |messages|
  {
    if messages == [] {
      assert EncodeAll(fs, messages).value + rest == rest;
    } else {
      assert Sendable(fs, messages[0]);
      assert AllSendable(fs, messages[1..]) by {
        assert forall k | 0 <= k < |messages[1..]| :: messages[1..][k] == messages[k + 1];
      }
      StreamRoundTrip(fs, messages[1..], rest);
      FirstOfAll(fs, messages, rest);
      EncodeThenDecode(fs, messages[0]);
      NextMessage(fs, messages, Encode(fs, messages[0]).value, EncodeAll(fs, messages[1..]).value + rest, rest);
    }
  }
}
