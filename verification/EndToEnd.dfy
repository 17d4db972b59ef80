/** Encoder and decoder on their streams: what was proved of bytes and values holds for the calls themselves. */
module EndToEnd {
  import opened Bits
  import opened Descriptor
  import opened EncodeSpec
  import opened Defaults
  import opened Sizes
  import opened Stranded
  import DS = DecodeSpec
  import RT = RoundTrip
  import OS = OStream
  import IS = IStream
  import Encoder
  import Decoder

  /**
   * pb_get_encoded_size and pb_encode agree: a buffer of any capacity is enough exactly if it holds the size
   * found without writing, and then just that many bytes are written.
   */
  method EncodeToBuffer(fields: seq<Field>, slots: seq<Slot>, capacity: nat)
    returns (sized: bool, size: nat, ok: bool, written: nat, buf: array<byte>)
    requires Readable(fields) && Small(fields, slots)
    ensures sized == Encode(fields, slots).Some? && (sized ==> size == |Encode(fields, slots).value|)
    ensures ok <==> sized && size <= capacity
    ensures ok ==> written == size <= buf.Length && Some(buf[..written]) == Encode(fields, slots)
  {
    sized, size := Encoder.SizeOf(fields, slots);
    buf := new byte[capacity] (_ => 0);
    var stream := new OS.OStream.FromBuffer(buf);
    ok := Encoder.Encode(stream, fields, slots);
    written := stream.bytesWritten;
    assert ok ==> buf[..stream.state] == Encode(fields, slots).value;
    assert ok ==> stream.state == |buf[..stream.state]|;
  }

  /** The bytes of a well-formed message, and what they are read as. */
  lemma Arrives(fields: seq<Field>, slots: seq<Slot>)
    requires WfFields(fields) && WfSlots(fields, slots)
    requires var e := Encode(fields, slots); e.Some? ==> |e.value| < TWO32
    ensures Small(fields, slots) && Encode(fields, slots).Some?
    ensures var r := DS.Decode(fields, Encode(fields, slots).value); r.Ok? && SameSlots(fields, slots, r.value)
  {
    MessageSmall(fields, slots);
    MessageEncodes(fields, slots);
    RT.EncodeThenDecode(fields, slots);
  }

  /** A message is encoded into a buffer, and the bytes written are decoded. */
  method SendAndReceive(fields: seq<Field>, slots: seq<Slot>, capacity: nat, dest: Struct)
    returns (fits: bool, ok: bool)
    requires Readable(fields) && Small(fields, slots) && |dest.slots| == NumSlots(fields)
    modifies dest
    ensures var e := Encode(fields, slots);
      && fits == (e.Some? && |e.value| <= capacity)
      && (fits ==> var r := DS.Decode(fields, e.value); ok == r.Ok? && (ok ==> dest.slots == r.value))
  {
    var sized, size, written, buf;
    sized, size, fits, written, buf := EncodeToBuffer(fields, slots, capacity);
    ok := false;
    if fits {
      var stream := new IS.IStream.FromBuffer(buf[..written]);
      ok := Decoder.Decode(stream, fields, dest);
    }
  }

  /** It arrives as it was, as far as can be observed. */
  method Transfer(fields: seq<Field>, slots: seq<Slot>, capacity: nat, dest: Struct) returns (fits: bool, ok: bool)
    requires WfFields(fields) && WfSlots(fields, slots) && |dest.slots| == NumSlots(fields)
    requires var e := Encode(fields, slots); e.Some? ==> |e.value| < TWO32
    modifies dest
    ensures var e := Encode(fields, slots); e.Some? && fits == (|e.value| <= capacity)
    ensures fits ==> ok && SameSlots(fields, slots, dest.slots)
  {
    assert Readable(fields) by { WfReadable(fields); }
    Arrives(fields, slots);
    ghost var arrived := DS.Decode(fields, Encode(fields, slots).value).value;
    fits, ok := SendAndReceive(fields, slots, capacity, dest);
    assert fits ==> dest.slots == arrived;
  }

  /**
   * A refused message of four bytes with a message of one byte after it: the stream is left with one byte, but
   * inside the refused message, two bytes before its end.
   */
  method NextStartsInside(f: Field, dest: Struct) returns (ok: bool, state: nat, bytesLeft: nat)
    requires RoomForOne(f) && ReadableField(f) && |dest.slots| == 1
    modifies dest
    ensures !ok && state == 3 && bytesLeft == 1
  {
    var next: seq<byte> := [0x00];
    var body: seq<byte> := [0x0A, 0x02, 0x01, 0x01];
    assert Readable([f]);
    assert NumSlots([f]) == SlotsBefore([f], 0) + 1;
    RefusedShort(f);
    OneByte(0x04, body + next);
    assert (body + next)[..4] == body && (body + next)[4..] == next;
    var stream := new IS.IStream.FromBuffer([0x04] + (body + next));
    ok := Decoder.DecodeDelimited(stream, [f], dest);
    state, bytesLeft := stream.state, stream.bytesLeft;
  }
}
