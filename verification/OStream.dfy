/** Output streams: into a memory buffer, or only counting; and the writers of varints, words and strings. */
module OStream {
  import opened Bits
  import opened Varint
  import opened Descriptor
  import opened EncodeSpec

  /** The bytes counted; or those written, the room that is left, and the bytes beyond it. */
  datatype View = Count(n: nat) | Buffer(written: seq<byte>, room: nat, beyond: seq<byte>)

  predicate Accepts(v: View, bytes: Option<seq<byte>>) {
    bytes.Some? && (v.Buffer? ==> |bytes.value| <= v.room)
  }

  function Extended(v: View, bytes: seq<byte>): View
    requires Accepts(v, Some(bytes))
  {
    match v
    case Count(n) => Count(n + |bytes|)
    case Buffer(written, room, beyond) => Buffer(written + bytes, room - |bytes|, beyond)
  }

  /** What a failure leaves: something may have been written, but only where there was room. */
  predicate Spoiled(before: View, after: View) {
    match before
    case Count(_) => after.Count?
    case Buffer(written, room, beyond) =>
      after.Buffer? && after.beyond == beyond && written <= after.written && |after.written| + after.room == |written| + room
  }

  /**
   * What every writer promises: it succeeds exactly if there are bytes to write and they fit, and then the
   * bytes follow the contents. Nothing outside of the room is ever touched.
   */
  ghost predicate Wrote(before: View, after: View, ok: bool, bytes: Option<seq<byte>>) {
    ok == Accepts(before, bytes) && if ok then after == Extended(before, bytes.value) else Spoiled(before, after)
  }

  lemma WroteNothing(v: View)
    ensures Wrote(v, v, true, Some([]))
  {
  }

  /** Writing in two steps. */
  lemma WroteBoth(a: View, b: View, c: View, first: seq<byte>, ok: bool, second: Option<seq<byte>>)
    requires Wrote(a, b, true, Some(first)) && Wrote(b, c, ok, second)
    ensures Wrote(a, c, ok, Append(Some(first), second))
  {
  }

  /** A failure of the first step is a failure of both. */
  lemma WroteNone(a: View, b: View, first: Option<seq<byte>>, second: Option<seq<byte>>)
    requires Wrote(a, b, false, first)
    ensures Wrote(a, b, false, Append(first, second))
  {
  }

  class OStream {
    const buf: array<byte>
    /** There is no callback: bytes are counted and not written. */
    const sizing: bool
    const maxSize: nat
    var state: nat
    var bytesWritten: nat

    ghost predicate Valid()
      reads this
    {
      sizing || (bytesWritten <= maxSize && End() <= buf.Length)
    }

    /** Where the room of the stream ends in the buffer. */
    ghost function End(): int
      reads this
    {
      state + maxSize - bytesWritten
    }

    /** What has become of the buffer. */
    ghost function View(): View
      requires Valid()
      reads this, buf
    {
      if sizing then Count(bytesWritten) else Buffer(buf[..state], maxSize - bytesWritten, buf[End()..])
    }

    /** pb_ostream_from_buffer. */
    constructor FromBuffer(buf: array<byte>)
      ensures Valid() && this.buf == buf && !sizing && bytesWritten == 0 && View() == Buffer([], buf.Length, [])
    {
      this.buf := buf;
      sizing := false;
      maxSize := buf.Length;
      state := 0;
      bytesWritten := 0;
    }

    /** PB_OSTREAM_SIZING. */
    constructor Sizing()
      ensures Valid() && fresh(buf) && sizing && View() == Count(0)
    {
      buf := new byte[0];
      sizing := true;
      maxSize := 0;
      state := 0;
      bytesWritten := 0;
    }

    /** The substream of pb_encode_submessage: it goes on where `stream` stands. */
    constructor Within(stream: OStream, size: nat)
      requires stream.Valid() && !stream.sizing && stream.bytesWritten + size <= stream.maxSize
      ensures Valid() && buf == stream.buf && !sizing && maxSize == size && bytesWritten == 0 && state == stream.state
    {
      buf := stream.buf;
      sizing := false;
      maxSize := size;
      state := stream.state;
      bytesWritten := 0;
    }
  }

  /** buf_write. */
  method BufWrite(stream: OStream, bytes: seq<byte>)
    requires stream.state + |bytes| <= stream.buf.Length
    modifies stream`state, stream.buf
    ensures stream.state == old(stream.state) + |bytes|
    ensures stream.buf[..] == old(stream.buf[..stream.state]) + bytes + old(stream.buf[stream.state + |bytes|..])
  {
    var dest := stream.state;
    stream.state := dest + |bytes|;
    var i := 0;
    while i < |bytes|
      invariant i <= |bytes| && stream.state == dest + |bytes|
      invariant forall k | 0 <= k < stream.buf.Length ::
        stream.buf[k] == if dest <= k < dest + i then bytes[k - dest] else old(stream.buf[k])
    {
      stream.buf[dest + i] := bytes[i];
      i := i + 1;
    }
  }

  /** pb_write. */
  method PbWrite(stream: OStream, bytes: seq<byte>) returns (ok: bool)
    requires stream.Valid()
    modifies stream, stream.buf
    ensures stream.Valid() && Wrote(old(stream.View()), stream.View(), ok, Some(bytes))
  {
    if |bytes| > 0 && !stream.sizing {
      if stream.bytesWritten + |bytes| > stream.maxSize {
        return false;
      }
      ghost var before, end := stream.buf[..], stream.End();
      BufWrite(stream, bytes);
      assert stream.buf[..stream.state] == before[..old(stream.state)] + bytes;
      assert stream.buf[end..] == before[end..];
    }
    stream.bytesWritten := stream.bytesWritten + |bytes|;
    ok := true;
  }

  /** pb_write with a NULL buffer: on a sizing stream the bytes are only counted. */
  method PbCount(stream: OStream, count: nat)
    requires stream.sizing
    modifies stream
    ensures stream.View() == Count(old(stream.bytesWritten) + count)
  {
    stream.bytesWritten := stream.bytesWritten + count;
  }
}
