/** Input streams over a memory buffer, and the readers of varints, words, tags and substreams. */
module IStream {
  import opened Bits
  import opened Varint
  import opened Descriptor
  import opened DecodeSpec
  import opened Stranded

  class IStream {
    const buf: seq<byte>
    var state: nat
    var bytesLeft: nat

    ghost predicate Valid()
      reads this
    {
      state + bytesLeft <= |buf|
    }

    /** The bytes the stream still gives out. */
    ghost function Avail(): seq<byte>
      requires Valid()
      reads this
    {
      buf[state..state + bytesLeft]
    }

    /** Where the stream ends in the buffer. */
    ghost function End(): nat
      reads this
    {
      state + bytesLeft
    }

    /** The stream ends at `end` and has `rest` left. */
    ghost predicate Has(end: nat, rest: seq<byte>)
      reads this
    {
      Valid() && End() == end && Avail() == rest
    }

    /** pb_istream_from_buffer. */
    constructor FromBuffer(buf: seq<byte>)
      ensures Has(|buf|, buf) && this.buf == buf
    {
      this.buf := buf;
      state := 0;
      bytesLeft := |buf|;
    }

    /** A stream struct with the given fields. */
    constructor At(buf: seq<byte>, state: nat, bytesLeft: nat)
      ensures this.buf == buf && this.state == state && this.bytesLeft == bytesLeft
    {
      this.buf := buf;
      this.state := state;
      this.bytesLeft := bytesLeft;
    }

    /** pb_read. */
    method Read(count: nat) returns (ok: bool, bytes: seq<byte>)
      requires Valid()
      modifies this
      ensures Valid() && End() == old(End())
      ensures ok == Take(old(Avail()), count).Ok?
      ensures ok ==> bytes == Take(old(Avail()), count).value && Has(old(End()), Take(old(Avail()), count).rest)
      ensures bytesLeft == old(bytesLeft) - if ok then count else 0
    {
      bytes := [];
      if count == 0 {
        assert Avail()[0..] == Avail();
        return true, bytes;
      }
      if bytesLeft < count {
        return false, bytes;
      }
      bytes := buf[state..state + count];
      state := state + count;
      bytesLeft := bytesLeft - count;
      ok := true;
    }

    /** pb_readbyte. */
    method ReadByte() returns (ok: bool, b: byte)
      requires Valid()
      modifies this
      ensures Valid() && End() == old(End())
      ensures ok == (old(Avail()) != [])
      ensures ok ==> b == old(Avail())[0] && Has(old(End()), old(Avail())[1..]) && bytesLeft < old(bytesLeft)
      ensures !ok ==> bytesLeft == 0
    {
      if bytesLeft == 0 {
        return false, 0;
      }
      b := buf[state];
      state := state + 1;
      bytesLeft := bytesLeft - 1;
      ok := true;
    }
  }

  /** `stream` now holds what reading with result `r` leaves of it. */
  ghost predicate Left<T>(stream: IStream, end: nat, r: Parse<T>)
    reads stream
  {
    r.Ok? && stream.Has(end, r.rest)
  }

  lemma Or32(a: nat, b: nat)
    requires a < TWO32 && b < TWO32
    ensures BitOr(a, b) < TWO32
  {
    ShlBy32(1);
    BitOrBound(a, b, 32);
  }

  /** pb_decode_varint32_eof. `eof` tells that there was not even a first byte. */
  method DecodeVarint32Eof(stream: IStream) returns (ok: bool, dest: nat, eof: bool)
    requires stream.Valid()
    modifies stream
    ensures stream.Valid() && stream.End() == old(stream.End())
    ensures ok == Varint32(old(stream.Avail())).Ok?
    ensures ok ==> dest == Varint32(old(stream.Avail())).value && Left(stream, old(stream.End()), Varint32(old(stream.Avail())))
    ensures eof == (old(stream.Avail()) == [])
    ensures stream.bytesLeft == Left32(old(stream.Avail()))
  {
    dest, eof := 0, false;
    assert |stream.Avail()| == stream.bytesLeft;
    var b;
    ok, b := stream.ReadByte();
    if !ok {
      eof := true;
      return;
    }
    if b < 128 {
      dest := b;
      return;
    }
    var bitpos: nat := 7;
    var result: nat := b % 128;
    ghost var all, left := Varint32From(stream.Avail(), 7, result), Left32From(stream.Avail(), 7, result);
    while true
      invariant stream.Valid() && stream.End() == old(stream.End())
      invariant bitpos < 256 && result < TWO32
      invariant Varint32From(stream.Avail(), bitpos, result) == all
      invariant Left32From(stream.Avail(), bitpos, result) == left
      decreases stream.bytesLeft
    {
      ok, b := stream.ReadByte();
      if !ok {
        return;
      }
      if bitpos >= 32 {
        // trailing 0x80 bytes, or the sign extension of a negative number
        var signExtension := if bitpos < 63 then 0xFF else 0x01;
        if b % 128 != 0 && (result / 0x8000_0000 == 0 || b != signExtension) {
          return false, dest, eof;
        }
      } else {
        Or32(result, Shl(b % 128, bitpos) % 0x1_0000_0000);
        result := BitOr(result, Shl(b % 128, bitpos) % 0x1_0000_0000);
      }
      bitpos := (bitpos + 7) % 256;
      if b < 128 {
        break;
      }
    }
    if bitpos == 35 && b / 16 % 8 != 0 {
      // only the bottom four bits of the group at bit 28 fit
      return false, dest, eof;
    }
    dest := result;
  }

  /** pb_decode_varint32. */
  method DecodeVarint32(stream: IStream) returns (ok: bool, dest: nat)
    requires stream.Valid()
    modifies stream
    ensures stream.Valid() && stream.End() == old(stream.End())
    ensures ok == Varint32(old(stream.Avail())).Ok?
    ensures ok ==> dest == Varint32(old(stream.Avail())).value && Left(stream, old(stream.End()), Varint32(old(stream.Avail())))
    ensures stream.bytesLeft == Left32(old(stream.Avail()))
  {
    var eof;
    ok, dest, eof := DecodeVarint32Eof(stream);
  }

  /** pb_decode_varint. */
  method DecodeVarint(stream: IStream) returns (ok: bool, dest: nat)
    requires stream.Valid()
    modifies stream
    ensures stream.Valid() && stream.End() == old(stream.End())
    ensures ok == Varint64(old(stream.Avail())).Ok?
    ensures ok ==> dest == Varint64(old(stream.Avail())).value && Left(stream, old(stream.End()), Varint64(old(stream.Avail())))
    ensures stream.bytesLeft == Left64From(old(stream.Avail()), 0)
  {
    dest := 0;
    var bitpos: nat, result: nat := 0, 0;
    while true
      invariant stream.Valid() && stream.End() == old(stream.End())
      invariant Varint64From(stream.Avail(), bitpos, result) == Varint64(old(stream.Avail()))
      invariant Left64From(stream.Avail(), bitpos) == Left64From(old(stream.Avail()), 0)
      decreases stream.bytesLeft
    {
      assert |stream.Avail()| == stream.bytesLeft;
      if bitpos >= 64 {
        return false, dest;
      }
      var b;
      ok, b := stream.ReadByte();
      if !ok {
        return;
      }
      result := BitOr(result, Shl(b % 128, bitpos) % 0x1_0000_0000_0000_0000);
      bitpos := bitpos + 7;
      if b < 128 {
        return true, result;
      }
    }
  }

  /** pb_skip_varint. */
  method SkipVarintBytes(stream: IStream) returns (ok: bool)
    requires stream.Valid()
    modifies stream
    ensures stream.Valid() && stream.End() == old(stream.End())
    ensures ok == SkipVarint(old(stream.Avail())).Ok?
    ensures ok ==> Left(stream, old(stream.End()), SkipVarint(old(stream.Avail())))
  {
    while true
      invariant stream.Valid() && stream.End() == old(stream.End())
      invariant SkipVarint(stream.Avail()) == SkipVarint(old(stream.Avail()))
      decreases stream.bytesLeft
    {
      var bytes;
      ok, bytes := stream.Read(1);
      if !ok || bytes[0] < 128 {
        return;
      }
    }
  }

  /** pb_decode_tag: at the end of the message the result is false and `eof` true. */
  method DecodeTag(stream: IStream) returns (ok: bool, wireType: nat, tag: nat, eof: bool)
    requires stream.Valid()
    modifies stream
    ensures stream.Valid() && stream.End() == old(stream.End())
    ensures old(stream.Avail()) == [] ==> !ok && eof
    ensures old(stream.Avail()) != [] ==>
      var t := DecTag(old(stream.Avail()));
      && ok == t.Tag? && (!ok ==> eof == t.End?)
      && (t.Tag? ==> tag == t.tag && wireType == t.wireType)
      && (!t.Bad? ==> stream.Has(old(stream.End()), t.rest))
  {
    wireType, tag := 0, 0;
    var temp;
    ok, temp, eof := DecodeVarint32Eof(stream);
    if !ok {
      return;
    }
    if temp == 0 {
      return false, 0, 0, true;
    }
    tag := temp / 8;
    wireType := temp % 8;
  }

  /** pb_skip_field. */
  method SkipFieldData(stream: IStream, wireType: nat) returns (ok: bool)
    requires stream.Valid()
    modifies stream
    ensures stream.Valid() && stream.End() == old(stream.End())
    ensures ok == SkipField(wireType, old(stream.Avail())).Ok?
    ensures ok ==> Left(stream, old(stream.End()), SkipField(wireType, old(stream.Avail())))
  {
    var bytes;
    if wireType == 0 {
      ok := SkipVarintBytes(stream);
    } else if wireType == 1 {
      ok, bytes := stream.Read(8);
    } else if wireType == 2 {
      var length;
      ok, length := DecodeVarint32(stream);
      if ok {
        ok, bytes := stream.Read(length);
      }
    } else if wireType == 5 {
      ok, bytes := stream.Read(4);
    } else {
      ok := false;
    }
  }

  /**
   * pb_make_string_substream: a stream for the bytes of a length-delimited field. Until the substream is
   * closed, the stream itself has given them up but does not stand after them yet.
   */
  method MakeStringSubstream(stream: IStream) returns (ok: bool, substream: IStream)
    requires stream.Valid()
    modifies stream
    ensures fresh(substream) && substream.buf == stream.buf
    ensures ok == Substream(old(stream.Avail())).Ok?
    ensures ok ==>
      var r := Substream(old(stream.Avail()));
      && substream.Valid() && substream.Avail() == r.value
      && stream.state == substream.state
      && substream.End() + stream.bytesLeft == old(stream.End()) <= |stream.buf|
      && stream.buf[substream.End()..substream.End() + stream.bytesLeft] == r.rest
    ensures !ok ==> stream.Valid() && stream.End() == old(stream.End())
  {
    var size;
    ok, size := DecodeVarint32(stream);
    assert ok ==> |stream.Avail()| == stream.bytesLeft;
    substream := new IStream.At(stream.buf, stream.state, stream.bytesLeft);
    if !ok {
      return;
    }
    if substream.bytesLeft < size {
      return false, substream;
    }
    substream.bytesLeft := size;
    stream.bytesLeft := stream.bytesLeft - size;
  }

  /** pb_close_string_substream: whatever is left of the substream is skipped. */
  method CloseStringSubstream(stream: IStream, substream: IStream) returns (ok: bool)
    requires substream.Valid() && stream != substream && stream.buf == substream.buf
    requires substream.End() + stream.bytesLeft <= |stream.buf|
    modifies stream, substream
    ensures ok && stream.Valid() && stream.bytesLeft == old(stream.bytesLeft)
    ensures stream.state == old(substream.End())
  {
    if substream.bytesLeft != 0 {
      var bytes;
      ok, bytes := substream.Read(substream.bytesLeft);
      if !ok {
        return;
      }
    }
    stream.state := substream.state;
    ok := true;
  }
}
