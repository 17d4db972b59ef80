/** The varint and field encoders of pb_encode.c other than pb_enc_submessage. */
module ScalarEncoder {
  import opened Bits
  import opened Varint
  import opened Descriptor
  import opened EncodeSpec
  import opened OStream

  // ----- varints

  /** The groups of a number, each with a continuation bit. */
  ghost function Continued(v: nat): seq<byte> {
    if v == 0 then [] else [v % 128 + 128] + Continued(v / 128)
  }

  /** Taking the continuation bit off the last group gives the varint. */
  lemma {:induction false} LastGroup(v: nat)
    requires v > 0
    ensures var c := Continued(v); |c| == |EncVarint(v)| && EncVarint(v) == c[|c| - 1 := c[|c| - 1] % 128]
  {
    if v >= 128 {
      LastGroup(v / 128);
    } else {
      assert Continued(0) == [];
    }
  }

  /** The loop of pb_encode_varint never runs out of the ten bytes of its buffer. */
  method FillGroups(buffer: array<byte>, value: nat) returns (i: nat)
    requires 0 < value < TWO64 && buffer.Length == 10
    modifies buffer
    ensures 0 < i <= 10 && buffer[..i] == Continued(value)
  {
    LastGroup(value);
    EncVarintFits(value);
    i := 0;
    var v := value;
    while v != 0
      invariant i <= 10 && buffer[..i] + Continued(v) == Continued(value)
      decreases v
    {
      buffer[i] := v % 128 + 128;
      assert buffer[..i + 1] + Continued(v / 128) == buffer[..i] + Continued(v);
      v := v / 128;
      i := i + 1;
    }
  }

  /** pb_encode_varint. */
  method EncodeVarint(stream: OStream, value: nat) returns (ok: bool)
    requires stream.Valid() && value < TWO64
    modifies stream, stream.buf
    ensures stream.Valid() && Wrote(old(stream.View()), stream.View(), ok, Some(EncVarint(value)))
  {
    if value <= 0x7F {
      ok := PbWrite(stream, [value]);
      return;
    }
    var buffer := new byte[10] (_ => 0);
    var i := FillGroups(buffer, value);
    LastGroup(value);
    buffer[i - 1] := buffer[i - 1] % 128;
    assert buffer[..i] == EncVarint(value);
    ok := PbWrite(stream, buffer[..i]);
  }

  /** The zigzag code as pb_encode_svarint computes it, in 64-bit arithmetic. */
  lemma ZigZagBits(n: int)
    requires -TWO63 <= n < TWO63
    ensures ZigZag(n) < TWO64
    ensures var shifted := 2 * ToU64(n) % 0x1_0000_0000_0000_0000;
            ZigZag(n) == if n < 0 then 0xFFFF_FFFF_FFFF_FFFF - shifted else shifted
  {
  }

  /** pb_encode_svarint. */
  method EncodeSvarint(stream: OStream, value: int) returns (ok: bool)
    requires stream.Valid() && -TWO63 <= value < TWO63
    modifies stream, stream.buf
    ensures stream.Valid() && Wrote(old(stream.View()), stream.View(), ok, Some(EncVarint(ZigZag(value))))
  {
    var zigzagged := 2 * ToU64(value) % 0x1_0000_0000_0000_0000;
    if value < 0 {
      // complement
      zigzagged := 0xFFFF_FFFF_FFFF_FFFF - zigzagged;
    }
    assert zigzagged == ZigZag(value) < TWO64 by { ZigZagBits(value); }
    ok := EncodeVarint(stream, zigzagged);
  }

  /** pb_encode_tag. */
  method EncodeTag(stream: OStream, wireType: nat, fieldNumber: nat) returns (ok: bool)
    requires stream.Valid() && wireType < 8 && fieldNumber < TWO32
    modifies stream, stream.buf
    ensures stream.Valid() && Wrote(old(stream.View()), stream.View(), ok, Some(EncTag(wireType, fieldNumber)))
  {
    ok := EncodeVarint(stream, fieldNumber * 8 + wireType);
  }

  /** pb_encode_tag_for_field. */
  method EncodeTagForField(stream: OStream, f: Field) returns (ok: bool)
    requires stream.Valid() && f.tag < TWO32 && f.ltype != LExtension
    modifies stream, stream.buf
    ensures stream.Valid() && Wrote(old(stream.View()), stream.View(), ok, Some(EncTagFor(f)))
    ensures EncTagFor(f) == EncTag(if Packable(f.ltype) && f.ltype !in {LFixed32, LFixed64} then 0
                                   else if f.ltype == LFixed64 then 1
                                   else if f.ltype == LFixed32 then 5
                                   else 2, f.tag)
  {
    var wireType := match f.ltype
      case LBool => WT_VARINT
      case LVarint => WT_VARINT
      case LUvarint => WT_VARINT
      case LSvarint => WT_VARINT
      case LFixed32 => WT_32BIT
      case LFixed64 => WT_64BIT
      case _ => WT_STRING;
    ok := EncodeTag(stream, wireType, f.tag);
  }

  /** pb_encode_string. */
  method EncodeString(stream: OStream, bytes: seq<byte>) returns (ok: bool)
    requires stream.Valid() && |bytes| < TWO64
    modifies stream, stream.buf
    ensures stream.Valid() && Wrote(old(stream.View()), stream.View(), ok, Some(Delimit(bytes)))
  {
    ok := EncodeVarint(stream, |bytes|);
    if ok {
      ok := PbWrite(stream, bytes);
    }
  }

  // ----- words

  /** pb_encode_fixed32 and pb_encode_fixed64: shifted right by 0, 8, 16, ... and cut to a byte. */
  method EncodeFixed(stream: OStream, value: nat, size: nat) returns (ok: bool)
    requires stream.Valid()
    modifies stream, stream.buf
    ensures stream.Valid() && Wrote(old(stream.View()), stream.View(), ok, Some(LittleEndian(value, size)))
  {
    var bytes: seq<byte>, v := [], value;
    while |bytes| < size
      invariant |bytes| <= size
      invariant bytes + LittleEndian(v, size - |bytes|) == LittleEndian(value, size)
    {
      assert bytes + [v % 256] + LittleEndian(v / 256, size - |bytes| - 1) == bytes + LittleEndian(v, size - |bytes|);
      bytes := bytes + [v % 256];
      v := v / 256;
    }
    ok := PbWrite(stream, bytes);
  }

  // ----- field encoders

  /** pb_enc_varint, pb_enc_uvarint and pb_enc_svarint, which read an integer of the size in the descriptor. */
  method EncInteger(stream: OStream, f: Field, v: Value) returns (ok: bool)
    requires stream.Valid() && f.ltype in {LVarint, LUvarint, LSvarint}
    modifies stream, stream.buf
    ensures stream.Valid() && Wrote(old(stream.View()), stream.View(), ok, EncScalar(f, v))
  {
    if f.dataSize !in {1, 2, 4, 8} {
      return false;
    }
    if f.ltype == LUvarint {
      ok := EncodeVarint(stream, CastUnsigned(NumOf(v), f.dataSize));
    } else {
      var value := CastSigned(NumOf(v), f.dataSize);
      if f.ltype == LVarint {
        ok := EncodeVarint(stream, ToU64(value));
      } else {
        ok := EncodeSvarint(stream, value);
      }
    }
  }

  /** pb_enc_bytes: no more than fit the field. */
  method EncBytes(stream: OStream, f: Field, v: Value) returns (ok: bool)
    requires stream.Valid() && f.ltype == LBytes && |BytesOf(v)| < TWO64
    modifies stream, stream.buf
    ensures stream.Valid() && Wrote(old(stream.View()), stream.View(), ok, EncScalar(f, v))
  {
    var allocSize := |BytesOf(v)| + 4;
    if allocSize > f.dataSize {
      return false;
    }
    ok := EncodeString(stream, BytesOf(v));
  }

  /** The loop of pb_enc_string, which stops at the NUL or at the end of the field. */
  method StringLength(src: seq<byte>, maxSize: nat) returns (size: nat)
    ensures size <= |src| && src[..size] == UpToNul(InBounds(src, maxSize))
  {
    ghost var window := InBounds(src, maxSize);
    size := 0;
    while size < maxSize && size < |src| && src[size] != 0
      invariant size <= |window|
      invariant UpToNul(window) == window[..size] + UpToNul(window[size..])
    {
      assert window[..size + 1] == window[..size] + [window[size]];
      assert window[size..][1..] == window[size + 1..];
      size := size + 1;
    }
    assert src[..size] == window[..size];
  }

  /** pb_enc_string. */
  method EncString(stream: OStream, f: Field, v: Value) returns (ok: bool)
    requires stream.Valid() && f.ltype == LString && |BytesOf(v)| < TWO64
    modifies stream, stream.buf
    ensures stream.Valid() && Wrote(old(stream.View()), stream.View(), ok, EncScalar(f, v))
  {
    var size := StringLength(BytesOf(v), f.dataSize);
    ok := EncodeString(stream, BytesOf(v)[..size]);
  }

  /** The encoders for the field types other than submessages. */
  method EncScalarField(stream: OStream, f: Field, v: Value) returns (ok: bool)
    requires stream.Valid() && f.ltype != LSubmessage && f.ltype != LExtension && |BytesOf(v)| < TWO64
    modifies stream, stream.buf
    ensures stream.Valid() && Wrote(old(stream.View()), stream.View(), ok, EncScalar(f, v))
  {
    match f.ltype
    case LBool => ok := EncodeVarint(stream, if NumOf(v) != 0 then 1 else 0);
    case LVarint => ok := EncInteger(stream, f, v);
    case LUvarint => ok := EncInteger(stream, f, v);
    case LSvarint => ok := EncInteger(stream, f, v);
    case LFixed32 => ok := EncodeFixed(stream, CastUnsigned(NumOf(v), 4), 4);
    case LFixed64 => ok := EncodeFixed(stream, CastUnsigned(NumOf(v), 8), 8);
    case LBytes => ok := EncBytes(stream, f, v);
    case LString => ok := EncString(stream, f, v);
    case LFixedLengthBytes => ok := EncodeString(stream, BytesOf(v));
  }
}
