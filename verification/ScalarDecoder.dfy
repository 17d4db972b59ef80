/** The field decoders of pb_decode.c other than pb_dec_submessage. */
module ScalarDecoder {
  import opened Bits
  import opened Varint
  import opened Descriptor
  import opened DecodeSpec
  import opened Stranded
  import opened IStream

  /** pb_dec_bool. */
  method DecBool(stream: IStream, f: Field) returns (ok: bool, v: Value)
    requires stream.Valid() && f.ltype == LBool
    modifies stream
    ensures stream.Valid() && stream.End() == old(stream.End())
    ensures ok == DecScalar(f, old(stream.Avail())).Ok?
    ensures ok ==> v == DecScalar(f, old(stream.Avail())).value
    ensures ok ==> Left(stream, old(stream.End()), DecScalar(f, old(stream.Avail())))
    ensures stream.bytesLeft == LeftScalar(f, old(stream.Avail()))
  {
    var value;
    ok, value := DecodeVarint32(stream);
    v := Num(if value != 0 then 1 else 0);
  }

  /** pb_dec_varint: fields of at most 32 bits take the low 32 bits of the number, then sizes are checked. */
  method DecVarint(stream: IStream, f: Field) returns (ok: bool, v: Value)
    requires stream.Valid() && f.ltype == LVarint
    modifies stream
    ensures stream.Valid() && stream.End() == old(stream.End())
    ensures ok == DecScalar(f, old(stream.Avail())).Ok?
    ensures ok ==> v == DecScalar(f, old(stream.Avail())).value
    ensures ok ==> Left(stream, old(stream.End()), DecScalar(f, old(stream.Avail())))
    ensures stream.bytesLeft == LeftScalar(f, old(stream.Avail()))
  {
    v := Num(0);
    var value;
    ok, value := DecodeVarint(stream);
    if !ok {
      return;
    }
    var svalue := CastSigned(value, if f.dataSize == 8 then 8 else 4);
    if f.dataSize !in {1, 2, 4, 8} {
      return false, v;
    }
    var clamped := CastSigned(svalue, f.dataSize);
    v := Num(clamped);
    ok := clamped == svalue;
  }

  /** pb_dec_uvarint. */
  method DecUvarint(stream: IStream, f: Field) returns (ok: bool, v: Value)
    requires stream.Valid() && f.ltype == LUvarint
    modifies stream
    ensures stream.Valid() && stream.End() == old(stream.End())
    ensures ok == DecScalar(f, old(stream.Avail())).Ok?
    ensures ok ==> v == DecScalar(f, old(stream.Avail())).value
    ensures ok ==> Left(stream, old(stream.End()), DecScalar(f, old(stream.Avail())))
    ensures stream.bytesLeft == LeftScalar(f, old(stream.Avail()))
  {
    v := Num(0);
    var value;
    ok, value := DecodeVarint(stream);
    if !ok {
      return;
    }
    if f.dataSize !in {1, 2, 4, 8} {
      return false, v;
    }
    var clamped := CastUnsigned(value, f.dataSize);
    v := Num(clamped);
    ok := clamped == value;
  }

  /** pb_dec_svarint. */
  method DecSvarint(stream: IStream, f: Field) returns (ok: bool, v: Value)
    requires stream.Valid() && f.ltype == LSvarint
    modifies stream
    ensures stream.Valid() && stream.End() == old(stream.End())
    ensures ok == DecScalar(f, old(stream.Avail())).Ok?
    ensures ok ==> v == DecScalar(f, old(stream.Avail())).value
    ensures ok ==> Left(stream, old(stream.End()), DecScalar(f, old(stream.Avail())))
    ensures stream.bytesLeft == LeftScalar(f, old(stream.Avail()))
  {
    v := Num(0);
    var u;
    ok, u := DecodeVarint(stream);
    if !ok {
      return;
    }
    var value := UnZigZag(u);
    if f.dataSize !in {1, 2, 4, 8} {
      return false, v;
    }
    var clamped := CastSigned(value, f.dataSize);
    v := Num(clamped);
    ok := clamped == value;
  }

  /** pb_dec_fixed32 and pb_dec_fixed64. */
  method DecFixed(stream: IStream, f: Field) returns (ok: bool, v: Value)
    requires stream.Valid() && f.ltype in {LFixed32, LFixed64}
    modifies stream
    ensures stream.Valid() && stream.End() == old(stream.End())
    ensures ok == DecScalar(f, old(stream.Avail())).Ok?
    ensures ok ==> v == DecScalar(f, old(stream.Avail())).value
    ensures ok ==> Left(stream, old(stream.End()), DecScalar(f, old(stream.Avail())))
    ensures stream.bytesLeft == LeftScalar(f, old(stream.Avail()))
  {
    assert |stream.Avail()| == stream.bytesLeft;
    var bytes;
    ok, bytes := stream.Read(if f.ltype == LFixed32 then 4 else 8);
    v := Num(FromLittleEndian(bytes));
  }

  /** pb_dec_bytes. */
  method DecBytes(stream: IStream, f: Field) returns (ok: bool, v: Value)
    requires stream.Valid() && f.ltype == LBytes
    modifies stream
    ensures stream.Valid() && stream.End() == old(stream.End())
    ensures ok == DecScalar(f, old(stream.Avail())).Ok?
    ensures ok ==> v == DecScalar(f, old(stream.Avail())).value
    ensures ok ==> Left(stream, old(stream.End()), DecScalar(f, old(stream.Avail())))
  {
    v := Blob([]);
    var size;
    ok, size := DecodeVarint32(stream);
    if !ok {
      return;
    }
    var allocSize := size + 4;
    if allocSize > f.dataSize {
      return false, v;
    }
    var bytes;
    ok, bytes := stream.Read(size);
    v := Blob(bytes);
  }

  /** pb_dec_string. */
  method DecString(stream: IStream, f: Field) returns (ok: bool, v: Value)
    requires stream.Valid() && f.ltype == LString
    modifies stream
    ensures stream.Valid() && stream.End() == old(stream.End())
    ensures ok == DecScalar(f, old(stream.Avail())).Ok?
    ensures ok ==> v == DecScalar(f, old(stream.Avail())).value
    ensures ok ==> Left(stream, old(stream.End()), DecScalar(f, old(stream.Avail())))
  {
    v := Blob([]);
    var size;
    ok, size := DecodeVarint32(stream);
    if !ok {
      return;
    }
    var allocSize := (size + 1) % 0x1_0000_0000;
    if allocSize < size || allocSize > f.dataSize {
      return false, v;
    }
    var bytes;
    ok, bytes := stream.Read(size);
    v := Blob(UpToNul(bytes));
  }

  /** pb_dec_fixed_length_bytes: an empty value stands for all zeros. */
  method DecFixedLengthBytes(stream: IStream, f: Field) returns (ok: bool, v: Value)
    requires stream.Valid() && f.ltype == LFixedLengthBytes
    modifies stream
    ensures stream.Valid() && stream.End() == old(stream.End())
    ensures ok == DecScalar(f, old(stream.Avail())).Ok?
    ensures ok ==> v == DecScalar(f, old(stream.Avail())).value
    ensures ok ==> Left(stream, old(stream.End()), DecScalar(f, old(stream.Avail())))
  {
    v := Blob([]);
    var size;
    ok, size := DecodeVarint32(stream);
    if !ok {
      return;
    }
    if size == 0 {
      return true, Blob(Zeros(f.dataSize));
    }
    if size != f.dataSize {
      return false, v;
    }
    var bytes;
    ok, bytes := stream.Read(size);
    v := Blob(bytes);
  }

  /** The decoders for the field types other than submessages. */
  method DecScalarField(stream: IStream, f: Field) returns (ok: bool, v: Value)
    requires stream.Valid() && f.ltype != LSubmessage && f.ltype != LExtension
    modifies stream
    ensures stream.Valid() && stream.End() == old(stream.End())
    ensures ok == DecScalar(f, old(stream.Avail())).Ok?
    ensures ok ==> v == DecScalar(f, old(stream.Avail())).value
    ensures ok ==> Left(stream, old(stream.End()), DecScalar(f, old(stream.Avail())))
    ensures Packable(f.ltype) ==> stream.bytesLeft == LeftScalar(f, old(stream.Avail()))
  {
    match f.ltype
    case LBool => ok, v := DecBool(stream, f);
    case LVarint => ok, v := DecVarint(stream, f);
    case LUvarint => ok, v := DecUvarint(stream, f);
    case LSvarint => ok, v := DecSvarint(stream, f);
    case LFixed32 => ok, v := DecFixed(stream, f);
    case LFixed64 => ok, v := DecFixed(stream, f);
    case LBytes => ok, v := DecBytes(stream, f);
    case LString => ok, v := DecString(stream, f);
    case LFixedLengthBytes => ok, v := DecFixedLengthBytes(stream, f);
  }
}
