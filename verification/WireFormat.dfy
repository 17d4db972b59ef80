/** The examples of the Protocol Buffers Encoding documentation: the bytes themselves, not only that they read back. */
module WireFormat {
  import opened Bits
  import opened Varint
  import opened Descriptor
  import opened EncodeSpec

  lemma OneGroup(v: nat)
    requires v < 128
    ensures EncVarint(v) == [v]
  {
  }

  lemma TwoGroups(v: nat)
    requires 128 <= v < 0x4000
    ensures EncVarint(v) == [v % 128 + 128, v / 128]
  {
    OneGroup(v / 128);
  }

  lemma ThreeGroups(v: nat)
    requires 0x4000 <= v < 0x20_0000
    ensures EncVarint(v) == [v % 128 + 128, v / 128 % 128 + 128, v / 128 / 128]
  {
    TwoGroups(v / 128);
  }

  /** A message of one field. */
  lemma OneField(f: Field, s: Slot, e: seq<byte>)
    requires EncField(f, s) == Some(e)
    ensures Encode([f], [s]) == Some(e)
  {
    var fs, slots := [f], [s];
    assert SlotsBefore(fs, 1) == SlotsBefore(fs, 0) + 1;
    assert At(slots, SlotAt(fs, 0)) == s;
    assert EncFields(fs, slots, 1) == Some([]);
    assert e + [] == e;
  }

  /** A tag, and the bytes of a value. */
  lemma Tagged(f: Field, v: Value, tag: byte, e: seq<byte>)
    requires EncTagFor(f) == [tag] && EncValue(f, v) == Some(e)
    ensures EncTagged(f, v) == Some([tag] + e)
  {
  }

  /** "A Simple Message": field 1 is the number 150. */
  lemma SimpleMessage(f: Field, v: Value)
    requires f.htype == Required && f.ltype == LVarint && f.dataSize == 4 && f.tag == 1 && v == Num(150)
    ensures Encode([f], [Plain(v)]) == Some([0x08, 0x96, 0x01])
  {
    OneGroup(f.tag * 8 + WT_VARINT);
    TwoGroups(v.n);
    assert CastSigned(v.n, f.dataSize) == v.n;
    Tagged(f, v, 0x08, [0x96, 0x01]);
    OneField(f, Plain(v), [0x08] + [0x96, 0x01]);
    assert [0x08] + [0x96, 0x01] == [0x08, 0x96, 0x01];
  }

  /** "Non-varint Numbers": a 64-bit word in field 3 has wire type 1, and a 32-bit word wire type 5. */
  lemma FixedWords(f: Field, v: Value)
    requires f.ltype in {LFixed32, LFixed64} && f.tag == 3
    ensures EncTagged(f, v).Some?
    ensures var e := EncTagged(f, v).value;
      if f.ltype == LFixed64 then e[0] == 0x19 && |e| == 9 else e[0] == 0x1D && |e| == 5
  {
    OneGroup(f.tag * 8 + WireType(f.ltype));
  }

  /** "Length-Delimited Records": field 2 is the string "testing". */
  lemma TestingString(f: Field, text: seq<byte>)
    requires f.htype == Required && f.ltype == LString && f.dataSize == 8 && f.tag == 2
    requires text == [0x74, 0x65, 0x73, 0x74, 0x69, 0x6E, 0x67]
    ensures Encode([f], [Plain(Blob(text))]) == Some([0x12, 0x07] + text)
  {
    OneGroup(f.tag * 8 + WT_STRING);
    OneGroup(|text|);
    NoNul(text);
    Tagged(f, Blob(text), 0x12, [0x07] + text);
    OneField(f, Plain(Blob(text)), [0x12] + ([0x07] + text));
    assert [0x12] + ([0x07] + text) == [0x12, 0x07] + text;
  }

  /** "Submessages": field 3 is a message whose field 1 is 150. */
  lemma Submessage(f: Field, sub: Field, v: Value)
    requires f.htype == Required && f.ltype == LSubmessage && f.tag == 3 && f.ptr == Fields([sub])
    requires sub.htype == Required && sub.ltype == LVarint && sub.dataSize == 4 && sub.tag == 1 && v == Num(150)
    ensures Encode([f], [Plain(Sub([Plain(v)]))]) == Some([0x1A, 0x03, 0x08, 0x96, 0x01])
  {
    SimpleMessage(sub, v);
    OneGroup(f.tag * 8 + WT_STRING);
    var body: seq<byte> := [0x08, 0x96, 0x01];
    OneGroup(|body|);
    assert EncValue(f, Sub([Plain(v)])) == Some([0x03] + body);
    Tagged(f, Sub([Plain(v)]), 0x1A, [0x03] + body);
    OneField(f, Plain(Sub([Plain(v)])), [0x1A] + ([0x03] + body));
    assert [0x1A] + ([0x03] + body) == [0x1A, 0x03, 0x08, 0x96, 0x01];
  }

  lemma Element(f: Field, v: Value, more: seq<Value>, e: seq<byte>, rest: seq<byte>)
    requires EncScalar(f, v) == Some(e) && EncPayload(f, more) == Some(rest)
    ensures EncPayload(f, [v] + more) == Some(e + rest)
  {
    assert ([v] + more)[1..] == more;
  }

  /** "Packed Repeated Fields": field 6 is an array of 3, 270 and 86942. */
  lemma PackedArray(f: Field, a: Value, b: Value, c: Value)
    requires f.htype == Repeated && f.ltype == LVarint && f.dataSize == 4 && f.tag == 6 && f.arraySize >= 3
    requires a == Num(3) && b == Num(270) && c == Num(86942)
    ensures Encode([f], [Many([a] + ([b] + [c]))]) == Some([0x32, 0x06, 0x03, 0x8E, 0x02, 0x9E, 0xA7, 0x05])
  {
    OneGroup(a.n);
    TwoGroups(b.n);
    ThreeGroups(c.n);
    Element(f, c, [], [0x9E, 0xA7, 0x05], []);
    assert [c] + [] == [c];
    Element(f, b, [c], [0x8E, 0x02], [0x9E, 0xA7, 0x05] + []);
    Element(f, a, [b] + [c], [0x03], [0x8E, 0x02] + ([0x9E, 0xA7, 0x05] + []));
    var payload: seq<byte> := [0x03] + ([0x8E, 0x02] + ([0x9E, 0xA7, 0x05] + []));
    OneGroup(f.tag * 8 + WT_STRING);
    OneGroup(|payload|);
    var items := [a] + ([b] + [c]);
    assert EncArray(f, items) == Some([0x32] + ([0x06] + payload));
    OneField(f, Many(items), [0x32] + ([0x06] + payload));
    assert [0x32] + ([0x06] + payload) == [0x32, 0x06, 0x03, 0x8E, 0x02, 0x9E, 0xA7, 0x05];
  }
}
