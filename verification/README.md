# Dafny model of the vendored nanopb and Alamofire libraries

The repository ships nanopb 0.3.9.8 and Alamofire. This project models the parts of them that hold state or
transform data. It proves that encoding and decoding are inverse to each other, which concatenations merge, and
that the calls on streams and structs compute just that; and for Alamofire, invariants of all interleavings, and
when a multipart form can be taken apart again.

**nanopb** is an encoder and decoder for the Protocol Buffers Encoding, driven by field descriptors.

| module | what it holds |
|---|---|
| `Bits`, `Varint`, `VarintFast`, `NegativeVarint` | shifts, bitwise OR and XOR, base-128 varints, zigzag, the fast 32-bit reader |
| `Descriptor` | descriptors, messages as slots, well-formedness, what can be observed of a message |
| `EncodeSpec`, `DecodeSpec` | the bytes of a message; what bytes mean as a message |
| `RoundTrip`, `Sizes`, `NormalForm`, `Merge`, `Packed`, `Delimited` | the theorems about whole messages |
| `Presence`, `Skipping` | fields that occur or not; encodings read without their descriptor, or with a part of it |
| `Limits` | what single values mean, what decoder and encoder refuse |
| `Stranded` | how far the decoder gets in a message it refuses |
| `FieldIter`, `FieldsSeen` | the cyclic field iterator and the bitset of REQUIRED fields, in place |
| `IStream`, `ScalarDecoder`, `Defaults`, `Decoder` | the decoder working on a stream and a struct in place, proved equal to `DecodeSpec` |
| `OStream`, `ScalarEncoder`, `Encoder` | the encoder working on a buffer in place, in two passes, proved equal to `EncodeSpec` |
| `WireFormat` | the examples of the Protocol Buffers Encoding documentation, byte by byte |
| `PointerArray` | allocation arithmetic and the growth of arrays on the heap |
| `EndToEnd` | encoder and decoder together, on their streams |

A message is a sequence of slots, one for each member of the C struct; the members of a oneof share one. A slot
holds what a reader of the struct can see: live array elements, the bytes of a string before its NUL. The build
settings are those of `iOS/Pods/Target Support Files/nanopb/nanopb.release.xcconfig`: descriptor fields of 32 bits
and heap allocation.

**Alamofire** is modelled as the critical sections of its classes, and as runs over all interleavings of these.

| module | what it holds |
|---|---|
| `AuthSpec`, `AuthInterceptor`, `AuthRuns`, `AuthAnswers` | the authentication interceptor: its state, its methods, its runs, what callers are answered |
| `TaskMap`, `Session` | the map of tasks and requests, and the rendezvous of metrics and completion |
| `Framing`, `MultipartSpec`, `Multipart` | multipart/form-data framing and its reading by RFC 2046, encoding in memory and to a stream |

Clocks, refresh results, stream chunks, the space in an output stream and the answers of the heap are parameters or
events, so that every statement holds for all of them.

Where something one might expect is false, there is a lemma that says exactly when it holds: `StringExact` (a string
without NUL), `ConcatIsMerge` (concatenation; examples of its exceptions are `NothingMergesAfterZeroTag` and
`FixedCountIsNoMerge`), `BodyIsSkipped` and `DecodeDelimited` (going on after a refused message; an example is
`NextStartsInside`), `Varint32OfEncoded` (the fast reader; an example is `NotOnlySignExtensions`),
`AssociationExact` (the two-way map, whose documentation promises one to one), `WhenRefreshIsRedundant` (refreshing a
replaced credential; an example is `RedundantRefresh`), `FramingExact`, `HeadersExact`, `FormIsInvertible`,
`EncodeExact` and `FileExact` (multipart forms; examples are `AppendAfterEncoding` and `SilentTruncation`).

## Model

| member | source | states |
|---|---|---|
| `RoundTrip.EncodeThenDecode` | iOS/Pods/nanopb/pb_encode.c:341-550 | For every well-formed descriptor tree and message whose encoding is below 2^32 bytes, `pb_decode` accepts what `pb_encode` wrote, consumes it all, and yields a message that no reader can tell from the original |
| `RoundTrip.MessageReads` | iOS/Pods/nanopb/pb_decode.c:928-1076 | Decoding an encoding without initialising first merges it into the message already there: last value wins, arrays are appended, submessages merge, a oneof switches its member; every REQUIRED field is found |
| `RoundTrip.FieldsRead` | iOS/Pods/nanopb/pb_decode.c:946-1024 | From any field on, the loop reads back exactly the fields that are still to come and knows which have been seen |
| `RoundTrip.FieldReads` | iOS/Pods/nanopb/pb_decode.c:406-483 | One encoded field changes its own slot to the merge of the old and the encoded value, and no other slot, in every state the loop can be in between fields |
| `RoundTrip.ValueReads` | iOS/Pods/nanopb/pb_decode.c:1519-1541 | A value of any type, submessages included, reads back merged into the place it is decoded into |
| `RoundTrip.ScalarReads` | iOS/Pods/nanopb/pb_decode.c:1328-1564 | Each scalar encoder is undone by the decoder of its type, which consumes just what was written, whatever follows |
| `RoundTrip.StringExact` | iOS/Pods/nanopb/pb_encode.c:875-899 | For any content of a string field: what is encoded reads back if and only if a NUL was found inside the field; a full field without NUL is encoded and then refused |
| `RoundTrip.CanonSame` | iOS/Pods/nanopb/pb_encode.c:240-337 | Merging a message into the defaults changes nothing a reader can observe, although proto3 fields with their default value are not written |
| `NormalForm.DecodeEncodeDecode` | iOS/Pods/nanopb/pb_decode.c:1078-1090 | Whatever bytes `pb_decode` accepts (no fixed-count arrays), the result is well-formed and encodes again; if that encoding is below 4 GiB, decoding it gives the very same message and consumes it all |
| `NormalForm.NormalFormsDecide` | iOS/Pods/nanopb/pb_decode.c:1078-1090 | Two accepted inputs mean the same message if and only if their re-encodings are the same bytes (below 4 GiB) |
| `NormalForm.BoundedNormalForm` | iOS/Pods/nanopb/pb_decode.c:1078-1090 | The same for every accepted input without looking at its size, if the descriptor allows less than 4 GiB |
| `NormalForm.MessageCanonical` | iOS/Pods/nanopb/pb_decode.c:928-1076 | Every value `pb_decode_noinit` leaves is in range of its C type and its field: counts, string ends, byte counts, oneof members |
| `NormalForm.CanonicalWf` | iOS/Pods/nanopb/pb_decode.c:839-922 | A message made of such values is well-formed, and its fields determine it |
| `NormalForm.LeftOutExactly` | iOS/Pods/nanopb/pb_encode.c:319-336 | A proto3 field is encoded to no bytes if and only if it holds zero, an empty string, empty bytes, or a submessage that is itself encoded to no bytes |
| `NormalForm.DefaultIsEmpty` | iOS/Pods/nanopb/pb_encode.c:295-312 | A submessage counts as default if and only if nothing is written for any of its fields |
| `Presence.AcceptedExactly` | iOS/Pods/nanopb/pb_decode.c:1033-1073 | `pb_decode_noinit` accepts a message if and only if the struct has the right shape, every field can be decoded, the last array without a counter is complete, and the tag of every one of the first 64 REQUIRED fields occurs where a field starts |
| `Presence.SeenAreMet` | iOS/Pods/nanopb/pb_decode.c:1015-1020 | The REQUIRED fields the loop has marked are those whose tags occurred |
| `Presence.AbsentIsDefault` | iOS/Pods/nanopb/pb_decode.c:839-909 | After `pb_decode` a field that does not occur is as declared: no flag, no elements, no member, and its data the default of the descriptor or else zero, empty, or a submessage of which the same is true |
| `Presence.AbsentUnchanged` | iOS/Pods/nanopb/pb_decode.c:946-1024 | Decoding without initialising leaves a slot alone if none of its fields occurs |
| `Presence.FlagExactly` | iOS/Pods/nanopb/pb_decode.c:418-421 | After `pb_decode` an OPTIONAL field has its flag if and only if its tag occurs, and otherwise its declared default |
| `Presence.MemberExactly` | iOS/Pods/nanopb/pb_decode.c:466-478 | After `pb_decode` a oneof holds the last of its members that occurs, and none if none does |
| `Presence.ArraysAreFull` | iOS/Pods/nanopb/pb_decode.c:991-1031 | After `pb_decode` an array without a counter has all its elements if its tag occurs, and none if not |
| `Presence.DefaultsPristine` | iOS/Pods/nanopb/pb_decode.c:911-922 | Setting a message to its defaults gives every field, at every depth, what its descriptor declares |
| `Skipping.SkipExact` | iOS/Pods/nanopb/pb_decode.c:321-331 | For each wire type the exact bytes that are skipped as its data: one varint, eight bytes, a length and as many bytes, four bytes, or none at all |
| `Skipping.ValueIsComplete` | iOS/Pods/nanopb/pb_encode.c:675-707 | Every value is encoded as one complete field: its tag with a wire type that tells exactly how long the data is |
| `Skipping.FieldTags` | iOS/Pods/nanopb/pb_encode.c:147-236 | A reader that only skips finds one tag for each value of a field, or one for a packed array |
| `Skipping.MessageTags` | iOS/Pods/nanopb/pb_encode.c:528-550 | A reader without the descriptor finds just the fields that were written, in order, up to the end of the encoding |
| `Skipping.ReadWithFewerFields` | iOS/Pods/nanopb/pb_decode.c:946-989 | With a descriptor that lacks some fields, decoding consumes the whole encoding and gives the message restricted to the others |
| `Limits.ScalarExact` | iOS/Pods/nanopb/pb_decode.c:1328-1564 | Independent of how they compute: each scalar decoder accepts a value if and only if the bytes denote it and the field can hold it, by range, by length and by NUL |
| `Limits.UnionExactly` | iOS/Pods/nanopb/pb_decode.c:1131-1162 | A member of a oneof is decoded if and only if its value can be and the member it replaces is a known one |
| `Limits.EncodesExactly` | iOS/Pods/nanopb/pb_encode.c:147-899 | `pb_encode` refuses a message if and only if some field that is written does not fit its descriptor: too many elements, too many bytes, an integer size it does not know, a submessage without descriptor |
| `Limits.BoolIsOneByte` | iOS/Pods/nanopb/pb_encode.c:776-833 | A bool is written as 0 or 1, and as 0 if and only if it is zero |
| `Sizes.MessageFits` | iOS/Pods/nanopb/pb_encode.c:528-550 | `pb_encode` succeeds on every well-formed message with no more bytes than its descriptor allows |
| `Sizes.MessageSmall` | iOS/Pods/nanopb/pb_encode.c:717-734 | All length prefixes of a well-formed message, at every depth, are within `size_t` if the whole encoding is |
| `Sizes.MessageEncodes` | iOS/Pods/nanopb/pb_encode.c:528-550 | `pb_encode` succeeds on every well-formed message, of any size |
| `Merge.ConcatIsMerge` | iOS/Pods/nanopb/pb_decode.c:944-1024 | If the first part is accepted and does not end with a zero tag: decoding a ++ b goes on where decoding a left off, and REQUIRED fields of a need not occur in b. If b is accepted after a, then decoding a ++ b is decoding a and then b into the result if and only if the first fixed-count array of b is not the non-empty one that a received last |
| `Merge.ResumeAfter` | iOS/Pods/nanopb/pb_decode.c:991-1031 | The loop over b from the state a left, and from the message alone: the same acceptance, slots and bytes left, and the REQUIRED fields of both, unless the array a completed last comes first in b, in which case a b that is accepted on its own fails |
| `Merge.LoopConcat` | iOS/Pods/nanopb/pb_decode.c:946-1024 | The loop over a ++ b is the loop over b from the state reached after a |
| `Merge.ConcatOfEncodings` | iOS/Pods/nanopb/pb_decode.c:944-1024 | The concatenation of two encodings decodes to the merge of the two messages, if the second one fits into what the first one leaves room for |
| `Merge.NothingMergesAfterZeroTag` | iOS/Pods/nanopb/pb_decode.c:310-314 | If the first part ended with a zero tag, what follows it is left on the stream and changes nothing |
| `Merge.ZeroByteEnds` | iOS/Pods/nanopb/pb_decode.c:310-314 | A zero byte where a field may start ends the message |
| `Merge.TerminatorPasses` | iOS/Pods/nanopb/pb_decode.c:960-989 | In an empty message a field with tag 0 is read as a number whatever its wire type says |
| `Merge.FixedCountIsNoMerge` | iOS/Pods/nanopb/pb_decode.c:991-1031 | One 32-bit word in a fixed-count array meets the exception: the part is accepted, and accepted again into the result, but the concatenation is refused |
| `Merge.UnknownFieldsAreTransparent` | iOS/Pods/nanopb/pb_decode.c:960-989 | Inserting a complete field with an unknown tag where a field may start changes neither acceptance nor result, even between the elements of a fixed-count array |
| `Merge.UnknownFieldForms` | iOS/Pods/nanopb/pb_decode.c:321-331 | Tags of wire types 0, 1, 2 and 5 followed by data of that type are such fields |
| `Merge.NeverStops` | iOS/Pods/nanopb/pb_encode.c:528-550 | An encoding contains no zero tag where a field may start |
| `Packed.PackedIsUnpacked` | iOS/Pods/nanopb/pb_decode.c:424-464 | For a counted array of scalars, n elements packed or tagged one by one are accepted under the same condition, old count + n <= array size, and leave the same state |
| `Delimited.StreamRoundTrip` | iOS/Pods/nanopb/pb_decode.c:1107-1120 | A list of messages written by `pb_encode_delimited` one after another is read back by repeated `pb_decode_delimited`, whatever follows |
| `Delimited.BodyIsSkipped` | iOS/Pods/nanopb/pb_decode.c:372-400 | An accepted delimited message ends exactly a length prefix and its length further on, however little of the body was consumed; a refused one if and only if it strands nothing |
| `Stranded.AcceptedStrandsNothing` | iOS/Pods/nanopb/pb_decode.c:946-1024 | Nothing is stranded by a loop that gets through |
| `Stranded.RefusedShort` | iOS/Pods/nanopb/pb_decode.c:451-452 | For a counted packed array with room for one number, the message 0A 02 01 01 is refused and the two bytes of its packed field are stranded |
| `EndToEnd.NextStartsInside` | iOS/Pods/nanopb/pb_decode.c:1107-1120 | With that message after its length and another message after it, `pb_decode_delimited` fails and leaves the stream at byte 3, inside the refused message, instead of byte 5, although just the bytes of the next message count as left |
| `WireFormat.SimpleMessage` | iOS/Pods/nanopb/pb_encode.c:608-707 | Example, for one message: the bytes of "A Simple Message" in the Protocol Buffers Encoding documentation: field 1 with 150 is 08 96 01 |
| `WireFormat.TestingString` | iOS/Pods/nanopb/pb_encode.c:709-715 | Example, for one message: the bytes of "Length-Delimited Records" there |
| `WireFormat.FixedWords` | iOS/Pods/nanopb/pb_encode.c:675-707 | Example, for one message: the tags of "Non-varint Numbers" there for field 3, 19 before eight bytes and 1D before four |
| `WireFormat.Submessage` | iOS/Pods/nanopb/pb_encode.c:717-765 | Example, for one message: the bytes of "Submessages" there |
| `WireFormat.PackedArray` | iOS/Pods/nanopb/pb_encode.c:164-205 | Example, for one message: the bytes of "Packed Repeated Fields" there |
| `IStream.IStream.FromBuffer` | iOS/Pods/nanopb/pb_decode.c:159-181 | The stream gives out the buffer |
| `IStream.IStream.Read` | iOS/Pods/nanopb/pb_decode.c:102-139 | Exactly as many bytes as asked for, or a failure that consumes nothing |
| `IStream.IStream.ReadByte` | iOS/Pods/nanopb/pb_decode.c:141-157 | The next byte, or a failure exactly at the end |
| `IStream.DecodeVarint32Eof` | iOS/Pods/nanopb/pb_decode.c:187-247 | The wrapping 8-bit shift counter and the sign-extension test in place compute the specified reader; `eof` exactly if there was not even a first byte |
| `IStream.DecodeVarint32` | iOS/Pods/nanopb/pb_decode.c:249-252 | As before, without the `eof` flag |
| `IStream.DecodeVarint` | iOS/Pods/nanopb/pb_decode.c:255-275 | The shift-and-or loop in place computes the specified 64-bit reader |
| `IStream.SkipVarintBytes` | iOS/Pods/nanopb/pb_decode.c:278-287 | Consumes up to the first byte without continuation bit, of any length |
| `IStream.DecodeTag` | iOS/Pods/nanopb/pb_decode.c:298-319 | A zero byte, and the end of the input, end the message; other failures are errors |
| `IStream.SkipFieldData` | iOS/Pods/nanopb/pb_decode.c:321-331 | Skips the data of wire types 0, 1, 2 and 5 and refuses the others |
| `IStream.MakeStringSubstream` | iOS/Pods/nanopb/pb_decode.c:372-385 | The substream gives out just the announced bytes, and substream and parent together end where the parent ended |
| `IStream.CloseStringSubstream` | iOS/Pods/nanopb/pb_decode.c:387-400 | The parent goes on exactly where the substream ended, however much of it was read |
| `ScalarDecoder.DecBool` | iOS/Pods/nanopb/pb_decode.c:1328-1331 | On the stream, equal to the decoder the round trips are proved of: any non-zero 32-bit number is true |
| `ScalarDecoder.DecVarint` | iOS/Pods/nanopb/pb_decode.c:1339-1374 | On the stream, equal to the decoder the round trips are proved of: low 32 bits for fields of up to four bytes, then refused if it does not fit the field |
| `ScalarDecoder.DecUvarint` | iOS/Pods/nanopb/pb_decode.c:1376-1398 | On the stream, equal to the decoder the round trips are proved of: refused if it does not fit the field |
| `ScalarDecoder.DecSvarint` | iOS/Pods/nanopb/pb_decode.c:1400-1422 | On the stream, equal to the decoder the round trips are proved of: zigzag, refused if it does not fit the field |
| `ScalarDecoder.DecFixed` | iOS/Pods/nanopb/pb_decode.c:1424-1434 | On the stream, equal to the decoder the round trips are proved of: little-endian words |
| `ScalarDecoder.DecBytes` | iOS/Pods/nanopb/pb_decode.c:1441-1479 | On the stream, equal to the decoder the round trips are proved of: refused if it does not fit the field with its length |
| `ScalarDecoder.DecString` | iOS/Pods/nanopb/pb_decode.c:1481-1517 | On the stream, equal to the decoder the round trips are proved of: refused if there is no room for the NUL, computed in 32 bits |
| `ScalarDecoder.DecFixedLengthBytes` | iOS/Pods/nanopb/pb_decode.c:1543-1564 | On the stream, equal to the decoder the round trips are proved of: no bytes stand for zeros, otherwise the exact size |
| `Defaults.FieldSetToDefault` | iOS/Pods/nanopb/pb_decode.c:839-909 | Counts, has_ and which_ fields are cleared, data is set to the default value, submessages recursively; only this slot changes |
| `Defaults.MessageSetToDefaults` | iOS/Pods/nanopb/pb_decode.c:911-922 | Going round with the iterator leaves every slot at its default, members of a oneof once |
| `Defaults.FieldDefault` | iOS/Pods/nanopb/pb_decode.c:882-897 | The default data of a field: what the descriptor declares, or else zero, empty, or a default submessage |
| `Decoder.DecSubmessage` | iOS/Pods/nanopb/pb_decode.c:1519-1541 | Array elements are initialised, other submessages merged; the parent stream ends after the submessage, or after a refused one short of it by what is stranded |
| `Decoder.DecodePackedItems` | iOS/Pods/nanopb/pb_decode.c:436-448 | The loop over a packed field stops at the end, at a bad element or at a full array |
| `Decoder.DecodePacked` | iOS/Pods/nanopb/pb_decode.c:424-464 | Succeeds exactly if the elements use up the field; if some of it is left, the stream stops short by the whole field |
| `Decoder.DecodeRepeated` | iOS/Pods/nanopb/pb_decode.c:422-464 | All elements of a packed field, or one more element |
| `Decoder.DecodeStaticField` | iOS/Pods/nanopb/pb_decode.c:406-483 | In place, for all four rules: the one slot gets the specified value, all others stay; where the stream ends after a failure |
| `Decoder.ReleaseUnionField` | iOS/Pods/nanopb/pb_decode.c:1131-1162 | A oneof that holds an unknown member is refused; otherwise two searches bring the iterator back to where it was |
| `Decoder.DecodeField` | iOS/Pods/nanopb/pb_decode.c:734-756 | Static fields, with the check of the old member of a oneof |
| `Decoder.TrackFixedCount` | iOS/Pods/nanopb/pb_decode.c:991-1013 | A fixed-count array may only follow another one that is complete; its count does not live in the struct |
| `Decoder.MarkField` | iOS/Pods/nanopb/pb_decode.c:1015-1020 | The bitset then holds exactly the REQUIRED fields seen, as far as they are tracked |
| `Decoder.DecodeKnownField` | iOS/Pods/nanopb/pb_decode.c:991-1023 | The loop variables before and after stand for the state the specification computes |
| `Decoder.DecodeFound` | iOS/Pods/nanopb/pb_decode.c:991-1023 | A field that has been found is marked if it is REQUIRED, and decoded |
| `Decoder.DecodeTagged` | iOS/Pods/nanopb/pb_decode.c:960-1023 | Known fields are decoded wherever the iterator stands, others skipped; the terminator of an empty descriptor passes for a field with tag 0 |
| `Decoder.DecodeFields` | iOS/Pods/nanopb/pb_decode.c:946-1024 | The loop computes the specified state, by its own variables, iterator, bitset and stream |
| `Decoder.CountRequired` | iOS/Pods/nanopb/pb_decode.c:1034-1049 | The iterator, from wherever it stands, finds the number of REQUIRED fields |
| `Decoder.CheckRequired` | iOS/Pods/nanopb/pb_decode.c:1033-1073 | The final test passes if and only if every tracked REQUIRED field occurred, in any order |
| `Decoder.AllTracked` | iOS/Pods/nanopb/pb_decode.c:1033-1073 | All indices below the number of REQUIRED fields are marked exactly if all tracked REQUIRED fields have been seen |
| `Decoder.DecodeNoinit` | iOS/Pods/nanopb/pb_decode.c:928-1076 | In place on stream and struct, equal to the function the message theorems are about: same acceptance, same struct, same bytes left; in particular it fails unless the first 64 REQUIRED fields occur; after a failure the stream stops short by exactly what is stranded |
| `Decoder.Decode` | iOS/Pods/nanopb/pb_decode.c:1078-1090 | The same from default values |
| `Decoder.DecodeDelimited` | iOS/Pods/nanopb/pb_decode.c:1107-1120 | The same for a delimited message. If its length could be read, just the bytes after the message count as left, even after a failure; the stream stands after the message if and only if nothing is stranded |
| `FieldsSeen.FieldsSeen.Mark` | iOS/Pods/nanopb/pb_decode.c:1015-1020 | Exactly the given index is added, and none beyond the capacity of 64 |
| `FieldsSeen.FieldsSeen.AllSeen` | iOS/Pods/nanopb/pb_decode.c:1051-1072 | Whole words against all ones and the rest against a shifted mask: passes if and only if every index below min(count, 64) is marked |
| `FieldsSeen.FieldsSeen.WordIsFull` | iOS/Pods/nanopb/pb_decode.c:1056-1071 | A word equals the mask of k ones exactly if its k lowest bits are set and no others |
| `FieldIter.FieldIter.Begin` | iOS/Pods/nanopb/pb_common.c:8-18 | The iterator stands on the first member of the struct; false exactly for an empty message |
| `FieldIter.FieldIter.Next` | iOS/Pods/nanopb/pb_common.c:20-76 | Summing relative distances keeps data pointer, size pointer and REQUIRED count right for every member, unions, arrays and pointers included; one step around the cycle |
| `FieldIter.FieldIter.Find` | iOS/Pods/nanopb/pb_common.c:78-95 | The first match at or after the current field within one lap; succeeds if and only if a non-extension field has the tag, and otherwise ends where it started |
| `FieldIter.Iterate` | iOS/Pods/nanopb/pb_common.c:8-18 | A new iterator stands on the first field of the struct |
| `Decoder.FindField` | iOS/Pods/nanopb/pb_common.c:78-95 | From wherever the iterator stands, the one field with the tag is found, and in an empty descriptor the terminator as tag 0 |
| `FieldIter.SlotsArePlaces` | iOS/Pods/nanopb/pb_common.c:41-73 | Two fields have the same place in the struct if and only if they share a slot of the model |
| `FieldIter.PlacesAreDetermined` | iOS/Pods/nanopb/pb_common.c:8-76 | The descriptor alone determines every place |
| `Decoder.DecSubmessageBody` | iOS/Pods/nanopb/pb_decode.c:1519-1541 | The submessage is decoded into defaults or into what is there, on its own stream |
| `Decoder.DecodeValue` | iOS/Pods/nanopb/pb_decode.c:68-81 | The decoder for the type of the field |
| `ScalarDecoder.DecScalarField` | iOS/Pods/nanopb/pb_decode.c:68-81 | The decoder for the type of the field, other than submessages |
| `FieldIter.FieldIter.Search` | iOS/Pods/nanopb/pb_common.c:78-95 | The loop of the search visits every field at most once |
| `OStream.OStream.FromBuffer` | iOS/Pods/nanopb/pb_encode.c:86-101 | The whole buffer is room |
| `OStream.BufWrite` | iOS/Pods/nanopb/pb_encode.c:74-84 | The bytes appear at the position of the stream and nowhere else |
| `OStream.PbWrite` | iOS/Pods/nanopb/pb_encode.c:103-124 | Succeeds exactly if the bytes fit or the stream only counts; nothing outside the room changes |
| `OStream.OStream.Sizing` | iOS/Pods/nanopb/pb_encode.c:567-569 | A stream that only counts |
| `OStream.OStream.Within` | iOS/Pods/nanopb/pb_encode.c:745-748 | The substream stands where the stream stands, with room for just the given size |
| `OStream.PbCount` | iOS/Pods/nanopb/pb_encode.c:737-738 | On a sizing stream the bytes are only counted |
| `ScalarEncoder.FillGroups` | iOS/Pods/nanopb/pb_encode.c:619-625 | The loop never runs out of its ten-byte buffer and leaves all groups with continuation bits |
| `ScalarEncoder.EncodeVarint` | iOS/Pods/nanopb/pb_encode.c:608-628 | Writes the minimal varint of the number or fails for want of room |
| `ScalarEncoder.ZigZagBits` | iOS/Pods/nanopb/pb_encode.c:630-639 | Shifting and complementing in 64 bits is the zigzag code |
| `ScalarEncoder.EncodeSvarint` | iOS/Pods/nanopb/pb_encode.c:630-639 | Writes the varint of the zigzag code |
| `ScalarEncoder.EncodeTag` | iOS/Pods/nanopb/pb_encode.c:669-673 | Writes field number and wire type |
| `ScalarEncoder.EncodeTagForField` | iOS/Pods/nanopb/pb_encode.c:675-707 | The wire type follows from the field type: 0 for varints, 1 and 5 for words of eight and four bytes, otherwise 2 |
| `ScalarEncoder.EncodeString` | iOS/Pods/nanopb/pb_encode.c:709-715 | Writes a length and that many bytes |
| `ScalarEncoder.EncodeFixed` | iOS/Pods/nanopb/pb_encode.c:641-667 | Writes the bytes of a word, low byte first |
| `ScalarEncoder.EncInteger` | iOS/Pods/nanopb/pb_encode.c:776-833 | Reads an integer of the size in the descriptor and refuses other sizes |
| `ScalarEncoder.EncBytes` | iOS/Pods/nanopb/pb_encode.c:852-873 | Refuses more bytes than fit the field |
| `ScalarEncoder.StringLength` | iOS/Pods/nanopb/pb_encode.c:886-896 | Stops at the first NUL or at the end of the field |
| `ScalarEncoder.EncString` | iOS/Pods/nanopb/pb_encode.c:875-899 | Writes the bytes before the NUL |
| `Encoder.PayloadSize` | iOS/Pods/nanopb/pb_encode.c:169-189 | 4 * count, 8 * count and the sizing pass all give the number of bytes the elements really take |
| `Encoder.EncodeSizedPayload` | iOS/Pods/nanopb/pb_encode.c:169-204 | The length prefix is that number, on a sizing stream and on a real one |
| `Encoder.EncodePayload` | iOS/Pods/nanopb/pb_encode.c:197-204 | The elements one after another, up to the first that fails |
| `Encoder.EncodePacked` | iOS/Pods/nanopb/pb_encode.c:164-205 | Tag, length and elements |
| `Encoder.EncodeUnpacked` | iOS/Pods/nanopb/pb_encode.c:208-233 | A tag and an element at a time |
| `Encoder.EncodeTagged` | iOS/Pods/nanopb/pb_encode.c:370-373 | A tag and a value |
| `Encoder.EncodeValue` | iOS/Pods/nanopb/pb_encode.c:55-67 | The encoder for the type of the field |
| `ScalarEncoder.EncScalarField` | iOS/Pods/nanopb/pb_encode.c:55-67 | The encoder for the type of the field, other than submessages |
| `Encoder.EncodeArray` | iOS/Pods/nanopb/pb_encode.c:147-236 | Packed if the type allows it; more elements than the array holds are refused |
| `Encoder.CheckProto3Default` | iOS/Pods/nanopb/pb_encode.c:240-337 | Going through all fields of a submessage with the iterator decides whether it is all default values |
| `Encoder.AllFieldsDefault` | iOS/Pods/nanopb/pb_encode.c:302-311 | The loop over the fields of a submessage decides whether all are default values |
| `Encoder.EncodeField` | iOS/Pods/nanopb/pb_encode.c:450-465 | One more field is written after those before it |
| `Encoder.EncodeFields` | iOS/Pods/nanopb/pb_encode.c:528-550 | The loop of `pb_encode`, with the iterator on the first field |
| `Encoder.IsPresent` | iOS/Pods/nanopb/pb_encode.c:350-364 | Whether an optional field is written |
| `Encoder.EncodeBasicField` | iOS/Pods/nanopb/pb_encode.c:341-426 | Written or left out by the rule of the field; exact bytes, exact failure condition |
| `Encoder.Encode` | iOS/Pods/nanopb/pb_encode.c:528-550 | Succeeds exactly if the message can be encoded and its bytes fit, writes exactly these bytes after what is there, and touches nothing beyond |
| `Encoder.SizeOf` | iOS/Pods/nanopb/pb_encode.c:567-576 | The sizing stream finds exactly the size of the encoding, and fails exactly if there is none |
| `Encoder.EncodeBody` | iOS/Pods/nanopb/pb_encode.c:740-764 | On a substream of just the computed size the second pass writes that size at every depth, so that the size check at the end never fails |
| `Encoder.EncodeSubmessage` | iOS/Pods/nanopb/pb_encode.c:717-765 | Both passes together write a length prefix and the message |
| `Encoder.EncodeDelimited` | iOS/Pods/nanopb/pb_encode.c:552-555 | The same for a message on its own |
| `EndToEnd.EncodeToBuffer` | iOS/Pods/nanopb/pb_encode.c:567-576 | A buffer is enough if and only if it holds the size found without writing; then exactly that many bytes, the encoding, are written |
| `EndToEnd.Transfer` | iOS/Pods/nanopb/pb_decode.c:1078-1090 | On real streams: every well-formed message fits a buffer if and only if its encoding is no longer, and what was written to a buffer is decoded to an equal message |
| `Varint.Varint64Exact` | iOS/Pods/nanopb/pb_decode.c:255-275 | Accepts if and only if a byte without continuation bit is among the first ten, and returns the base-128 sum modulo 2^64 and the bytes after it |
| `Varint.Varint64Sum` | iOS/Pods/nanopb/pb_decode.c:260-272 | The loop adds up the groups, keeping one bit of the tenth |
| `Varint.EncVarintMeaning` | iOS/Pods/nanopb/pb_encode.c:608-628 | What is written is one complete varint that denotes the number |
| `Varint.EncVarintMinimal` | iOS/Pods/nanopb/pb_encode.c:608-628 | No group sequence for the same number is shorter |
| `Varint.EncVarintFits` | iOS/Pods/nanopb/pb_encode.c:610 | At most ten bytes for a 64-bit number |
| `Varint.Varint64OfEncoded` | iOS/Pods/nanopb/pb_decode.c:255-275 | What the encoder writes is read back, with nothing else consumed |
| `Varint.SkipVarintOfEncoded` | iOS/Pods/nanopb/pb_decode.c:278-287 | Skipping consumes just what was written |
| `VarintFast.Varint32OfEncoded` | iOS/Pods/nanopb/pb_decode.c:187-247 | For all 64-bit numbers: the fast reader returns the number modulo 2^32 if it is below 2^32 or passes the sign test, and fails otherwise |
| `VarintFast.HighGroups` | iOS/Pods/nanopb/pb_decode.c:219-227 | From bit 35 on the fast reader goes on exactly through groups that are all zeros or all ones, to a tenth byte, if bit 31 is set |
| `VarintFast.FastRefinesSlow` | iOS/Pods/nanopb/pb_decode.c:187-275 | It agrees with the 64-bit reader modulo 2^32 below 2^32 and from 2^64 - 2^31 on, and fails for everything from 2^32 up to 2^63 |
| `VarintFast.SignExtensionPasses` | iOS/Pods/nanopb/pb_decode.c:219-227 | All sign extensions of negative 32-bit numbers pass the test |
| `VarintFast.NotOnlySignExtensions` | iOS/Pods/nanopb/pb_decode.c:219-241 | A ten-byte number that is no sign extension passes too, and reads as -1: bits 32 to 34 are not looked at |
| `VarintFast.PaddingWraps` | iOS/Pods/nanopb/pb_decode.c:200-240 | After 37 groups of zeros the 8-bit counter has wrapped around, and a one is read at bit 3 |
| `NegativeVarint.EncodeNegativeVarint` | iOS/Pods/nanopb/pb_encode.c:583-605 | Emits the same ten bytes as the 64-bit encoder does for the sign extension |
| `NegativeVarint.FillNegative` | iOS/Pods/nanopb/pb_encode.c:586-602 | The loop never runs out of its ten-byte buffer |
| `NegativeVarint.StepShifts` | iOS/Pods/nanopb/pb_encode.c:590-600 | Setting the missing ones after each shift keeps the 32-bit value a window of the 64-bit one |
| `NegativeVarint.ShiftGroup` | iOS/Pods/nanopb/pb_encode.c:590-600 | One trip through the loop moves the 64-bit number by a group |
| `PointerArray.SizeTooLarge` | iOS/Pods/nanopb/pb_decode.c:507-522 | The test that avoids the division unless a factor has more than half the bits rejects exactly the sizes whose product overflows |
| `PointerArray.AllocateField` | iOS/Pods/nanopb/pb_decode.c:490-533 | A zero size and an overflowing product fail without a request; otherwise the heap is asked for the product, and may refuse at any call. A failure leaves the old allocation, a success keeps the elements in use |
| `PointerArray.Grow` | iOS/Pods/nanopb/pb_decode.c:622-638 | Room for one more element: no request, or one for the number guessed from the bytes left; size < allocated_size <= PB_SIZE_MAX, inside the allocation |
| `PointerArray.DecodeItems` | iOS/Pods/nanopb/pb_decode.c:611-650 | For every heap: succeeds if and only if a static array with room for PB_SIZE_MAX elements would accept the field and the heap grants all requests; makes just the requests up to the first refusal; never writes outside the allocation, and elements received before a failure stay |
| `PointerArray.FixedWantsOnce` | iOS/Pods/nanopb/pb_decode.c:622-632 | For fixed-width numbers the guess is right: one request makes room for the whole field |
| `PointerArray.DecodePackedPointer` | iOS/Pods/nanopb/pb_decode.c:597-655 | The same for the whole field; its substream is closed in any case, so that the stream goes on after the field |
| `PointerArray.DecodeOnePointer` | iOS/Pods/nanopb/pb_decode.c:656-672 | One more element of any type: fails for a counter at its maximum, a refused request, or a bad element, which is counted all the same; strings and bytes make a request of their own |
| `PointerArray.DecodeBlob` | iOS/Pods/nanopb/pb_decode.c:1441-1517 | Bytes and strings of pointer type: no limit from the field, a request for the length word or the NUL too, made only if all bytes are there |
| `PointerArray.BlobHasRoom` | iOS/Pods/nanopb/pb_decode.c:1441-1517 | The allocation has room for the bytes read and their length word, or the NUL |
| `PointerArray.DecodeElement` | iOS/Pods/nanopb/pb_decode.c:535-551 | The decoder for the type of the element, submessages from their defaults |
| `AuthInterceptor.AuthenticationInterceptor.IsRefreshExcessive` | iOS/Pods/Alamofire/Source/AuthenticationInterceptor.swift:356-369 | The loop decides whether there are at least maximumAttempts timestamps no earlier than now - interval |
| `AuthInterceptor.AuthenticationInterceptor.StartRefresh` | iOS/Pods/Alamofire/Source/AuthenticationInterceptor.swift:331-354 | Too many refreshes turn down everybody who waits; otherwise one refresh is dispatched and its time recorded |
| `AuthInterceptor.AuthenticationInterceptor.HandleRefreshSuccess` | iOS/Pods/Alamofire/Source/AuthenticationInterceptor.swift:371-387 | The new credential is stored and everybody who waited is handed to one block |
| `AuthInterceptor.AuthenticationInterceptor.HandleRefreshFailure` | iOS/Pods/Alamofire/Source/AuthenticationInterceptor.swift:389-403 | The credential stays and everybody who waited is handed to one block with the error |
| `AuthInterceptor.AuthenticationInterceptor.Adapt` | iOS/Pods/Alamofire/Source/AuthenticationInterceptor.swift:251-290 | Deferred while refreshing or if the credential requires a refresh; otherwise an outcome at once |
| `AuthInterceptor.AuthenticationInterceptor.BeginRetry` | iOS/Pods/Alamofire/Source/AuthenticationInterceptor.swift:294-318 | The answers given without the lock, and the credential read without it: DoNotRetry exactly if there was no response or another error, Retry exactly if the credential was an old one |
| `AuthInterceptor.AuthenticationInterceptor.FinishRetry` | iOS/Pods/Alamofire/Source/AuthenticationInterceptor.swift:320-326 | The caller waits, and starts a refresh if there is none |
| `AuthRuns.EveryRun` | iOS/Pods/Alamofire/Source/AuthenticationInterceptor.swift:251-403 | After every interleaving of callers, lock sections, queued blocks and refresh results: each caller is in exactly one place (a waiting queue, a block, about to be called, or called); callers of adapt are called with a request or an error, callers of retry with a retry decision; isRefreshing holds if and only if exactly one refresh is dispatched or under way; callers wait only while refreshing; no closed interval as long as the window holds more than maximumAttempts refreshes |
| `AuthAnswers.EveryAnswer` | iOS/Pods/Alamofire/Source/AuthenticationInterceptor.swift:251-403 | After every run the history of each caller decides its answer: Retry exactly after an old credential or after a refresh it waited for was answered by success; DoNotRetry exactly without a response or after another error; an error exactly that of the refresh it waited for, of an excessive refresh, or of a missing credential; Adapted exactly with the credential found when there was no reason to wait. Those who wait, or are handed to a block, do so in order of arrival; the credential is the last one set |
| `AuthAnswers.OneAnswer` | iOS/Pods/Alamofire/Source/AuthenticationInterceptor.swift:251-403 | No history deserves two answers |
| `AuthAnswers.StepTells` | iOS/Pods/Alamofire/Source/AuthenticationInterceptor.swift:251-403 | Each step, for every event, keeps the places of the callers and their answers in accord with their histories |
| `AuthAnswers.RefusedAtRate` | iOS/Pods/Alamofire/Source/AuthenticationInterceptor.swift:356-369 | A refresh is refused as excessive if and only if the closed interval that ends at the check holds at least maximumAttempts of them |
| `AuthAnswers.CredentialIsLatest` | iOS/Pods/Alamofire/Source/AuthenticationInterceptor.swift:371-387 | The credential is the last one that the application or a refresh set |
| `AuthRuns.StepKeepsCallers` | iOS/Pods/Alamofire/Source/AuthenticationInterceptor.swift:251-403 | Each step moves callers between places and never loses, doubles or invents one |
| `AuthRuns.StepKeepsKinds` | iOS/Pods/Alamofire/Source/AuthenticationInterceptor.swift:251-403 | Each step keeps callers of adapt and of retry apart, wherever they wait |
| `AuthRuns.StepKeepsOneRefresh` | iOS/Pods/Alamofire/Source/AuthenticationInterceptor.swift:331-403 | Each step keeps at most one refresh, counted by isRefreshing; the number of recorded timestamps is the number of refreshes ever started |
| `AuthRuns.StepKeepsSpaced` | iOS/Pods/Alamofire/Source/AuthenticationInterceptor.swift:331-369 | Each step keeps any maximumAttempts + 1 refreshes farther apart than the interval, although check and timestamp read the clock separately |
| `AuthRuns.RateIsBounded` | iOS/Pods/Alamofire/Source/AuthenticationInterceptor.swift:356-369 | Such timestamps never exceed the rate in any interval |
| `AuthRuns.NothingIsForgotten` | iOS/Pods/Alamofire/Source/AuthenticationInterceptor.swift:251-403 | When nothing is left to happen, every caller has been called exactly once |
| `AuthRuns.WhenRefreshIsRedundant` | iOS/Pods/Alamofire/Source/AuthenticationInterceptor.swift:308-326 | A replaced credential is refreshed if and only if a caller of retry read it before it was replaced, no refresh is in progress and the rate allows one |
| `AuthRuns.RedundantRefresh` | iOS/Pods/Alamofire/Source/AuthenticationInterceptor.swift:308-326 | A run in which that happens |
| `TaskMap.RequestTaskMap.SetTaskOf` | iOS/Pods/Alamofire/Source/RequestTaskMap.swift:47-66 | The three dictionaries change together, or the missing request is a fatal error |
| `TaskMap.RequestTaskMap.SetRequestOf` | iOS/Pods/Alamofire/Source/RequestTaskMap.swift:68-87 | The same by task |
| `TaskMap.RequestTaskMap.DisassociateAfterMetrics` | iOS/Pods/Alamofire/Source/RequestTaskMap.swift:115-125 | Metrics first are noted; metrics after completion remove the entry; metrics for a second time, or for an unknown entry, are fatal |
| `TaskMap.RequestTaskMap.DisassociateAfterCompletion` | iOS/Pods/Alamofire/Source/RequestTaskMap.swift:127-147 | The same for completions |
| `TaskMap.AssociationExact` | iOS/Pods/Alamofire/Source/RequestTaskMap.swift:47-66 | A new association keeps the map one to one if and only if neither side belongs to somebody else |
| `TaskMap.AssociateThenRemove` | iOS/Pods/Alamofire/Source/RequestTaskMap.swift:47-87 | Either way of removing an association undoes either way of making it |
| `TaskMap.DisassociationKeeps` | iOS/Pods/Alamofire/Source/RequestTaskMap.swift:47-87 | Removing keeps the map one to one, with events for the same tasks, from whichever side |
| `TaskMap.RemovalFatal` | iOS/Pods/Alamofire/Source/RequestTaskMap.swift:47-87 | Removing from either side is a fatal error if and only if nobody on the other side belongs to it |
| `TaskMap.CountsAgree` | iOS/Pods/Alamofire/Source/RequestTaskMap.swift:89-107 | Both dictionaries have the same size, as count and isEmpty insist |
| `TaskMap.EventCountAgrees` | iOS/Pods/Alamofire/Source/RequestTaskMap.swift:96-113 | And so do the events, as eventCount insists |
| `Session.Session.DidGatherMetrics` | iOS/Pods/Alamofire/Source/Session.swift:1223-1232 | A completion that waited is run once the metrics are there |
| `Session.Session.DidComplete` | iOS/Pods/Alamofire/Source/Session.swift:1234-1244 | A completion is run at once if the metrics are there, and waits otherwise |
| `Session.EveryRun` | iOS/Pods/Alamofire/Source/Session.swift:1223-1244 | After every run with fresh tasks and at most one event of each kind per task: the maps are inverse to each other, with events for the same tasks; exactly the tasks completed without metrics have a waiting completion; each completion has run once if both events came and otherwise not; and no further event is a fatal error |
| `Session.FatalExactly` | iOS/Pods/Alamofire/Source/Session.swift:1223-1244 | After every run an event is a fatal error if and only if its task was never created or has had an event of that kind |
| `Session.OrderIsIrrelevant` | iOS/Pods/Alamofire/Source/Session.swift:1223-1244 | The two events of a task lead to the same state in either order |
| `Framing.FormIsInvertible` | iOS/Pods/Alamofire/Source/MultipartFormData.swift:322-400 | Splitting the output by section 5.1.1 of RFC 2046 and reading the header lines recovers every header and every body, in order, if and only if no part contains a delimiter and all header lines are legible |
| `Framing.FramingExact` | iOS/Pods/Alamofire/Source/MultipartFormData.swift:64-77 | For a boundary without CR, splitting recovers the contents of all parts if and only if none contains a line break, two hyphens and the boundary |
| `Framing.HeadersExact` | iOS/Pods/Alamofire/Source/MultipartFormData.swift:394-400 | The headers and the body of a part are recovered if and only if no header line contains a line break and no name contains a separator |
| `Framing.PartsRead` | iOS/Pods/Alamofire/Source/MultipartFormData.swift:375-400 | The same for all parts |
| `Framing.PartsWrittenBack` | iOS/Pods/Alamofire/Source/MultipartFormData.swift:375-400 | Parts that are read are written as they were, so that nothing else is read as the same parts |
| `Framing.SplitStep` | iOS/Pods/Alamofire/Source/MultipartFormData.swift:375-400 | A part without a delimiter is found whole, and reading goes on after it |
| `Framing.GeneratedIsBoundary` | iOS/Pods/Alamofire/Source/MultipartFormData.swift:57-62 | A generated boundary is one for RFC 2046 and has no CR |
| `Framing.GeneratedIsInjective` | iOS/Pods/Alamofire/Source/MultipartFormData.swift:57-62 | Different pairs of random words give different boundaries |
| `MultipartSpec.FreshForm` | iOS/Pods/Alamofire/Source/MultipartFormData.swift:322-338 | The first encoding of a form is its framing, however the streams cut their bytes into chunks |
| `MultipartSpec.EncodeExact` | iOS/Pods/Alamofire/Source/MultipartFormData.swift:322-338 | Boundary flags are sticky: encoding gives the framing of the parts if and only if no part but the last was the last one of an earlier encoding |
| `Multipart.AppendAfterEncoding` | iOS/Pods/Alamofire/Source/MultipartFormData.swift:322-338 | That happens: a form with an empty part is encoded, gets another part and is encoded again, which succeeds with bytes that are not the framing of the two parts |
| `MultipartSpec.FileExact` | iOS/Pods/Alamofire/Source/MultipartFormData.swift:347-371 | For any streams, chunks and partial writes: writing succeeds with the bytes encode() returns if and only if every body stream is sound (unbroken and of the announced length) and the output stream has space whenever it is looked at |
| `MultipartSpec.FileWithSpace` | iOS/Pods/Alamofire/Source/MultipartFormData.swift:347-371 | On an output stream that always has space, writing fails if and only if a body stream breaks, and agrees with encode() if and only if all are sound: a body of another length than announced is written, while encode() refuses it |
| `MultipartSpec.EncodesSound` | iOS/Pods/Alamofire/Source/MultipartFormData.swift:402-431 | encode() accepts exactly the forms whose streams are all sound |
| `MultipartSpec.FirstError` | iOS/Pods/Alamofire/Source/MultipartFormData.swift:402-431 | encode() fails with the error of the first part that is not sound: a failed read, or an unexpected length |
| `MultipartSpec.ReadsExactly` | iOS/Pods/Alamofire/Source/MultipartFormData.swift:402-431 | What is read of a body stream, in terms of the reads themselves: the bytes before the first read that yields none, without an error if and only if no read fails before the end is found |
| `MultipartSpec.WritesExactly` | iOS/Pods/Alamofire/Source/MultipartFormData.swift:347-371 | writeEncodedData succeeds if and only if no body stream breaks and the output stream does not fail when it is looked at |
| `MultipartSpec.PushExact` | iOS/Pods/Alamofire/Source/MultipartFormData.swift:493-508 | Writing a buffer succeeds if and only if the output stream did not fail when it was looked at; the buffer arrives whole if and only if bytes were accepted at every attempt, and otherwise a prefix of it does |
| `MultipartSpec.SilentTruncation` | iOS/Pods/Alamofire/Source/MultipartFormData.swift:496 | An output stream without space at first drops the initial boundary without an error |
| `Multipart.EncodeBodyStream` | iOS/Pods/Alamofire/Source/MultipartFormData.swift:402-431 | All bytes up to the end of the stream; an error if and only if a read fails before the end is found, or the length is another; what is left of the stream |
| `Multipart.EncodeBodyPart` | iOS/Pods/Alamofire/Source/MultipartFormData.swift:375-392 | Boundary by the flags of the part, headers, body, final boundary |
| `Multipart.EncodeAll` | iOS/Pods/Alamofire/Source/MultipartFormData.swift:332-337 | The loop over the parts, and which of them have been read |
| `Multipart.MultipartFormData.SetFlags` | iOS/Pods/Alamofire/Source/MultipartFormData.swift:329-330 | The first part is flagged as first, the last as last, and no flag is taken back |
| `Multipart.Encode` | iOS/Pods/Alamofire/Source/MultipartFormData.swift:322-338 | Flags the first and the last part in place and encodes all parts, or fails with the first error; the flags stay, and the streams of the parts it came to have been read |
| `Multipart.Write` | iOS/Pods/Alamofire/Source/MultipartFormData.swift:493-508 | The loop over what is left of the buffer, ended silently by a lack of space |
| `Multipart.WriteBodyStream` | iOS/Pods/Alamofire/Source/MultipartFormData.swift:452-476 | Writes each chunk before the next is read, without a check of the length; succeeds if and only if no read fails before the end is found and the output stream does not fail |
| `Multipart.WriteBodyPart` | iOS/Pods/Alamofire/Source/MultipartFormData.swift:435-484 | Boundary, headers, chunks and final boundary one after another, up to the first error |
| `Multipart.WriteHead` | iOS/Pods/Alamofire/Source/MultipartFormData.swift:442-450 | Boundary and headers, up to the first error |
| `Multipart.WriteTail` | iOS/Pods/Alamofire/Source/MultipartFormData.swift:478-482 | The final boundary, if the part has it |
| `Multipart.WriteAll` | iOS/Pods/Alamofire/Source/MultipartFormData.swift:368-370 | The loop over the parts, up to the first error |
| `Multipart.WriteEncodedData` | iOS/Pods/Alamofire/Source/MultipartFormData.swift:347-371 | The same for the whole form |
| `Multipart.MultipartFormData.Append` | iOS/Pods/Alamofire/Source/MultipartFormData.swift:307-310 | A new last part without flags |

## Left out

- nanopb callback fields, extension fields and custom stream callbacks: user code of unknown behaviour.
- nanopb pointer fields other than arrays, and releasing memory: a heap of C objects is not modelled, and the submessages in a pointer array hold no pointers themselves.
- Error message strings, the workaround for AVR, and builds with packed structs or unpacked arrays.
- Fields of struct memory by address: a nested struct is copied out of its slot and back, so that two pointers into the same struct are not modelled; the places themselves are those of `FieldIter`.
- Floats are bit patterns of 32 and 64 bits.
- The wrap-around of `size_t`: sizes are unbounded natural numbers, and encoding is stated for messages whose length prefixes fit 64 bits (`Small`), which `MessageSmall` shows of all well-formed messages whose encoding is below 2^64 bytes.
- Decoder.Decode: says nothing of the contents of a struct after a failed decoding, only where the stream then ends; likewise the other methods of the decoder.
- The old elements of a fixed-count array after a reset: they count as unknown, so that encoding a message is modelled only when all its elements are known.
- Encoder.Encode: is stated for messages whose length prefixes fit 64 bits (`Small`); and a fixed-count array is written with the elements that are known, whereas the source always writes array_size elements; both are the same for well-formed messages.
- NormalForm.DecodeEncodeDecode: excludes fixed-count arrays, which keep old or undefined elements if they do not occur in the input.
- Multipart.WriteEncodedData: says nothing of what is left of the body streams after writing, as encode() does.
- `pb_decode_nullterminated`, `pb_encode_nullterminated` and `pb_decode_delimited_noinit`: thin variants of what is modelled.
- AuthRuns.EveryRun: each refresh is answered once, and time is a real number; rounding of floating-point time is not modelled.
- The request, session and URL types of Alamofire: callers, tasks, requests and credentials are numbers, and what an authenticator answers is an input.
- Session.EveryRun: the branch for platforms that gather metrics; on others an entry is removed at completion.
- Files, MIME types and the text of Content-Disposition headers: headers are given as names and values in bytes.
- Opening and closing body streams: a stream that is read again goes on where it was.
- The rest of Alamofire (server trust, event monitors, parameter encoding, redirects, caching, response serialisation) and the app's own screens and Firebase calls: forwarding, platform calls and user interface.
