# Movieskip: the protocol code it ships

Movieskip's own Swift is user interface; the hard logic it ships is in two vendored
components, and this project models those.

**nanopb** turns a C struct into protocol buffer bytes and back, driven by a table of
field descriptors. `Wire`, `Encoding` and `Decoding` say on plain values what the bytes
of a message are and what a decoder must make of any bytes. `InputStream`,
`ScalarDecoder`, `MessageDecoder`, `OutputStream`, `MessageEncoder`, `FieldIterator` and
`RequiredFields` are the C functions with their loops, cursors, counters, buffers and
bitmaps, each proved equal to that description on every input. On top of it stand the
theorems about whole messages: encoding and decoding are inverse (`RoundTrip`,
`EndToEnd`), decoding merges (`DecodeOfEncode`, `Composition`, and `RecordLaws` for records
of any bytes), unknown fields are transparent, also to a reader that knows none of the
fields of the writer (`Composition`, `UnknownFields`), packed and unpacked arrays are
interchangeable (`PackedArrays`), arrays and values stay in bounds (`Capacity`), whatever
has been decoded can be encoded and decoded again (`Redecoding`), and the two varint
decoders agree (`Varint32`). `EncodedForm` says what encodings look like: examples byte by
byte, the order of the fields, what is left out and what a reader fills in for it.

The format is that of the "Encoding" chapter of the Protocol Buffers documentation
("Base 128 Varints", "Signed Integers", "Length-Delimited Records", "Packed Repeated
Fields", "Last One Wins").

**Alamofire** queues requests around a refresh of their credential
(`AuthenticationInterceptor`; `AuthenticationOutcomes` says what their completions are called
with), runs a request's response serializers one after the other
(`ResponseSerializers`), tells stream handlers when all data has been parsed
(`StreamCompletion`), and encodes multipart forms in memory or to a stream (`Multipart`,
`MultipartSplit`; the format is that of section 5.1.1 of RFC 2046). Each closure executed
under a lock is one atomic step; what is dispatched to a queue is pending work, and any
pending work may go on next. That allows more interleavings than serial queues do, and
the invariants hold for all of them.

How the parts fit:

- A message is a sequence of slots, one for each field of its descriptor. A C union is
  kept in the slot of its first member.
- `MessageDecoder` writes into an object, `Struct`, slot by slot. A submessage is decoded
  into a `Struct` of its own and then put into its slot.
- `OutputStream.Emitted` relates a stream before and after a call: how many bytes were
  counted, where they are, and which memory is as it was. A buffer encoding succeeds
  exactly when the size that the sizing pass finds fits the room left, and "submsg size
  changed" cannot occur.
- The descriptor is one the generator can produce (`Descriptor.WellFormed`): tags are
  nonzero, unique and below 2^29, arrays and unions have their counter.
- The build of this repository defines `PB_FIELD_32BIT`, so `pb_size_t` has 32 bits.

Where the code does not do what one would expect of it, there is a sequence of steps or an
input that shows it, and a lemma that says exactly when it does:

- A string that fills its buffer without a terminator is encoded but cannot be decoded
  into the same descriptor (`RoundTrip.UnterminatedIsLost`); decoding succeeds if and only
  if all strings are terminated (`RoundTrip.DecodeRestores`).
- The 32-bit varint decoder takes some 64-bit numbers that are neither below 2^32 nor
  sign-extended, such as 0x8000000080000000 (`Varint32.AcceptsHalfExtended`): with
  bits 31 and 63 set, each group of seven bits from bit 35 on may be all zeros or all ones,
  and bits 32 to 34 are not looked at (`Varint32.Canonical` has the exact set).
- A field without has_ flag that holds zero is not written. What it held is restored all the
  same, unless the descriptor gives it a default of its own: then it reads back as that
  (`RoundTrip.ZeroRestored`, `RoundTrip.Restores`).
- In an empty descriptor the search for tag 0 finds the terminator, which reads as a
  required bool, so a record with tag 0 is not skipped but decoded as one
  (`Composition.ZeroTagIsNotTransparent`). Records that no field claims are transparent, be
  their tag zero or not, if and only if the descriptor has fields
  (`Composition.TransparentExactly`).
- A submessage without has_ flag that has nothing to emit is left out, but not if it has a
  union whose tag is that of no member: then its field is emitted with an empty payload
  (`EndToEnd.EmptyButNotZero`). Such a union reads back as unset (`RoundTrip.Restores`).
- An array element that comes when its array is full is an error, and no element is written
  beyond the capacity; but the counter of the array is raised first, and is left one beyond
  the capacity (`MessageDecoder.DecodeElement`).
- A retry that has read the credential before another refresh replaced it starts a second
  refresh with the replaced credential (`AuthenticationInterceptor.RefreshesAgain`),
  although the documentation of `isRequest(_:authenticatedWith:)` says none is needed.
  While the credential is not replaced under such a retry, only the current credential is
  refreshed in any run; once it has been, a refresh of the old one can follow, unless the
  window allows no refreshes at all (`CurrentExactly`, `DisturbedExactly`).
- A response serializer appended between the search for the next one and the drain is
  dropped, and two appended right after a drain execute the first of them twice. Appending,
  finishing and retrying lose no serializer, put none out of turn and set none to work
  twice if and only if the guard in `ResponseSerializers.Orderly` holds
  (`ResponseSerializers.OrderlyExactly`).
- A request cancelled while a retry that a serializer asked for is pending may never call
  any completion again (`ResponseSerializers.GetsStuck`). It is stuck if and only if it is
  cancelled, counts as finishing, has not been drained before, has nothing at work, and no
  retry has found it not yet cancelled and is about to reset it; in all other cases what the
  chain holds can still be called (`ResponseSerializers.CallsUnlessStuck`).
- Data received while completions that were put off are on their way to the handlers can
  be overtaken by them. Receiving data is harmless if and only if no such completions are
  on their way or there is no handler (`StreamCompletion.HarmlessExactly`).
- Encoding a multipart form a second time after appending to it yields data that does not
  split any more, and a form splits into its parts if and only if no header name contains a
  colon and a space, no body contains the delimiter, and no part but the last has been the
  last one in an encoding before
  (`MultipartSplit.SplitRecoversParts`, `MultipartSplit.EncodingAgain`).
- Encoding to a stream that runs out of room writes what fits and reports success. All of
  the form is written if and only if it fits (`Multipart.TookAll`).

## Model

| member | source | states |
|---|---|---|
| Wire.VarintRoundTrip | Movieskip/Pods/nanopb/pb_encode.c:608-628 | for every 64-bit value, decoding its varint gives it back and consumes exactly its bytes, whatever follows |
| Wire.VarintFitsBuffer | Movieskip/Pods/nanopb/pb_encode.c:610 | ten bytes are enough for every 64-bit value |
| Wire.VarintPrefixFree | Movieskip/Pods/nanopb/pb_encode.c:608-628 | no varint is a proper prefix of another |
| Wire.ZigzagRoundTrip | Movieskip/Pods/nanopb/pb_decode.c:1269-1281 | for every int64, undoing the zigzag mapping is the identity |
| Wire.LittleEndianRoundTrip | Movieskip/Pods/nanopb/pb_decode.c:1283-1315 | fixed words survive being written and read in little-endian order |
| Wire.ReadersExtend | Movieskip/Pods/nanopb/pb_decode.c:102-276 | a read that succeeds does not depend on what comes behind the bytes it consumes |
| Wire.SkipExtends | Movieskip/Pods/nanopb/pb_decode.c:278-331 | skipping does not depend on what comes behind the skipped field |
| Wire.Varint32Consumes | Movieskip/Pods/nanopb/pb_decode.c:187-247 | a 32-bit varint read consumes up to the first byte without a continuation bit |
| Varint32.DecodersAgree | Movieskip/Pods/nanopb/pb_decode.c:187-276 | when the 32-bit and the 64-bit decoder both accept an input they consume the same bytes and agree modulo 2^32 |
| Varint32.Canonical | Movieskip/Pods/nanopb/pb_decode.c:187-247 | of every encoded 64-bit value, exactly when the 32-bit decoder accepts it and with what result |
| Varint32.AcceptedRanges | Movieskip/Pods/nanopb/pb_decode.c:221-242 | every value below 2^32 and every sign-extended negative int32 is accepted, every value from 2^32 up to 2^63 rejected |
| Varint32.AcceptsHalfExtended | Movieskip/Pods/nanopb/pb_decode.c:221-242 | a 64-bit number neither below 2^32 nor sign-extended that the 32-bit decoder accepts |
| InputStream.IStream.BufRead | Movieskip/Pods/nanopb/pb_decode.c:87-100 | copies count bytes from the cursor on, touches nothing else in the destination, and moves the cursor |
| InputStream.IStream.Read | Movieskip/Pods/nanopb/pb_decode.c:102-137 | succeeds exactly when enough bytes are left; cursor and bytes_left move together; a failed read moves nothing |
| InputStream.IStream.ReadByte | Movieskip/Pods/nanopb/pb_decode.c:141-157 | yields the next byte if there is one |
| InputStream.IStream.DecodeVarint32Eof | Movieskip/Pods/nanopb/pb_decode.c:187-247 | equals the 32-bit varint of the format on every input, and reports the end of the stream exactly when no byte is left |
| InputStream.IStream.DecodeVarint32 | Movieskip/Pods/nanopb/pb_decode.c:249-252 | the same without the report |
| InputStream.IStream.DecodeVarint | Movieskip/Pods/nanopb/pb_decode.c:255-276 | equals the 64-bit varint of the format on every input: at most ten groups, bits above the 64th dropped |
| InputStream.IStream.SkipVarint | Movieskip/Pods/nanopb/pb_decode.c:278-287 | passes over one varint of any length |
| InputStream.IStream.SkipString | Movieskip/Pods/nanopb/pb_decode.c:289-296 | passes over a length and as many bytes, if there are so many |
| InputStream.IStream.SkipField | Movieskip/Pods/nanopb/pb_decode.c:321-331 | passes over the payload that the wire type announces; wire types 3, 4, 6 and 7 are errors |
| InputStream.IStream.DecodeTag | Movieskip/Pods/nanopb/pb_decode.c:298-319 | splits a key into tag and wire type; end of message exactly at the end of the stream or at a zero key |
| InputStream.IStream.MakeStringSubstream | Movieskip/Pods/nanopb/pb_decode.c:372-385 | the substream holds exactly the length-delimited payload, and behind it is what the parent has left |
| InputStream.IStream.CloseStringSubstream | Movieskip/Pods/nanopb/pb_decode.c:387-400 | the parent is left exactly behind the payload, however much of it has been read |
| InputStream.OrNextGroup | Movieskip/Pods/nanopb/pb_decode.c:269 | or-ing in a shifted group is adding it, as far as it fits 64 bits |
| FieldIterator.Iterator.Begin | Movieskip/Pods/nanopb/pb_common.c:8-18 | the iterator agrees with a fresh walk at position 0 |
| FieldIterator.Iterator.Next | Movieskip/Pods/nanopb/pb_common.c:20-76 | steps on or wraps around, and its pointers and required-field index are those of a fresh walk to the new position |
| FieldIterator.Iterator.Find | Movieskip/Pods/nanopb/pb_common.c:78-95 | from any position ends within one lap, and finds a nonzero tag exactly when a field has it; otherwise stays where it was |
| FieldIterator.Iterator.constructor | Movieskip/Pods/nanopb/pb_common.c:8-18 | a new iterator agrees with a fresh walk |
| FieldIterator.DataDoesNotOverlap | Movieskip/Pods/nanopb/pb_common.c:39-73 | the data of a field that no further member of its union follows ends before that of any later field begins |
| FieldIterator.UnionIsShared | Movieskip/Pods/nanopb/pb_common.c:44-50 | members of a union share data and tag with its first member |
| RequiredFields.MarkField | Movieskip/Pods/nanopb/pb_decode.c:1012-1017 | marking a required field keeps the bitmap exact: bit k is set if and only if the k-th required field has been seen |
| RequiredFields.CheckBits | Movieskip/Pods/nanopb/pb_decode.c:1051-1069 | the test of whole words and of the partial word succeeds exactly when all the bits asked for are set |
| RequiredFields.BitmapIsExact | Movieskip/Pods/nanopb/pb_decode.c:1031-1070 | all the bits asked for are set if and only if each of the first 64 required fields has occurred, in any order and with any repetition |
| ScalarDecoder.DecodeSvarint | Movieskip/Pods/nanopb/pb_decode.c:1269-1281 | complement and cast undo the zigzag mapping |
| ScalarDecoder.DecodeFixed32 | Movieskip/Pods/nanopb/pb_decode.c:1283-1295 | or-ing shifted bytes reads a little-endian word |
| ScalarDecoder.DecodeFixed64 | Movieskip/Pods/nanopb/pb_decode.c:1298-1315 | the same for eight bytes |
| ScalarDecoder.DecBool | Movieskip/Pods/nanopb/pb_decode.c:1318-1327 | true exactly when the varint is not zero |
| ScalarDecoder.DecVarint | Movieskip/Pods/nanopb/pb_decode.c:1329-1364 | a number is stored exactly when the field's size can hold it, 32-bit and smaller fields after a cast to int32 |
| ScalarDecoder.DecUvarint | Movieskip/Pods/nanopb/pb_decode.c:1366-1388 | the same for unsigned fields |
| ScalarDecoder.DecSvarint | Movieskip/Pods/nanopb/pb_decode.c:1390-1412 | the same for zigzag fields |
| ScalarDecoder.DecBytes | Movieskip/Pods/nanopb/pb_decode.c:1431-1466 | the bytes are stored exactly when they and their header fit the field |
| ScalarDecoder.DecString | Movieskip/Pods/nanopb/pb_decode.c:1468-1501 | the string is stored exactly when it and its terminator fit the field |
| ScalarDecoder.DecFixedLengthBytes | Movieskip/Pods/nanopb/pb_decode.c:1527-1548 | the length must be that of the field; an empty payload stands for zeros |
| EncodedForm.EmptyFixedBytes | Movieskip/Pods/nanopb/pb_decode.c:1527-1548 | an empty payload stands for as many zeros as the field has bytes |
| EncodedForm.IntegersRead | Movieskip/Pods/nanopb/pb_decode.c:1329-1412 | for every 64-bit varint and every field size: what is cut off, what is an error and what number is read |
| Capacity.NumberStaysInside | Movieskip/Pods/nanopb/pb_decode.c:1329-1429 | a decoded number has room in the bytes of its field |
| Capacity.BlobStaysInside | Movieskip/Pods/nanopb/pb_decode.c:1431-1548 | a decoded string has room with its terminator, decoded bytes with their size |
| ScalarDecoder.StoreSigned | Movieskip/Pods/nanopb/pb_decode.c:1348-1361 | a number is accepted exactly when the signed type of the field's size holds it; sizes other than 1, 2, 4 and 8 are errors |
| ScalarDecoder.StoreUnsigned | Movieskip/Pods/nanopb/pb_decode.c:1372-1385 | the same for unsigned types |
| ScalarDecoder.CastKeeps | Movieskip/Pods/nanopb/pb_decode.c:1348-1361 | comparing with the clamped value tells exactly whether a number fits its type |
| MessageDecoder.FieldSetToDefault | Movieskip/Pods/nanopb/pb_decode.c:836-906 | one field gets its default, its flag or count or union tag is cleared, all other slots stay |
| MessageDecoder.MessageSetToDefaults | Movieskip/Pods/nanopb/pb_decode.c:908-919 | the whole struct holds its defaults, recursively |
| EncodedForm.NothingDecodes | Movieskip/Pods/nanopb/pb_decode.c:836-919 | a message of no bytes decodes to the defaults of the descriptor, or else zeros, empty strings and arrays, flags not set and unions unset, at any depth |
| MessageDecoder.DecodePackedField | Movieskip/Pods/nanopb/pb_decode.c:425-453 | the elements of a packed record are appended while there is room; too many are an error; whatever comes of it, no other field is touched and no element written beyond the capacity |
| MessageDecoder.DecodeElements | Movieskip/Pods/nanopb/pb_decode.c:436-445 | elements are read one by one as long as there is room; the payload is used up exactly when all fit; those there stay, and on failure too there are never more than fit |
| MessageDecoder.DecodeElement | Movieskip/Pods/nanopb/pb_decode.c:454-464 | a single element is appended unless the array is full, and then nothing is written; the counter goes up in any case; an element whose decoding fails is still within the capacity |
| MessageDecoder.DecodeSingular | Movieskip/Pods/nanopb/pb_decode.c:416-422 | a required or optional field is decoded onto what it held, and its has_ flag, if it has one, is set, even if decoding fails |
| MessageDecoder.DecodeMember | Movieskip/Pods/nanopb/pb_decode.c:466-475 | a union member replaces what the union held, a submessage starting from its defaults; the union tag is set even if decoding fails, and no array inside exceeds its capacity |
| MessageDecoder.DecodeStaticField | Movieskip/Pods/nanopb/pb_decode.c:406-480 | decodes the data of a field as the format says, for every kind of field; whether it succeeds or not, no other field is touched and every array stays within its capacity |
| MessageDecoder.DecSubmessage | Movieskip/Pods/nanopb/pb_decode.c:1503-1525 | a submessage is decoded inside its frame onto what was there; array elements start from their defaults; what a failed call leaves inside stays within capacities |
| MessageDecoder.DecodeInner | Movieskip/Pods/nanopb/pb_decode.c:1515-1520 | array elements are set to defaults first, other submessages are decoded onto what they held |
| MessageDecoder.DecValue | Movieskip/Pods/nanopb/pb_decode.c:411-412 | a value of any type is decoded by the decoder of its type |
| MessageDecoder.CheckRequired | Movieskip/Pods/nanopb/pb_decode.c:1030-1070 | walking to the end, counting and fixing up the last field decides exactly whether the first 64 required fields have occurred |
| RecordLaws.DecodesExactly | Movieskip/Pods/nanopb/pb_decode.c:943-1070 | decoding succeeds exactly when no record is bad and a record occurs of each required field that has fewer than 64 before it |
| MessageDecoder.MarkRequired | Movieskip/Pods/nanopb/pb_decode.c:1012-1017 | the bitmap stays exact when the field at the iterator is noted; in an empty descriptor the terminator counts as field 0, which no check asks for |
| MessageDecoder.DecodeData | Movieskip/Pods/nanopb/pb_decode.c:957-1020 | the data behind a key goes to the field of that tag or is skipped, and the bitmap stays exact; on failure at most one slot differs, and all arrays stay within their capacities |
| MessageDecoder.DecodeRecords | Movieskip/Pods/nanopb/pb_decode.c:943-1021 | the decoding loop terminates on every input and equals record-by-record decoding; when a record is bad, the struct holds what those before it come to, but for one slot |
| MessageDecoder.DecodeRecordOf | Movieskip/Pods/nanopb/pb_decode.c:943-1021 | one turn of the loop reads a key and the data behind it, stops at a zero key or the end, and keeps the bitmap exact |
| MessageDecoder.DecodeNoInit | Movieskip/Pods/nanopb/pb_decode.c:925-1073 | succeeds exactly when the format says so, leaves the message it describes in the struct and the stream behind what was read; on failure the struct holds what the records before the bad one come to, but for one slot; in every outcome a struct whose arrays were within their capacities keeps them so, at any depth |
| MessageDecoder.Decode | Movieskip/Pods/nanopb/pb_decode.c:1075-1087 | the same from a struct set to defaults; in every outcome all arrays are within their capacities |
| MessageDecoder.DecodeDelimited | Movieskip/Pods/nanopb/pb_decode.c:1104-1117 | the same for a message behind its length; the stream is left behind the payload however much the message used; in every outcome arrays stay within their capacities |
| OutputStream.OStream.BufWrite | Movieskip/Pods/nanopb/pb_encode.c:74-84 | the bytes stand at the cursor, all other memory is as it was |
| OutputStream.OStream.Write | Movieskip/Pods/nanopb/pb_encode.c:103-124 | a sizing stream counts; another one writes exactly when the bytes fit max_size, also where the sum of the counts would wrap around |
| OutputStream.OStream.EncodeVarint | Movieskip/Pods/nanopb/pb_encode.c:608-628 | emits the base 128 varint of every 64-bit value |
| OutputStream.OStream.EncodeNegativeVarint | Movieskip/Pods/nanopb/pb_encode.c:583-605 | with 32-bit words and sign compensation emits exactly what the 64-bit encoder emits for the sign-extended number, for every negative int32 |
| OutputStream.FillGroups | Movieskip/Pods/nanopb/pb_encode.c:619-625 | the ten-byte buffer holds the varint, and the loop stays inside it |
| OutputStream.FillNegative | Movieskip/Pods/nanopb/pb_encode.c:585-602 | the same for the compensating loop |
| OutputStream.OStream.EncodeSvarint | Movieskip/Pods/nanopb/pb_encode.c:630-639 | emits the varint of the zigzag of every int64 |
| OutputStream.OStream.EncodeFixed32 | Movieskip/Pods/nanopb/pb_encode.c:641-650 | emits four bytes, lowest first |
| OutputStream.OStream.EncodeFixed64 | Movieskip/Pods/nanopb/pb_encode.c:653-666 | emits eight bytes, lowest first |
| OutputStream.OStream.EncodeTag | Movieskip/Pods/nanopb/pb_encode.c:669-673 | emits the varint of the field number shifted over the wire type |
| OutputStream.OStream.EncodeTagForField | Movieskip/Pods/nanopb/pb_encode.c:669-707 | emits tag and wire type of a field as one varint |
| OutputStream.OStream.EncodeString | Movieskip/Pods/nanopb/pb_encode.c:709-715 | emits length and bytes, or fails when they do not fit |
| OutputStream.Composes | Movieskip/Pods/nanopb/pb_encode.c:103-124 | what two calls emit is what one call would emit for the bytes put one behind the other, in room, count and memory |
| OutputStream.FailsEarly | Movieskip/Pods/nanopb/pb_encode.c:103-124 | when the first bytes do not fit, neither does anything that begins with them |
| OutputStream.Compensated | Movieskip/Pods/nanopb/pb_encode.c:589-601 | one turn of the 32-bit loop shifts the wide word right by seven |
| MessageEncoder.CheckDefaultField | Movieskip/Pods/nanopb/pb_encode.c:240-337 | decides whether a field holds only its proto3 default, through all nested submessages |
| MessageEncoder.CheckDefaultMessage | Movieskip/Pods/nanopb/pb_encode.c:296-307 | decides whether every field of a submessage holds only its default |
| MessageEncoder.MeasureString | Movieskip/Pods/nanopb/pb_encode.c:890-895 | the length up to the terminator or the end of the buffer |
| MessageEncoder.EncScalar | Movieskip/Pods/nanopb/pb_encode.c:769-913 | emits the encoding of a value of any type but submessages, or fails where the format has none |
| MessageEncoder.EncVarint | Movieskip/Pods/nanopb/pb_encode.c:776-797 | emits a signed number of the field's size extended to 64 bits; other sizes are errors |
| MessageEncoder.EncUvarint | Movieskip/Pods/nanopb/pb_encode.c:799-815 | the same for unsigned numbers |
| MessageEncoder.EncSvarint | Movieskip/Pods/nanopb/pb_encode.c:817-833 | the same in zigzag form |
| MessageEncoder.EncBytes | Movieskip/Pods/nanopb/pb_encode.c:852-873 | emits length and bytes, or fails when they exceed the field |
| MessageEncoder.EncString | Movieskip/Pods/nanopb/pb_encode.c:875-899 | emits the string up to its terminator or the end of its buffer |
| MessageEncoder.PackedSize | Movieskip/Pods/nanopb/pb_encode.c:169-189 | the size computed for a packed array is that of the bytes its elements take |
| MessageEncoder.EncodeElements | Movieskip/Pods/nanopb/pb_encode.c:197-204 | emits the elements of a packed array one behind the other |
| MessageEncoder.EncodePayload | Movieskip/Pods/nanopb/pb_encode.c:169-204 | emits the size of a packed array and then exactly as many bytes |
| MessageEncoder.EncodeKeyedElements | Movieskip/Pods/nanopb/pb_encode.c:209-232 | emits each element behind a key of its own |
| MessageEncoder.EncodeArrayField | Movieskip/Pods/nanopb/pb_encode.c:147-236 | emits an array packed where its type allows, otherwise element by element; an overfull array is an error |
| MessageEncoder.EncodeBasicField | Movieskip/Pods/nanopb/pb_encode.c:341-426 | emits a field exactly when it is present |
| MessageEncoder.Encode | Movieskip/Pods/nanopb/pb_encode.c:528-550 | emits the encoding of the message, field by field in descriptor order; of a union whose tag is that of no member nothing is emitted |
| MessageEncoder.EncodeSubmessage | Movieskip/Pods/nanopb/pb_encode.c:717-765 | the writing pass emits exactly as many bytes as the sizing pass counted, at every depth, and stays inside its part of the buffer |
| MessageEncoder.WriteSubmessage | Movieskip/Pods/nanopb/pb_encode.c:740-764 | with a size known to be that of the message, the writing pass fills a stream of its own exactly and the parent goes on behind it |
| MessageEncoder.Nested | Movieskip/Pods/nanopb/pb_encode.c:743-762 | a stream of exactly the size counted is filled exactly, and the parent goes on behind it |
| MessageEncoder.EncodeDelimited | Movieskip/Pods/nanopb/pb_encode.c:552-555 | emits length and message |
| MessageEncoder.EncodeNullTerminated | Movieskip/Pods/nanopb/pb_encode.c:557-565 | emits message and zero byte |
| MessageEncoder.GetEncodedSize | Movieskip/Pods/nanopb/pb_encode.c:567-576 | the size is that of the bytes encoding emits, and fails exactly when encoding has an error |
| EndToEnd.ZeroMeansEmpty | Movieskip/Pods/nanopb/pb_encode.c:289-308 | a submessage without has_ flag counts as zero if and only if encoding it would emit nothing and none of its unions has a tag |
| EndToEnd.EmptyButNotZero | Movieskip/Pods/nanopb/pb_encode.c:289-308 | a submessage that would emit nothing is left out if none of its unions has a tag, and otherwise emitted with an empty payload |
| EncodedForm.LeftOutExactly | Movieskip/Pods/nanopb/pb_encode.c:276-336 | of a number, bool, string or bytes field without has_ flag and default, exactly what a reader fills in is not written |
| EncodedForm.FixedBytesLeftOut | Movieskip/Pods/nanopb/pb_encode.c:288-294 | fixed-length bytes without has_ flag are left out only if their length is 0 |
| EncodedForm.LastFieldIsLast | Movieskip/Pods/nanopb/pb_encode.c:528-550 | fields are written in the order of the descriptor |
| EncodedForm.NumberForm | Movieskip/Pods/nanopb/pb_encode.c:341-426 | the number 150 as field 1 is 08 96 01 |
| EncodedForm.TextForm | Movieskip/Pods/nanopb/pb_encode.c:875-899 | "testing" as field 2 is 12 07 and its characters |
| EncodedForm.InnerForm | Movieskip/Pods/nanopb/pb_encode.c:717-765 | a submessage as field 3 that holds 150 is 1A 03 08 96 01 |
| EncodedForm.NumbersForm | Movieskip/Pods/nanopb/pb_encode.c:147-204 | 3, 270 and 86942 packed as field 6 are 32 06 03 8E 02 9E A7 05 |
| Encoding.StringEnds | Movieskip/Pods/nanopb/pb_encode.c:890-895 | a string ends at its first zero byte or with its buffer |
| EndToEnd.MessageIsSized | Movieskip/Pods/nanopb/pb_encode.c:717-735 | in an encoding shorter than 2^32 bytes every nested length fits 32 bits |
| EndToEnd.BufferRoundTrip | Movieskip/Pods/nanopb/pb_encode.c:528-550 | any struct encoded into a buffer is decoded from the bytes written, if and only if its strings are terminated, using up all of them and restoring every field; a union whose tag is that of no member reads back as unset |
| EndToEnd.DelimitedRoundTrip | Movieskip/Pods/nanopb/pb_encode.c:552-555 | the same with the length in front, and what follows is left unread |
| DecodeOfEncode.ValueDecodes | Movieskip/Pods/nanopb/pb_decode.c:1262-1548 | decoding an encoded value merges it into what was there |
| DecodeOfEncode.MessageDecodes | Movieskip/Pods/nanopb/pb_decode.c:925-1073 | decoding an encoded message onto any struct is the merge of the two, and fails exactly when an array overflows or a string is not terminated |
| RoundTrip.DecodeRestores | Movieskip/Pods/nanopb/pb_decode.c:1075-1087 | decoding an encoded message succeeds exactly when its strings are terminated, consumes all bytes, and restores every field, those without has_ flag whatever they hold (but a zero where the descriptor has a default of its own); fields whose has_ flag is not set are at their defaults |
| RoundTrip.ZeroRestored | Movieskip/Pods/nanopb/pb_encode.c:240-337 | what counts as zero and is not written is what the reader fills in, at any depth |
| RoundTrip.UnterminatedIsLost | Movieskip/Pods/nanopb/pb_decode.c:1468-1501 | a string that fills its buffer is encoded, but not decoded again |
| RoundTrip.NullTerminatedRestores | Movieskip/Pods/nanopb/pb_encode.c:557-565 | the form ended by a zero byte does the same in front of any other bytes and leaves them unread |
| Composition.ConcatDecodes | Movieskip/Pods/nanopb/pb_decode.c:943-1021 | behind a stream that decodes to its end, decoding goes on with the next one from the message reached |
| Composition.DecodingComposes | Movieskip/Pods/nanopb/pb_decode.c:925-1073 | if s1 decodes to its end from m to m1 and s2 from m1 to m2, then s1 followed by s2 decodes from m to m2 |
| Composition.TwoMessagesMerge | Movieskip/Pods/nanopb/pb_decode.c:406-480 | two encoded messages decode to their merge: last scalar wins, arrays are appended, submessages merge, unions are replaced |
| RecordLaws.SubmessagesMerge | Movieskip/Pods/nanopb/pb_decode.c:1503-1525 | two records of a required or optional submessage decode exactly as one record that holds their payloads one behind the other, whenever the first payload decodes, to its end, onto what the field held, and the second onto that |
| RecordLaws.MembersReplace | Movieskip/Pods/nanopb/pb_decode.c:466-475 | a record of a union member decodes as if no record of a member of that union had come before it |
| RecordLaws.ElementsAppend | Movieskip/Pods/nanopb/pb_decode.c:454-464 | two records of a repeated submessage append two elements, each decoded from defaults, and fail exactly when one of them does or there is no room |
| RecordLaws.LastOneWins | Movieskip/Pods/nanopb/pb_decode.c:416-422 | a record of a singular scalar, bytes or string field decodes as if no record of the field had come before it |
| Composition.UnknownFieldsAreTransparent | Movieskip/Pods/nanopb/pb_decode.c:957-986 | a record of an unknown tag, zero included, between two records changes neither message, success nor what is left unread; in an empty descriptor this is so for tags other than zero |
| Composition.TransparentExactly | Movieskip/Pods/nanopb/pb_common.c:78-95 | all records with a nonzero key that no field claims are transparent if and only if the descriptor has fields |
| Composition.ZeroTagIsNotTransparent | Movieskip/Pods/nanopb/pb_decode.c:957-986 | a record of tag 0 that makes an empty message fail |
| Composition.UnknownRecordForms | Movieskip/Pods/nanopb/pb_decode.c:321-331 | the records of wire types 0, 1, 2 and 5 are such records, and those of tag 0 with wire types 1, 2 and 5 |
| UnknownFields.KeyedSkips | Movieskip/Pods/nanopb/pb_encode.c:675-707 | whoever reads the key of an encoded value and passes over what its wire type announces is right behind the value, for every type |
| UnknownFields.ValueIsUnknown | Movieskip/Pods/nanopb/pb_encode.c:675-707 | an encoded value is an unknown record to every descriptor without its tag |
| UnknownFields.PackedIsUnknown | Movieskip/Pods/nanopb/pb_encode.c:147-204 | a packed array of any length is a single such record |
| UnknownFields.MessageIsTransparent | Movieskip/Pods/nanopb/pb_decode.c:957-986 | a whole encoded message is transparent to a reader that has none of its tags |
| UnknownFields.GroupsAreErrors | Movieskip/Pods/nanopb/pb_decode.c:321-331 | an unknown record of wire type 3, 4, 6 or 7 makes decoding fail |
| UnknownFields.LongVarintSkips | Movieskip/Pods/nanopb/pb_decode.c:278-287 | an unknown varint of any length is passed over |
| PackedArrays.ChunksDecode | Movieskip/Pods/nanopb/pb_decode.c:424-464 | however elements are spread over packed and unpacked records they are appended in order, and decoding fails exactly when they are too many |
| PackedArrays.SplittingDoesNotMatter | Movieskip/Pods/nanopb/pb_decode.c:424-464 | two ways of sending the same elements decode alike |
| Capacity.DecodedFits | Movieskip/Pods/nanopb/pb_decode.c:436-464 | whatever the bytes are, and even if they end in a bad record, no array of what is decoded of them exceeds its capacity, at any depth |
| Redecoding.DecodedIsRegular | Movieskip/Pods/nanopb/pb_decode.c:1075-1087 | whatever the bytes are, a decoded message holds values of the types of its fields, terminated strings and unions of known members, at any depth |
| Redecoding.DecodedRoundTrip | Movieskip/Pods/nanopb/pb_decode.c:1075-1087 | so a decoded message meets all that encoding asks for; encoded again, in less than 2^32 bytes, it is decoded without fail, to the last byte, with every field restored |
| AuthenticationInterceptor.Interceptor.IsRefreshExcessive | Movieskip/Pods/Alamofire/Source/AuthenticationInterceptor.swift:356-369 | counts the refreshes since the start of the window and compares with the maximum |
| AuthenticationInterceptor.Interceptor.Refresh | Movieskip/Pods/Alamofire/Source/AuthenticationInterceptor.swift:331-354 | starts and records one refresh, or fails all that waits when there have been too many |
| AuthenticationInterceptor.Interceptor.HandleRefreshSuccess | Movieskip/Pods/Alamofire/Source/AuthenticationInterceptor.swift:371-387 | stores the credential, empties both queues, and dispatches all that waited, in order: requests to be adapted start over, and each request to be retried is told to retry |
| AuthenticationInterceptor.Interceptor.HandleRefreshFailure | Movieskip/Pods/Alamofire/Source/AuthenticationInterceptor.swift:389-403 | empties both queues and dispatches the error to all that waited, in order: not adapted, or not to be retried, for that error |
| AuthenticationInterceptor.Interceptor.DidRefresh | Movieskip/Pods/Alamofire/Source/AuthenticationInterceptor.swift:343-352 | an answer releases all that waited, with the new credential or with the error |
| AuthenticationInterceptor.Interceptor.AdaptInsideLock | Movieskip/Pods/Alamofire/Source/AuthenticationInterceptor.swift:251-290 | defers, refuses or adapts a request |
| AuthenticationInterceptor.Interceptor.RetryInsideLock | Movieskip/Pods/Alamofire/Source/AuthenticationInterceptor.swift:320-326 | queues the request and starts a refresh unless there is one |
| AuthenticationInterceptor.StepKeeps | Movieskip/Pods/Alamofire/Source/AuthenticationInterceptor.swift:251-403 | every step keeps each submitted completion in exactly one place, both queues empty without a refresh, and at most one refresh on its way; completions once called stay called |
| AuthenticationInterceptor.RunConserves | Movieskip/Pods/Alamofire/Source/AuthenticationInterceptor.swift:251-403 | the same over every interleaving |
| AuthenticationInterceptor.CompletedOnce | Movieskip/Pods/Alamofire/Source/AuthenticationInterceptor.swift:371-403 | over every interleaving no completion is called twice, and when no work is left all submitted ones have been called |
| AuthenticationInterceptor.WaitingMeansRefreshing | Movieskip/Pods/Alamofire/Source/AuthenticationInterceptor.swift:251-327 | as long as anything waits, a refresh is on its way |
| AuthenticationOutcomes.OutcomesAreDue | Movieskip/Pods/Alamofire/Source/AuthenticationInterceptor.swift:251-403 | over every run a completion is called with an outcome if and only if a step made it due: the credential of that moment with no refresh on its way or needed, retry after a successful refresh or for an earlier credential, no retry without an error only for failures other than authentication, and only errors that occurred; no completion has two outcomes |
| AuthenticationOutcomes.DispatchesDue | Movieskip/Pods/Alamofire/Source/AuthenticationInterceptor.swift:251-403 | each step dispatches exactly the completions that are due |
| AuthenticationOutcomes.AdaptsAgain | Movieskip/Pods/Alamofire/Source/AuthenticationInterceptor.swift:371-403 | after an answer nothing waits, the credential is the new one if there is one, and then exactly the requests that waited to be adapted start over |
| AuthenticationOutcomes.RefreshStarts | Movieskip/Pods/Alamofire/Source/AuthenticationInterceptor.swift:331-341 | a refresh of a credential is started, and recorded, exactly when none is on its way, there have not been too many, and a request asks for it |
| AuthenticationOutcomes.ExcessiveExactly | Movieskip/Pods/Alamofire/Source/AuthenticationInterceptor.swift:356-369 | there are too many refreshes exactly when at least as many as allowed were started in the interval up to now |
| AuthenticationInterceptor.WindowBound | Movieskip/Pods/Alamofire/Source/AuthenticationInterceptor.swift:356-369 | checking each refresh against the window before it bounds every window, at every time |
| AuthenticationInterceptor.RefreshesAreBounded | Movieskip/Pods/Alamofire/Source/AuthenticationInterceptor.swift:331-369 | over every run and at every time t the refreshes started in [t - interval, t] are at most maximumAttempts, though check and timestamp read the clock separately |
| AuthenticationInterceptor.CurrentExactly | Movieskip/Pods/Alamofire/Source/AuthenticationInterceptor.swift:307-326 | from any world of any run, a replaced credential can come to be refreshed, with no further replacement under a retry, if and only if a retry about to lock holds one and the window allows refreshes |
| AuthenticationInterceptor.DisturbedExactly | Movieskip/Pods/Alamofire/Source/AuthenticationInterceptor.swift:307-326 | a step keeps that from happening if and only if it does not replace the credential under a retry about to lock |
| AuthenticationInterceptor.RefreshesAreCurrent | Movieskip/Pods/Alamofire/Source/AuthenticationInterceptor.swift:307-326 | in every run in which that never happens, each refresh started is of the credential current at that moment |
| AuthenticationInterceptor.RefreshesAgain | Movieskip/Pods/Alamofire/Source/AuthenticationInterceptor.swift:314-326 | a sequence of steps after which a credential already replaced is being refreshed again |
| ResponseSerializers.Request.Finish | Movieskip/Pods/Alamofire/Source/Request.swift:511-524 | begins the chain unless it has begun |
| ResponseSerializers.Request.AppendResponseSerializer | Movieskip/Pods/Alamofire/Source/Request.swift:531-547 | appends, reopens a finished request, dispatches processing once there has been a drain, and dispatches resume where the state allows it |
| ResponseSerializers.Request.NextResponseSerializer | Movieskip/Pods/Alamofire/Source/Request.swift:552-564 | the serializer behind as many as have completed |
| ResponseSerializers.Request.ProcessNextResponseSerializer | Movieskip/Pods/Alamofire/Source/Request.swift:567-599 | dispatches the next serializer, or clears the chain and calls all completions in order |
| ResponseSerializers.Request.ResponseSerializerDidComplete | Movieskip/Pods/Alamofire/Source/Request.swift:605-608 | stores the completion and goes on |
| ResponseSerializers.Request.Reset | Movieskip/Pods/Alamofire/Source/Request.swift:611-623 | drops the completions gathered so far |
| ResponseSerializers.Request.Cancel | Movieskip/Pods/Alamofire/Source/Request.swift:667-687 | cancels where the state allows it, and then dispatches finish if no task is running |
| ResponseSerializers.Request.Suspend | Movieskip/Pods/Alamofire/Source/Request.swift:693-708 | suspends where the state allows it |
| ResponseSerializers.Request.Resume | Movieskip/Pods/Alamofire/Source/Request.swift:714-729 | resumes where the state allows it |
| ResponseSerializers.CancelledForGood | Movieskip/Pods/Alamofire/Source/Request.swift:50-63 | over all sequences of steps the cancelled state is never left |
| ResponseSerializers.StateChanges | Movieskip/Pods/Alamofire/Source/Request.swift:50-63 | a request resumes and suspends unless it is cancelled or finished, cancels unless it is finished, is finished by the drain unless it is cancelled, and reopened by one more serializer |
| ResponseSerializers.FinishedMeansDrained | Movieskip/Pods/Alamofire/Source/Request.swift:567-599 | over all runs a finished request has been drained and its chain is empty |
| ResponseSerializers.StepKeeps | Movieskip/Pods/Alamofire/Source/Request.swift:511-623 | every orderly step keeps the chain in order, with only its next serializer at work |
| ResponseSerializers.CalledInOrder | Movieskip/Pods/Alamofire/Source/Request.swift:567-608 | when all steps are orderly, completions are called in the order of appending, each at most once, none before the first drain, and all of them when the chain is empty |
| ResponseSerializers.OrderlyExactly | Movieskip/Pods/Alamofire/Source/Request.swift:511-623 | a step is orderly if and only if no orderly steps after it can lose a serializer, put one out of turn or set one to work twice |
| ResponseSerializers.AppendGoesWrong | Movieskip/Pods/Alamofire/Source/Request.swift:531-547 | after every append that is not orderly, some orderly steps drop a serializer or set one to work twice |
| ResponseSerializers.FinishGoesWrong | Movieskip/Pods/Alamofire/Source/Request.swift:511-524 | after every finish that is not orderly, some orderly steps set a serializer to work twice |
| ResponseSerializers.ResetGoesWrong | Movieskip/Pods/Alamofire/Source/Request.swift:611-623 | after every reset for a retry that is not orderly, some orderly steps drop a serializer, put one out of turn or set one to work twice |
| ResponseSerializers.DrainCallsAll | Movieskip/Pods/Alamofire/Source/Request.swift:568-596 | in an orderly chain every drain calls the completion of every serializer appended and not yet called, in order |
| ResponseSerializers.RetryStartsOver | Movieskip/Pods/Alamofire/Source/ResponseSerialization.swift:240-274 | a retry discards the completions uncalled and begins again with the first serializer |
| ResponseSerializers.CallsUnlessStuck | Movieskip/Pods/Alamofire/Source/Session.swift:1191-1206 | a chain can still call completions, and then all it holds, if and only if it is not stuck: cancelled, finishing, not drained before, with nothing at work and no retry about to reset it |
| ResponseSerializers.ChainRunsThrough | Movieskip/Pods/Alamofire/Source/Request.swift:567-608 | from the look for the next serializer on, the chain can run through to its end, where all completions are called |
| ResponseSerializers.WorkRunsThrough | Movieskip/Pods/Alamofire/Source/Request.swift:567-608 | whatever is at work in an orderly chain, all completions can be called |
| ResponseSerializers.LostWhileDraining | Movieskip/Pods/Alamofire/Source/Request.swift:567-588 | a serializer appended while a drain is about to happen is neither called nor kept |
| ResponseSerializers.StuckForGood | Movieskip/Pods/Alamofire/Source/Session.swift:1191-1206 | in a stuck chain no step ever calls a completion |
| ResponseSerializers.GetsStuck | Movieskip/Pods/Alamofire/Source/Request.swift:667-678 | a sequence of steps to a pending retry, after which one call of cancel leaves the chain stuck |
| StreamCompletion.DataStreamRequest.DidReceive | Movieskip/Pods/Alamofire/Source/Request.swift:1299-1311 | counts one execution for each handler and hands the data to them |
| StreamCompletion.DataStreamRequest.ResponseStream | Movieskip/Pods/Alamofire/Source/ResponseSerialization.swift:1044 | a handler takes part in all data received from then on |
| StreamCompletion.DataStreamRequest.StreamDidComplete | Movieskip/Pods/Alamofire/Source/Request.swift:1376-1388 | tells the handler at once when nothing is being parsed, otherwise puts it off |
| StreamCompletion.DataStreamRequest.UpdateAndCompleteIfPossible | Movieskip/Pods/Alamofire/Source/ResponseSerialization.swift:1085-1095 | counts down, and at zero dispatches what was put off |
| StreamCompletion.RunKeeps | Movieskip/Pods/Alamofire/Source/ResponseSerialization.swift:1017-1095 | under every interleaving the count is that of the parser executions pending, and each completion is in one place |
| StreamCompletion.CompletedOnce | Movieskip/Pods/Alamofire/Source/Request.swift:1372-1391 | no handler is told twice, and when no work is left all are |
| StreamCompletion.AllDataIsParsed | Movieskip/Pods/Alamofire/Source/Request.swift:1299-1311 | over all runs every handler parses each piece of data received since it was registered exactly once, but for what is still pending |
| StreamCompletion.ToldInOrder | Movieskip/Pods/Alamofire/Source/Request.swift:1376-1388 | handlers whose completions are put off are told in the order in which these were handed over, if what is dispatched goes on in order |
| StreamCompletion.CompletionsComeLast | Movieskip/Pods/Alamofire/Source/Request.swift:1372-1407 | when all data is received harmlessly, handlers are told only when no parser execution is pending |
| StreamCompletion.HarmlessExactly | Movieskip/Pods/Alamofire/Source/Request.swift:1299-1311 | receiving data is harmless if and only if no handler can be told while a parser execution is pending, unless more data is received harmfully |
| StreamCompletion.NoLateData | Movieskip/Pods/Alamofire/Source/Request.swift:1372-1407 | with no data after the request has finished, handlers are told only when no parser execution is pending |
| StreamCompletion.OvertakesLateData | Movieskip/Pods/Alamofire/Source/Request.swift:1299-1311 | whenever data is received while a completion that was put off is on its way, the next step can tell a handler while parser executions are pending |
| StreamCompletion.HarmIsReached | Movieskip/Pods/Alamofire/Source/Request.swift:1372-1407 | a sequence of steps to a world in which receiving data is not harmless |
| Multipart.MultipartFormData.Append | Movieskip/Pods/Alamofire/Source/MultipartFormData.swift:305-308 | a part is added behind the others, without boundaries of its own |
| Multipart.MultipartFormData.MarkEnds | Movieskip/Pods/Alamofire/Source/MultipartFormData.swift:327-328 | exactly the first part gets the initial boundary and the last one the final boundary, all other marks stay |
| Multipart.MultipartFormData.Encode | Movieskip/Pods/Alamofire/Source/MultipartFormData.swift:320-336 | succeeds exactly when all parts can be read to their ends, and yields the parts with their boundaries; afterwards the marks stay set and the bodies are used up, up to and with the first part that cannot be read |
| Multipart.MultipartFormData.WriteEncodedData | Movieskip/Pods/Alamofire/Source/MultipartFormData.swift:345-369 | without an error writes the same bytes as far as the stream has room, all of them if and only if they fit, for every way of reading and writing in portions; when a part cannot be read to its end, what comes before its failure has been written; marks and bodies are afterwards as for encoding in memory |
| Multipart.EncodePart | Movieskip/Pods/Alamofire/Source/MultipartFormData.swift:373-390 | boundary, headers, body and, at the end, the final boundary; fails exactly when the body ends in an error, after however many bytes |
| Multipart.EncodeParts | Movieskip/Pods/Alamofire/Source/MultipartFormData.swift:325-335 | all parts one behind the other; fails exactly when one cannot be read; uses up the bodies |
| Multipart.WritePart | Movieskip/Pods/Alamofire/Source/MultipartFormData.swift:427-474 | the same bytes as in memory, as far as the stream has room; of a part that cannot be read to its end, those up to the failure |
| Multipart.WriteParts | Movieskip/Pods/Alamofire/Source/MultipartFormData.swift:366-368 | the same bytes as in memory for all parts, as far as the stream has room; when one cannot be read to its end, those up to the failure |
| Multipart.EncodeBodyStream | Movieskip/Pods/Alamofire/Source/MultipartFormData.swift:400-423 | collects the whole body however short the reads are; fails exactly when the stream ends in an error, after however many bytes |
| Multipart.WriteBodyStream | Movieskip/Pods/Alamofire/Source/MultipartFormData.swift:444-468 | passes on the whole body however short the reads and writes are, as far as the stream has room; a body that ends in an error is passed on up to there |
| Multipart.WriteBuffer | Movieskip/Pods/Alamofire/Source/MultipartFormData.swift:485-501 | writes the buffer as far as the stream has room, however short the writes are |
| Multipart.TookAll | Movieskip/Pods/Alamofire/Source/MultipartFormData.swift:485-501 | what was written as far as there was room was written whole if and only if it fits the room |
| MultipartSplit.AssembledForm | Movieskip/Pods/Alamofire/Source/MultipartFormData.swift:64-77 | the encoding is the first boundary line and then each part up to its delimiter, also for parts that have been encoded before |
| MultipartSplit.SplitRecoversParts | Movieskip/Pods/Alamofire/Source/MultipartFormData.swift:320-423 | with boundary, names and values free of line breaks, splitting recovers the original parts in order, names, values and bodies, if and only if no name contains a colon and a space, no body contains the delimiter and no part but the last was the last one in an encoding before |
| MultipartSplit.HeaderRead | Movieskip/Pods/Alamofire/Source/MultipartFormData.swift:392-398 | name and value of a header line come back if and only if the name does not contain a colon and a space |
| MultipartSplit.SmallForm | Movieskip/Pods/Alamofire/Source/MultipartFormData.swift:64-77 | a form of one part, byte by byte |
| MultipartSplit.EncodingAgain | Movieskip/Pods/Alamofire/Source/MultipartFormData.swift:327-328 | any parts, encoded, then more appended and all encoded again: that splits if and only if there were none before or none were appended, no name contains a colon and a space, and no body contains the delimiter |

## Left out

- MessageDecoder.DecodeNoInit: of the one slot that a failed call may have changed beyond the records before, it is stated which flags and tags are set and that arrays stay within their capacities, not what scalars were stored; nor are error messages stated. A counter left one beyond the capacity is known to the caller of DecodeElement only: the struct keeps the elements.
- MessageDecoder.DecodeStaticField: a nested submessage is decoded into a struct of its own and stored afterwards, so writing through a pointer into the parent is not captured.
- OutputStream.OStream.Write: the counter of a sizing stream is unbounded; payloads of 2^64 bytes or more count as errors.
- MessageEncoder.Encode: requires that the struct holds values of the C types of its fields, as a C struct does.
- Redecoding.DecodedRoundTrip: says nothing of an encoding that fails or has 2^32 bytes or more.
- MessageDecoder.CheckRequired: as in the code, only the first 64 required fields are checked.
- PackedArrays.ChunksDecode: element bytes are any that the decoder accepts alone; wire type 2 for an unpacked element is the packed form.
- InputStream.IStream.DecodeVarint32Eof: varints longer than ten bytes are modelled with the counter that wraps at 256, but agreement with the 64-bit decoder is stated only where that accepts.
- ResponseSerializers.Request.Cancel: the events it dispatches besides, and what it does to a running `URLSessionTask`; the calls of finish and resume that methods dispatch are among the steps that may happen at any time, as is the block in which the session retries a request.
- StreamCompletion.CompletedOnce: assumes that the serializer chain hands over each completion at most once, which ResponseSerializers shows.
- AuthenticationInterceptor.RunConserves: assumes that the authenticator answers each refresh once.
- Multipart.WriteBuffer: an output stream that has room but accepts no bytes and reports no error, on which the code would loop, is not modelled.
- Multipart.EncodeBodyStream: a body stream that has failed but reports that no bytes are available, which the code would take for its end, is not modelled.
- Multipart.MultipartFormData.WriteEncodedData: file existence, file URLs and opening the stream.
- nanopb: pointer and callback fields, extensions, fixed-count arrays, streams with callbacks of their own. The build also defines `PB_ENABLE_MALLOC`; static fields have nothing to allocate or release, but `pb_release_union_field` then also fails on a union tag that is that of no member, and this model decodes over it.
- nanopb: the two loops that are inline in the varint encoders are methods of their own here, as are the branches of the field decoder.
- nanopb: floats and doubles are 4- and 8-byte words.
- Alamofire: sessions, tasks, validation, events, progress and errors other than those above; the file-based responses follow the same chain.
- The app itself: view controllers, Firebase and movie queries, whose list handling is plain.
