# Verified model of the nanopb codec, its generator's size analysis, the Shannon cipher and DNS name compression

This project models the parts of the repository where a mistake would be hardest to see, and proves what they are for:

1. **The nanopb codec** (`src/nanopb/pb_encode.c`, `pb_decode.c`, `pb_common.c`, `pb.h`).  A packed descriptor array
   drives a cyclic field iterator; the encoder sizes and then writes every submessage; the decoder merges records into a
   struct through nested length-limited substreams.
2. **The generator's static analysis** (`src/nanopb/generator/nanopb_generator.py`): the encoded-size bound that users
   allocate buffers from, the cycle check, and the ordering of message types.
3. **The Shannon stream cipher** (`src/platform_posix.c`, `src/platform_esp32.c`): a word-oriented cipher with a buffer
   for a partial word and plaintext feedback.
4. **DNS name compression** (`thirdparty/mdns.h`): suffixes replaced by pointers through a ring of sixteen earlier label
   offsets, as in section 4.1.4 of RFC 1035.

The C code works in place, and so does the model: streams, the field iterator, the destination struct, the cipher
context, the offset table and the packet are classes, loops are loops with invariants, and buffers are arrays.  Each of
these methods is proved equal to a function of its inputs or of the old state; the theorems are about those functions.

## Modules

| file | content |
|---|---|
| `Wire.dfy` | varints (64-bit and the stricter 32-bit reader), zigzag, fixed-width words, records, skipping |
| `Message.dfy` | descriptor trees, struct memory as value trees, well-formedness, defaults |
| `Encoding.dfy`, `Decoding.dfy` | what `pb_encode` and `pb_decode` compute, as functions |
| `Locality.dfy`, `Merging.dfy` | records are read one by one; unknown fields; concatenation is merging |
| `RoundTrip.dfy`, `Validity.dfy` | decoding inverts encoding, into any memory; what arbitrary input can do to a struct |
| `Canonical.dfy` | encoding again what was decoded |
| `Presence.dfy` | the required-field check; packed and unpacked arrays |
| `Omission.dfy` | which fields and structs encode to nothing |
| `Ranges.dfy`, `Refusals.dfy` | which numbers and payloads are accepted, what is sent for them, and what is refused |
| `WireExamples.dfy` | encodings and descriptors byte by byte |
| `Streams.dfy`, `FieldIter.dfy` | `pb_ostream_t`, `pb_istream_t`, `pb_field_iter_t` and the descriptor packing, as they run |
| `Encoder.dfy`, `Decoder.dfy` | the two codecs as they run |
| `SizeBound.dfy`, `Dependencies.dfy` | the generator |
| `SizeGaps.dfy`, `SizeAttained.dfy` | what `encoded_size` leaves over, and when it is met |
| `WordStream.dfy` | the word loop with its partial-word buffer, for any register and any coding of words |
| `Shannon.dfy`, `ShannonWords.dfy`, `ShannonLaws.dfy`, `ShannonCipher.dfy` | the cipher as functions, its 32-bit arithmetic, its laws, and the context in place |
| `Esp32Chunks.dfy` | what splitting the data between two calls does on ESP32 |
| `ShannonSteps.dfy`, `KeyLoading.dfy` | cycles lose nothing; what the register tells about the key |
| `KnownAnswers.dfy` | one key, its output and its MAC on both platforms, cycle by cycle |
| `Names.dfy`, `Mdns.dfy` | what the name readers compute, and the readers and the table search as they run |
| `Limits.dfy` | 64 labels, 16 pointers and 16 table entries |
| `Compression.dfy`, `Packet.dfy` | the writer on labels and what it makes of a name, the invariant of a packet under construction, and the writer in place |
| `Utf8.dfy` | `pb_validate_utf8` |
| `Wrappers.dfy` | the option type |

## Where the code and what one might expect of it differ

The model follows the code.  Each expectation below fails for some input; each is stated with the exact condition under
which it holds, in terms of the input, and with an input, or a family of inputs, for which it does not.  Only for repeated
labels is the condition no more than sufficient.

- *Concatenation.*  Decoding the concatenation of two messages is decoding one after the other, unless the last
  fixed-count field in the first is also the first one in the second: its counter then simply continues, and the
  concatenation is refused (`Merging.ConcatenationIsMerge`, `Merging.FixedArrayConcatenationFails`).  The same decides
  whether two occurrences of a submessage merge (`Merging.SubmessagesMerge`).
- *Memory of absent fields.*  Setting a struct to its defaults does not clear fixed-count arrays, also not those in an
  absent optional submessage that has submessages of its own (`Validity.StaleMemory`).  A struct comes back exactly if and
  only if the memory decoded into, once defaulted, is zero wherever the struct has an absent optional field
  (`Validity.MessageRoundTrip`; for types whose repeated submessages hold no fixed-count arrays), as zeroed memory is
  (`Validity.CleanRoundTrip`).
- *Encoding what was decoded.*  A string may be received with a NUL inside and is sent only up to it.  What is decoded
  survives another round exactly when no string has one (`Canonical.ReencodingExact`, `Canonical.EmbeddedNul`); in any
  case it comes back with its strings cut there and its absent fields zeroed (`Canonical.Reencoding`).
- *Size bound.*  A `bytes` field with a `max_size` whose array the compiler pads has one more byte of capacity than was
  declared; encoder and decoder accept it, and `encoded_size` does not count it (`SizeBound.BytesBoundExact`,
  `SizeBound.MessageBoundExact`, `SizeBound.PaddingByteCounterexample`).  The bound is proved for the values the schema
  allows.
- *Slack in the size bound.*  For messages of scalars, strings and bytes, some struct takes all of `encoded_size` if and
  only if every field, and of every oneof one of the largest members, can take all that it is counted at.  Strings of
  size 128 or 16384 cannot, nor singular fields that can hold nothing, arrays of exactly one string or bytes, and arrays
  of more than two scalars, or of two with a tag above 15 (`SizeAttained.SizeIsAttained`, `SizeAttained.FieldCondition`).
  What is left over in general, `SizeGaps.SizeIsAccounted` says.
- *Name compression.*  The table search does not check that the name it finds ends where the name sought does.  A name
  reads as it was written if and only if the entry that its search stops at does not go on behind the labels sought
  (`Compression.ReadsAsExact`, `Packet.ExtractsExactly`; for whole packets `Compression.RunExact`).  That is so if no end
  of a name is a proper prefix of an end of an earlier one (`Compression.PrefixFreeRun`), for instance if all names share
  their last label, which occurs only last (`Compression.SharedIsPrefixFree`, `Packet.MakeSharedName`).  "a.b" written
  after "a.b.c" reads as "a.b.c" (`Compression.PrefixCounterexample`; in a packet, `Packet.WritePrefix`).
- *Repeated labels.*  The labels of a name are entered before it is complete.  If a run of labels is repeated at the end
  of the name, as in "x.y.x", and no other entry is found before, the pointer leads back into the name, which cannot be
  read (`Packet.WriteRepeated`, `Names.PointsBackUnreadable`); if it is repeated right behind itself, as in "x.x.y", the
  search reads behind what has been written.  `Names.Proper` excludes these two and allows all other repetitions.
- *Breaking cycles.*  The generator converts a message that would contain itself to its fallback type and does not check
  it again.  The embedding graph stays acyclic if and only if every conversion breaks its cycle, which those to callbacks
  do and those to static fields do not (`Dependencies.ParsedExact`, `Dependencies.CallbacksBreak`,
  `Dependencies.StaticFallback`).
- *Descriptors.*  The index into field_info has 16 bits.  Packed in one format, a message is read as it is if and only if
  its last descriptor starts below word 65536 (`FieldIter.UniformExact`); 16385 required bools with tags 1 to 16385 pass
  every assertion, and the last of them is not found (`FieldIter.ManyBoolsExact`, `FieldIter.FindLastTag`).  The assertion
  of the 1-word format lets an array_size of 0 pass, which the format does not hold: it is read as 1
  (`FieldIter.LoadInvertsPack`).
- *POSIX decryption* accumulates ciphertext, not plaintext, for the bytes after the last whole word.  The states of sender
  and receiver agree if and only if the keystream is zero in those bytes (`ShannonLaws.PosixDecrypts`,
  `ShannonLaws.PosixEndsDiffer`).
- *ESP32 encryption* does not accumulate a word completed from its buffer.  Two calls of any lengths leave the state of
  one if and only if the second does not complete a word that the first began, or that word is zero and all words of CRC
  are the same (`Esp32Chunks.Esp32TwoCalls`); chunks that keep to word boundaries make no difference
  (`ShannonLaws.Esp32WordChunks`).  With equal chunk lengths decryption ends in the identical state in any case
  (`ShannonLaws.Esp32Decrypts`).

## Model

| member | source | states |
|---|---|---|
| Wire.VarintRoundTrip | src/nanopb/pb_decode.c:230-251 | Every 64-bit value, encoded as base-128 digits and followed by anything, is read back, and exactly its own bytes are consumed. |
| Wire.VarintIsMinimal | src/nanopb/pb_encode.c:582-632 | Whatever bytes decode to a value, the encoder's form of that value is no longer. |
| Wire.VarintFits | src/nanopb/pb_decode.c:230-251 | A decoded varint fits 64 bits: bits past the 64th are refused. |
| Wire.Varint32RoundTrip | src/nanopb/pb_decode.c:171-228 | The 32-bit reader inverts the encoder on 32-bit values. |
| Wire.Varint32Refines | src/nanopb/pb_decode.c:171-228 | Whenever the 32-bit reader succeeds, the 64-bit reader succeeds on the same bytes, consumes as many and agrees modulo 2^32; so its sign extension and padding rules accept nothing else. |
| Wire.ZigZagRoundTrip | src/nanopb/pb_decode.c:1391-1403 | Zigzag coding is a bijection between signed and unsigned 64-bit values. |
| Wire.FixedRoundTrip | src/nanopb/pb_encode.c:646-682 | Little-endian fixed-width values are read back, whatever follows. |
| Wire.PrefixedRoundTrip | src/nanopb/pb_decode.c:383-396 | A length-delimited block opens to exactly its payload, whatever follows. |
| Wire.RecordLocal | src/nanopb/pb_decode.c:278-333 | The extent of a record does not depend on what follows it. |
| Message.DefaultsOfZero | src/nanopb/pb_decode.c:906-1021 | Setting a zeroed struct to its defaults leaves it zeroed, submessages included. |
| Message.LookupOwnTag | src/nanopb/pb_common.c:195-244 | With strictly increasing tags, a field is found by its own tag and by no other. |
| FieldIter.LoadInvertsPack | src/nanopb/pb.h:787-803 | In each of the 1-, 2-, 4- and 8-word formats, whatever passes the fit assertion is unpacked to what was packed; the one exception is an array_size of 0 in the 1-word format, which comes back as 1. |
| FieldIter.PackedListReadsBack | src/nanopb/pb_common.c:8-72 | A field_info array mixing the four widths: each descriptor is read at its own position exactly if a 16-bit index can hold that position, and then as it was packed. |
| FieldIter.PackAllIsPacked | src/nanopb/pb.h:642-646 | Descriptors with the tags, types, array sizes and data sizes of a message, packed in any mix of formats that fits, make the field_info array the iterator needs, as long as the last one starts where a 16-bit index can reach. |
| FieldIter.UniformExact | src/nanopb/generator/nanopb_generator.py:1625-1649 | With one format for all fields, that is the exact condition: the array is read as the message if and only if width times (fields - 1) is at most 65535. |
| FieldIter.ManyBoolsExact | src/nanopb/pb_common.c:146-150 | A message of n required bools with tags 1 to n in the 4-word format passes all assertions, and is read as it is if and only if n is at most 16384. |
| FieldIter.FindLastTag | src/nanopb/pb_common.c:195-244 | With 16385 of them the message has the tag 16385, and pb_field_iter_find does not find it. |
| FieldIter.CurrentField | src/nanopb/pb_common.c:8-72 | What is loaded for a field of a packed message has its tag, its array size and its required bit, which is what the codecs use. |
| FieldIter.Iterator.Advance | src/nanopb/pb_common.c:122-154 | Cyclic successor; field_info, required and submessage indexes stay the prefix sums of the field index, as far as 16 bits hold them, also across the wrap. |
| FieldIter.Iterator.Next | src/nanopb/pb_common.c:188-193 | Moves to the next field and reports whether it wrapped. |
| FieldIter.Iterator.Find | src/nanopb/pb_common.c:195-244 | From any position and on any descriptor it terminates, finds only fields with the tag, and otherwise is back where it started; on a generated descriptor it succeeds exactly when the tag exists. |
| FieldIter.Iterator.Search | src/nanopb/pb_common.c:218-243 | The wrapping loop: it passes every field once and stops at the tag or at its starting point; a search from the beginning may leave out the fields behind its starting point. |
| FieldIter.FoundIsLookup | src/nanopb/pb_common.c:195-244 | On a generated descriptor the indexed search and a linear lookup find the same field. |
| FieldIter.RequiredIndexes | src/nanopb/pb_common.c:142-152 | The iterator's required index is the number of required fields before the current one. |
| Streams.OStream.Write | src/nanopb/pb_encode.c:93-114 | Succeeds exactly when the bytes fit; then it appends them, and touches nothing outside the window of the stream. |
| Streams.OStream.EncodeVarint32 | src/nanopb/pb_encode.c:582-614 | The two-word digit loops emit the minimal base-128 form of the 64-bit value. |
| Streams.OStream.EncodeVarint | src/nanopb/pb_encode.c:616-632 | The same, with the one-byte fast path. |
| Streams.OStream.EncodeSVarint | src/nanopb/pb_encode.c:634-644 | The masked 64-bit computation is zigzag coding. |
| Streams.OStream.EncodeFixed32 | src/nanopb/pb_encode.c:646-660 | Four bytes, least significant first. |
| Streams.OStream.EncodeFixed64 | src/nanopb/pb_encode.c:663-681 | Eight bytes, least significant first. |
| Streams.OStream.EncodeString | src/nanopb/pb_encode.c:725-731 | A length prefix that equals the number of bytes after it, and those bytes. |
| Streams.OStream.EncodeTag | src/nanopb/pb_encode.c:684-688 | Tag and wire type as one varint. |
| Streams.IStream.ReadByte | src/nanopb/pb_decode.c:124-140 | One byte, or failure at the end with nothing changed. |
| Streams.IStream.Read | src/nanopb/pb_decode.c:81-120 | The next bytes, when that many are left; position plus bytes left is conserved. |
| Streams.IStream.DecodeVarint32 | src/nanopb/pb_decode.c:171-228 | Computes the 32-bit reader of Wire byte by byte and stays inside the stream. |
| Streams.IStream.DecodeVarint | src/nanopb/pb_decode.c:230-251 | Computes the 64-bit reader of Wire. |
| Streams.IStream.DecodeSVarint | src/nanopb/pb_decode.c:1391-1403 | Undoes zigzag coding. |
| Streams.IStream.DecodeFixed32 | src/nanopb/pb_decode.c:1405-1425 | Four bytes, least significant first. |
| Streams.IStream.DecodeFixed64 | src/nanopb/pb_decode.c:1428-1452 | Eight bytes, least significant first. |
| Streams.IStream.SkipVarint | src/nanopb/pb_decode.c:253-262 | Skips to the first byte without continuation bit. |
| Streams.IStream.SkipString | src/nanopb/pb_decode.c:264-276 | Skips a length prefix and as many bytes. |
| Streams.IStream.SkipField | src/nanopb/pb_decode.c:318-333 | Skips one field of wire type 0, 1, 2 or 5 and refuses the others. |
| Streams.IStream.DecodeTag | src/nanopb/pb_decode.c:278-316 | End of file only at an empty stream; otherwise tag and wire type. |
| Streams.IStream.MakeSubstream | src/nanopb/pb_decode.c:383-396 | The substream covers exactly the delimited bytes and the parent keeps exactly what follows them; a length past the end is refused. |
| Streams.IStream.CloseSubstream | src/nanopb/pb_decode.c:398-411 | Whatever is left in the substream is skipped, and the parent continues right behind it. |
| Encoder.CheckDefault | src/nanopb/pb_encode.c:253-367 | Decides whether a field holds its default, through submessages; for which values that is, `Omission` says. |
| Encoder.EncodeInt | src/nanopb/pb_encode.c:790-843 | Sign or zero extension from the in-memory width, then a varint. |
| Encoder.EncodeCString | src/nanopb/pb_encode.c:891-942 | The bytes before the terminator, which must lie in the array. |
| Encoder.EncodeValue | src/nanopb/pb_encode.c:371-411 | The payload of one value, or the error that its type calls for. |
| Encoder.EncodeSubmessage | src/nanopb/pb_encode.c:733-786 | Measuring, writing the length and writing the message give a block whose prefix is the length of what follows, at any depth; it fails only when the message cannot be encoded or does not fit, so the two passes never disagree. |
| Encoder.EncodeArray | src/nanopb/pb_encode.c:137-249 | A packed block when the type allows it, tagged elements otherwise, an error above max_count. |
| Encoder.EncodeField | src/nanopb/pb_encode.c:427-479 | Presence rules for required, optional, singular, repeated and oneof fields; which fields contribute nothing, `Omission.FieldOmitted` says of their values. |
| Encoder.EncodeMessage | src/nanopb/pb_encode.c:521-543 | Succeeds exactly when the struct can be encoded and the bytes fit; they are appended. On a sizing stream the same bytes are counted. |
| Encoder.GetEncodedSize | src/nanopb/pb_encode.c:566-575 | Returns the number of bytes an encode into a large enough buffer writes, and fails for the same structs. |
| Omission.SingularOmitted | src/nanopb/pb_encode.c:253-369 | A singular field of a well-formed struct contributes no byte if and only if its number is 0, its string or bytes are empty, its fixed length is 0, or every field of its submessage contributes nothing. |
| Omission.MessageOmitted | src/nanopb/pb_encode.c:320-346 | A well-formed struct encodes to nothing if and only if its values are silent: said of the values alone, at every depth. |
| Omission.ZeroedOmitted | src/nanopb/pb_encode.c:253-369 | A zeroed struct encodes to nothing if and only if its type, singular submessages included, has no required field, no array of positive fixed count and no singular bytes of positive fixed length. |
| Omission.FiveSeconds | src/google/protobuf/duration.pb.h:99-101 | A Duration of 5 seconds and 0 nanos encodes to 08 05, and the zero Duration to nothing. |
| Decoder.SetToDefaults | src/nanopb/pb_decode.c:988-1021 | Iterating over the fields sets each to its default. |
| Decoder.FieldSetToDefault | src/nanopb/pb_decode.c:906-986 | One field: absent, zero, or a defaulted submessage. |
| Decoder.DecodeInt | src/nanopb/pb_decode.c:1460-1530 | Conversion to the in-memory width, refusing what does not fit; the ranges are those of `Ranges.NumberAccepted`. |
| Decoder.DecodeData | src/nanopb/pb_decode.c:1532-1620 | Bytes and strings: length checks before anything is read. |
| Decoder.DecodeScalar | src/nanopb/pb_decode.c:417-486 | Wire type checks and dispatch. |
| Decoder.DecodeSubmessage | src/nanopb/pb_decode.c:1622-1672 | A submessage is decoded inside its substream, into the memory it occupies, initialised first only in a new array element. |
| Decoder.DecodePacked | src/nanopb/pb_decode.c:500-541 | A packed block: element after element until block or array is full; a block longer than the array is refused. |
| Decoder.DecodeStaticField | src/nanopb/pb_decode.c:488-576 | What one occurrence of a field does to the struct, by rule: overwrite or merge, append, replace the oneof member. |
| Decoder.MarkSeen | src/nanopb/pb_decode.c:1141-1146 | Sets the bit of a required field and no other. |
| Decoder.AllRequiredSeen | src/nanopb/pb_decode.c:1165-1193 | The word-wise comparison with all-ones masks answers whether every required field (the first 64) was seen, for every count, multiples of 32 or not. |
| Decoder.DecodeRecord | src/nanopb/pb_decode.c:1065-1150 | One turn of the loop after the tag: lookup, skip or decode, and mark. |
| Decoder.DecodeRecords | src/nanopb/pb_decode.c:1065-1156 | The loop consumes the stream record by record, with bytes_left as its measure, on arbitrary input. |
| Decoder.DecodeInner | src/nanopb/pb_decode.c:1027-1196 | Computes the decoding function: same outcome, same struct; the stream ends up at its end. |
| Decoder.PbDecode | src/nanopb/pb_decode.c:1226-1229 | pb_decode accepts exactly what the decoding function accepts and builds that struct. |
| Ranges.VarintExact | src/nanopb/pb_decode.c:230-249 | A varint is accepted if and only if it ends within ten bytes, the tenth at most 1; its value is its seven-bit digits, in shortest form or not. |
| Ranges.Varint32Exact | src/nanopb/pb_decode.c:171-225 | The 32-bit reader accepts the same byte strings exactly if the three surplus bits of the fifth byte are all clear or all set with the sign, and each later byte is without digits or, behind a negative number, all ones; its value is the first five digits modulo 2^32. |
| Ranges.NumberAccepted | src/nanopb/pb_decode.c:1460-1528 | An integer of any width is accepted if and only if the number sent lies in the range of the width (of an int32 or narrower, the low 32 bits read as signed), and is stored as sent. |
| Ranges.IntegerMessage | src/nanopb/pb_decode.c:1460-1528 | The same of pb_decode on a message with one integer field of any tag, with both outcomes. |
| Ranges.BoolMessage | src/nanopb/pb_decode.c:1381-1389 | A bool is true unless the 32 bits received are zero. |
| Ranges.PayloadMessage | src/nanopb/pb_decode.c:1532-1700 | A string of at most max - 1 bytes is stored, bytes of at most the array's capacity, bytes of fixed length in that length or zeros for none; any other length is refused. |
| Ranges.Fixed32Message | src/nanopb/pb_decode.c:1405-1426 | A fixed32 field has the tag byte 8t + 5 and four bytes, least significant first. |
| Ranges.Fixed64Message | src/nanopb/pb_decode.c:1428-1452 | A fixed64 field has the tag byte 8t + 1 and eight bytes, least significant first. |
| Ranges.TooLarge | src/nanopb/pb_decode.c:1480-1481 | 2^32 in a uint32 field is refused, 2^32 - 1 is stored. |
| Ranges.NumberBytes | src/nanopb/pb_encode.c:790-863 | What is sent for a number: the tag with its wire type, signed integers extended to 64 bits, zigzag with the non-negative ones even, fixed words as they are. |
| Ranges.ZigZagOrders | src/nanopb/pb_encode.c:634-644 | Zigzag orders by magnitude, a negative number right before its opposite. |
| Refusals.ZeroTag | src/nanopb/pb_decode.c:1067-1078 | A record with field number 0 is refused. |
| Refusals.WireTypeRefused | src/nanopb/pb_decode.c:417-486 | A field that is no array is refused under any wire type but its own. |
| Refusals.UnknownField | src/nanopb/pb_decode.c:318-334 | Unknown fields of wire type 1 and 5 are passed over with eight and four bytes; wire types 3, 4, 6 and 7 are refused. |
| Refusals.FixedCount | src/nanopb/pb_decode.c:488-560 | A packed block for a fixed-count array is accepted if and only if it has exactly that many elements. |
| Refusals.LeftIncomplete | src/nanopb/pb_decode.c:1120-1131 | While one fixed-count array is incomplete, a record of another is refused, whatever its wire type and payload. |
| Locality.StepOnRecord | src/nanopb/pb_decode.c:1065-1150 | What a whole record does to the decoder does not depend on what follows it. |
| Merging.UnknownFieldsTransparent | src/nanopb/pb_decode.c:1080-1115 | For every input, valid or not, removing all records of unknown tag changes neither whether decoding succeeds nor the struct. |
| Merging.UnknownInserted | src/nanopb/pb_decode.c:318-333 | Unknown records of any wire type the skipper knows may be inserted between the records of a message. |
| Merging.AcceptedIsWhole | src/nanopb/pb_decode.c:1065-1150 | Accepted input is a sequence of whole records. |
| Merging.LastFixedIsRemembered | src/nanopb/pb_decode.c:1117-1139 | The decoder remembers the last fixed-count field of its input and nothing else about fixed-count fields. |
| Merging.ConcatenationIsMerge | src/nanopb/pb_decode.c:1027-1196 | Decoding a and then b without initialisation is decoding a + b, for every message type and destination, except exactly when the last fixed-count field in a is the first in b and has a non-empty array: then a + b is refused. |
| Merging.DecodeConcatenation | src/nanopb/pb_decode.h:90-95 | For every message type: pb_decode of a + b is pb_decode of a followed by a decode of b without initialisation, with the same exception. |
| Merging.SubmessagesMerge | src/nanopb/pb_decode.c:1652-1666 | Two occurrences of a submessage field, oneof members not selected before included, act as one whose payload is the concatenation, except exactly when that reopens a fixed-count array of the submessage: then it is refused. |
| Merging.FixedArrayConcatenationFails | src/nanopb/pb_decode.c:1117-1139 | Two valid messages with a fixed-count array whose concatenation is rejected. |
| RoundTrip.IntRoundTrip | src/nanopb/pb_decode.c:1460-1530 | Integers of every width and sign survive extension, varint and conversion. |
| RoundTrip.PackedRoundTrip | src/nanopb/pb_decode.c:500-541 | A packed block decodes to its elements exactly when there is room for them. |
| RoundTrip.ArrayRoundTrip | src/nanopb/pb_encode.c:137-249 | What is written for an array, packed or not, fixed-count or not, rebuilds the array. |
| RoundTrip.CellsRoundTrip | src/nanopb/pb_decode.c:1027-1196 | Decoding an encoding into any memory set to its defaults gives the struct that was encoded, laid over that memory: every field sent is rebuilt, and only what lies in absent optional fields stays. |
| Validity.DecodeKeepsStructValid | src/nanopb/pb_decode.c:488-576 | Arbitrary accepted input leaves the struct well-formed: counts within arrays, integers within their width, lengths within their buffers, which_ naming a member. |
| Validity.FieldsEncode | src/nanopb/pb_encode.c:427-479 | Every well-formed struct can be encoded. |
| Validity.DefaultsErase | src/nanopb/pb_decode.c:988-1021 | Without fixed-count arrays, setting defaults erases whatever was in the struct. |
| Validity.MessageRoundTrip | src/nanopb/pb_encode.c:521-543 | For every descriptor tree of static fields, every well-formed struct with absent fields zeroed and every well-formed destination memory: it encodes, decoding succeeds, and the result is that struct up to the contents of absent optional fields. Where repeated submessages hold no fixed-count arrays, it is exactly that struct if and only if, after defaulting, the memory is zero where the struct has an absent optional field. |
| Validity.StaleMemory | src/nanopb/pb_decode.c:906-986 | Memory in which an absent optional submessage holds something: the empty encoding of the zeroed struct decodes into it and leaves it there. |
| Validity.CleanRoundTrip | src/nanopb/pb_encode.c:521-543 | Exactly that struct from zeroed memory, and from any memory at all when the type has no fixed-count arrays. |
| Validity.EncodingInjective | src/nanopb/pb_encode.c:521-543 | Different structs have different encodings. |
| Canonical.EncodeThenDecode | src/nanopb/pb_encode.c:920-942 | Every well-formed struct encodes, and decodes into zeroed memory as the same struct with its strings cut at the first NUL and its absent fields zeroed; that is the same struct exactly when it was clean. |
| Canonical.Reencoding | src/nanopb/pb_decode.c:1226-1229 | For every input that pb_decode accepts: the struct can be encoded, and decoding that gives its canonical form, whose encoding is the same. |
| Canonical.ReencodingExact | src/nanopb/pb_decode.c:1572-1620 | Without fixed-count arrays, what was decoded into zeroed memory survives being encoded and decoded again if and only if no string in it has a NUL before its end. |
| Canonical.EmbeddedNul | src/nanopb/pb_decode.c:1572-1620 | A string with an embedded NUL is accepted, and comes back shorter. |
| Presence.SeenExact | src/nanopb/pb_decode.c:1141-1146 | A required field is marked exactly when its tag occurs in the input. |
| Presence.RequiredCheckExact | src/nanopb/pb_decode.c:1165-1193 | If every record decodes and no fixed-count array is left incomplete, a message is accepted if and only if each of the first 64 required fields occurs, in any order and number. |
| Presence.PackedAndUnpackedAgree | src/nanopb/pb_decode.c:500-541 | Any interleaving of packed blocks and single elements of a scalar array decodes to the concatenation of the elements, or is refused, exactly when they exceed the array. |
| Presence.SixtyFourRequired | src/nanopb/pb_decode.c:1141-1145 | A required field is tracked if and only if fewer than 64 required fields come before it. |
| SizeBound.ComputeVarintMaxSize | src/nanopb/generator/nanopb_generator.py:263-270 | The shifting loop computes the specification of varint_max_size, its error case included. |
| SizeBound.VarintMaxSizeExact | src/nanopb/generator/nanopb_generator.py:263-270 | It is the length of the longest varint up to its argument, and 10 for negative values. |
| SizeBound.PackedWithinUnpacked | src/nanopb/generator/nanopb_generator.py:1102-1111 | A packed array with tag and length prefix never exceeds the bound made for unpacked elements, given the extra byte at max_count 1. |
| SizeBound.EnumBound | src/nanopb/generator/nanopb_generator.py:1086-1092 | A declared enum value, negative ones included, takes no more than the enum's bound. |
| SizeBound.ArrayBound | src/nanopb/generator/nanopb_generator.py:1102-1111 | The same for every array the encoder accepts. |
| SizeBound.FieldBound | src/nanopb/generator/nanopb_generator.py:1041-1113 | A field stays within its bound; an unselected oneof member writes nothing. |
| SizeBound.EntryStep | src/nanopb/generator/nanopb_generator.py:1290-1305 | Counting a oneof once, at its largest member, covers the selected member wherever it stands; the exact account is `SizeGaps.EntryAccount`. |
| SizeBound.EncodedSizeBound | src/nanopb/generator/nanopb_generator.py:1657-1668 | For every message type with a numeric size and every value the schema allows, pb_encode writes at most encoded_size bytes. |
| SizeBound.EncodeBounded | src/nanopb/generator/nanopb_generator.py:1657-1668 | An encode into a buffer of encoded_size bytes never runs out of space. |
| SizeBound.BytesBoundExact | src/nanopb/generator/nanopb_generator.py:769-769 | A bytes field meets its bound exactly up to the declared max_size; the array's padding byte, which the codec counts as capacity, is not covered. |
| SizeBound.MessageBoundExact | src/nanopb/generator/nanopb_generator.py:1657-1668 | For a message of one required bytes field, of any tag and max_size, what pb_encode writes for a value it accepts stays within encoded_size exactly when the value has at most max_size bytes. |
| SizeBound.PaddingByteCounterexample | src/nanopb/pb.h:402-403 | A bytes field with max_size 1 accepts two bytes: the message takes four bytes and encoded_size is 3. |
| SizeGaps.LargestIsMaximum | src/nanopb/generator/nanopb_generator.py:1290-1305 | A oneof counts exactly as its largest member: every member is covered and one has that size; without members it is 0. |
| SizeGaps.TwoMembers | src/nanopb/generator/nanopb_generator.py:1290-1305 | A oneof of two int32 members with the tags 1 and 2 makes an encoded_size of 11. |
| SizeGaps.SizeIsAccounted | src/nanopb/generator/nanopb_generator.py:1657-1673 | For every message type and every well-formed struct the schema allows, encoded_size is the encoded length plus what each entry leaves over: an exact account, oneofs included. |
| SizeGaps.NothingOver | src/nanopb/generator/nanopb_generator.py:1657-1673 | No entry leaves less than nothing over, so the bound is met exactly if and only if every entry fills its own. |
| SizeGaps.EmbeddedFills | src/nanopb/generator/nanopb_generator.py:1049-1067 | An embedded message fills what it is counted at if and only if it fills its own encoded_size. |
| SizeGaps.EnumIsLongest | src/nanopb/generator/nanopb_generator.py:433-434 | An enum is counted at the longest of its values, and one has that length. |
| SizeAttained.SizeIsAttained | src/nanopb/generator/nanopb_generator.py:1657-1673 | For messages of scalars, strings and bytes: no struct the schema allows encodes to more than encoded_size, and one encodes to exactly that if and only if `MessageAttains` holds, a condition on types, sizes, tags and counts. |
| SizeAttained.FieldCondition | src/nanopb/generator/nanopb_generator.py:1041-1113 | The bound for a field is its longest form exactly under `FieldAttains`: strings not of size 128 or 16384; singular fields that can hold something; scalar arrays of at most one element, or two with a one-byte tag; other arrays not of exactly one. |
| WireExamples.DurationSize | src/google/protobuf/duration.pb.h:112-112 | The size that the generated header declares for a Duration, 22, is its encoded_size, and some Duration takes it. |
| WireExamples.Packed | src/nanopb/pb_encode.c:137-199 | The array 3, 270, 86942 with tag 4 is sent as 22 06 03 8E 02 9E A7 05. |
| WireExamples.TwoFields | src/google/protobuf/duration.pb.h:99-101 | A Duration of 5 seconds and 7 nanos encodes to 08 05 10 07. |
| WireExamples.Embedded150 | src/nanopb/pb_encode.c:725-785 | An int32 of 150 in a submessage with tag 3 is sent as 1A 03 08 96 01. |
| WireExamples.MoreWords | src/nanopb/pb.h:791-803 | One descriptor with a tag above 63 in the 2-, 4- and 8-word formats, as words, is read as it is. |
| Dependencies.CheckExact | src/nanopb/generator/nanopb_generator.py:1783-1799 | On ranked known messages the check terminates and answers exactly whether the message reaches the root. |
| Dependencies.CheckKeepsAcyclic | src/nanopb/generator/nanopb_generator.py:1994-2001 | Adding a message keeps the graph acyclic if and only if it passes the check. |
| Dependencies.AcyclicIsRanked | src/nanopb/generator/nanopb_generator.py:1783-1799 | Every acyclic graph has a rank, so the check terminates on it. |
| Dependencies.RankedIsAcyclic | src/nanopb/generator/nanopb_generator.py:1783-1799 | And only acyclic graphs have one. |
| Dependencies.ParsedExact | src/nanopb/generator/nanopb_generator.py:1994-2001 | For any messages and any fallback types, the graph of the messages read so far stays acyclic all the way, as the check needs it to be in order to end, if and only if every message that is converted no longer contains itself. |
| Dependencies.CallbacksBreak | src/nanopb/generator/nanopb_generator.py:1997-1997 | Conversion to callbacks, the default, always does that. |
| Dependencies.StaticFallback | src/nanopb/generator/nanopb_generator.py:1997-1997 | A message that contains itself and has a static fallback type leaves a cycle. |
| Dependencies.ParseMessages | src/nanopb/generator/nanopb_generator.py:1994-2001 | Under that condition the loop ends with exactly the graph in which every message that would have contained itself is converted, and no other; it is acyclic. |
| Dependencies.FindFree | src/nanopb/generator/nanopb_generator.py:1813-1818 | The candidate loop stops at the first message none of whose dependencies remains. |
| Dependencies.SomeFree | src/nanopb/generator/nanopb_generator.py:1812-1819 | In an acyclic set there always is one. |
| Dependencies.SortDependencies | src/nanopb/generator/nanopb_generator.py:1801-1823 | Always a permutation; the circular branch is taken exactly when some message contains itself, and otherwise every message comes after all it embeds. The order is the greedy one, which is stable (`KeepsOrder`). |
| Dependencies.KeepsOrder | src/nanopb/generator/nanopb_generator.py:1810-1823 | The sort is stable: of two messages the earlier one stays in front, unless it waits for a message that the later one does not wait for; with or without cycles. |
| WordStream.EncryptRefinesBytes | src/platform_posix.c:610-647 | The word loop with its partial-word buffer refines a machine that encrypts one byte at a time: same output, same state wherever mbuf is in use. |
| WordStream.ChunkingIrrelevant | src/platform_posix.c:610-647 | Splitting the data over any sequence of calls changes neither output nor state. |
| WordStream.WordChunksIrrelevant | src/platform_esp32.c:562-595 | As long as every call but the last is a number of whole words, splitting the data changes neither output nor any part of the state, in either direction and on either platform. |
| WordStream.CallUndone | src/platform_esp32.c:597-629 | From equal states, decryption that folds plaintext returns the data and ends in the identical state, inside or outside a partial word. |
| WordStream.CallSame | src/platform_posix.c:610-688 | A stale mbuf influences nothing. |
| WordStream.AlignedUndone | src/platform_posix.c:649-688 | From a word boundary, decryption returns data of any length, with the same register and position, on both platforms. |
| WordStream.AlignedAgreesExactly | src/platform_posix.c:674-687 | Where decryption folds ciphertext, the states agree exactly when the bytes after the last whole word are the same in both texts. |
| ShannonWords.CodingIsLawful | src/platform_posix.c:461-477 | BYTE2WORD, WORD2BYTE and the byte-wise handling of a partial word are consistent on 32-bit words. |
| ShannonLaws.PosixChunks | src/platform_posix.c:610-647 | POSIX: any chunking gives the ciphertext, the state (mbuf while a word is pending) and the MAC of a single call. |
| ShannonLaws.Esp32Decrypts | src/platform_esp32.c:562-639 | ESP32: with the same chunk lengths, decryption returns the plaintext and ends in the identical full state. |
| ShannonLaws.Esp32WordChunks | src/platform_esp32.c:562-639 | ESP32: chunks that keep to word boundaries give the output, the state and so the MAC of a single call. |
| Esp32Chunks.SplitWord | src/platform_esp32.c:562-595 | Where a completed partial word is not accumulated, splitting a word between two calls keeps its output, and the register lacks exactly that word. |
| Esp32Chunks.CallBack | src/platform_esp32.c:562-595 | ESP32: if encrypting the same data from a word boundary ends in the same words, it began with the same words: no step of the cipher forgets anything of R or CRC. |
| Esp32Chunks.Esp32TwoCalls | src/platform_esp32.c:562-595 | ESP32: two encrypt calls of any lengths, from any state, end in the state of one if and only if the second does not complete a word that the first began, or that word is zero and all words of CRC are the same; then the outputs agree, and in any case up to the end of that word. |
| ShannonLaws.PosixDecrypts | src/platform_posix.c:610-688 | POSIX: one call from a word boundary recovers any length; the states of the two ends agree if and only if the keystream word after the last whole word is zero in as many bytes as are left over; for lengths divisible by four the MACs agree. |
| ShannonLaws.PosixEndsDiffer | src/platform_posix.c:674-687 | A state and one byte of data after which the two ends differ. |
| ShannonLaws.NonceResetsHistory | src/platform_posix.c:602-608 | Two ciphers with the same key and arbitrary different pasts cannot be told apart after the same nonce, whatever memory they started from; on either platform. |
| ShannonLaws.LoadKeyAgree | src/platform_posix.c:531-554 | Loading a key or nonce leaves nothing of the old state but initR. |
| ShannonLaws.RunKeepsInit | src/platform_posix.c:602-705 | No call but a new key changes the saved register. |
| ShannonCipher.Context.CycleOnce | src/platform_posix.c:479-489 | The in-place shift and mix compute the cycle. |
| ShannonCipher.Context.MacOnce | src/platform_posix.c:491-502 | The in-place CRC shift and key addition. |
| ShannonCipher.Context.LoadKeyBytes | src/platform_posix.c:531-554 | Words, padded remainder, length, diffusion, in place; what of the key the register then tells, `KeyLoading` says. |
| ShannonCipher.Context.SetKeyBytes | src/platform_posix.c:565-571 | platform_shannon_key in place: different short keys, and keys that differ in one word, give different CRC words (`KeyLoading.KeysTell`). |
| ShannonCipher.Context.SetNonceBytes | src/platform_posix.c:602-608 | platform_shannon_nonce in place: the same holds of nonces (`KeyLoading.NoncesTell`). |
| ShannonCipher.Context.Crypt | src/platform_posix.c:610-688 | Encrypt and decrypt in place: state and buffer are those of the call function, and the rest of the buffer is untouched. |
| ShannonCipher.Context.FinishMac | src/platform_posix.c:690-705 | platform_shannon_finish. |
| KeyLoading.LoadsWords | src/platform_posix.c:531-547 | The loop loads the key as little-endian words, the last one padded with zeros: the register is the fold of "add a word, then a cycle" over them, on both platforms. |
| KeyLoading.CrcIsLoaded | src/platform_posix.c:548-550 | CRC is the register behind all words of the key and, as one more word, its length. |
| KeyLoading.PaddingLoads | src/platform_posix.c:540-547 | A key whose length is no multiple of four loads the same words as its zero-padded form. |
| KeyLoading.KeysTell | src/platform_posix.c:565-571 | Two keys of any equal length that differ in exactly one four-byte word, a padded last one included, leave different CRC words, whatever the ciphers did before, on both platforms. |
| KeyLoading.NoncesTell | src/platform_posix.c:602-608 | The same for two nonces over the same saved register. |
| KeyLoading.ShortKeysTell | src/platform_posix.c:565-571 | Up to 44 bytes (the session keys have 32), keys of equal length leave the same CRC if and only if they are the same key. |
| KeyLoading.ShortNoncesTell | src/platform_posix.c:602-608 | The same for nonces over the same saved register. |
| KeyLoading.FiveBytes | src/platform_esp32.c:511-529 | The key 01 02 03 04 05 is loaded as 0x04030201, 0x00000005 and its length 5. |
| KeyLoading.PaddedDiffers | src/platform_esp32.c:528-530 | That key and its zero-padded form leave different CRC words: the length tells them apart. |
| KnownAnswers.PosixAnswer | src/platform_posix.c:438-708 | On POSIX, key 01 02 03 04 05 and data 0A 14 1E 28 32 give the output FD 69 BC 48 70 and the MAC CC 52 A0 72. |
| KnownAnswers.Esp32Answer | src/platform_esp32.c:409-645 | On ESP32 they give 7B EC 06 0C B1 and 0A E1 63 F9. |
| Names.SkipAgreesWithExtract | thirdparty/mdns.h:562-580 | Whatever can be extracted is skipped to the same end position, on arbitrary bytes. |
| Names.ReadsIsExtracted | thirdparty/mdns.h:623-659 | Where labels are stored, extraction yields exactly them and the position behind the name, pointers included; above 64 labels it yields nothing (`Limits.SixtyFourLabels`). |
| Names.ReadsStays | thirdparty/mdns.h:528-560 | A stored name stays readable as long as its own bytes stay. |
| Names.PrefixIsAll | thirdparty/mdns.h:661-702 | Of two names that end in the same label, which occurs nowhere else in them, neither is a proper prefix of the other. |
| Names.PointsBackUnreadable | thirdparty/mdns.h:623-659 | A name whose pointer leads back to one of its own labels cannot be extracted. |
| Names.Completes | thirdparty/mdns.h:737-773 | Once the rest of a name can be read behind its stored labels, every suffix can be read at its label. |
| Names.NameText | thirdparty/mdns.h:737-773 | The labels of a name, written with dots, are the name. |
| Mdns.GetNextSubstring | thirdparty/mdns.h:528-560 | The pointer loop computes the reader function on arbitrary bytes, within 16 hops and inside the packet. |
| Mdns.StringSkip | thirdparty/mdns.h:562-580 | Computes the skipping function. |
| Mdns.StringExtract | thirdparty/mdns.h:623-659 | The dotted labels, clipped to the capacity, and the position behind the name; an unreadable name, such as one of 65 labels, yields nothing and leaves the offset. |
| Mdns.Table.Add | thirdparty/mdns.h:705-717 | The ring: a new entry behind the others, or in the place of the oldest of 16, and the position after it. |
| Mdns.MatchesEntry | thirdparty/mdns.h:667-699 | An entry matches exactly when its name begins with the labels sought; of an entry of the name being written only the labels that are there are read. |
| Mdns.TableFind | thirdparty/mdns.h:661-702 | The offset of the first entry whose name begins with the labels sought; nothing if and only if there is none. |
| Limits.SixtyFourLabels | thirdparty/mdns.h:623-659 | Every stored name of at most 64 labels extracts to its labels and skips to its end; one of 65 or more cannot be extracted. |
| Limits.ExtractedExact | thirdparty/mdns.h:623-659 | On any bytes, extraction yields given labels if and only if they are at most 64 and are spelled there, each found where the one before ends, up to an empty one; the name ends two bytes behind its first pointer, or behind the empty label. |
| Limits.SkippedExact | thirdparty/mdns.h:562-582 | On any bytes, skipping ends at a position if and only if at most 64 labels lead there, with a pointer that leads somewhere or an empty label behind them. |
| Limits.WriteLetters | thirdparty/mdns.h:737-773 | A name of n different one-byte labels, written into an empty packet, is read back if and only if n is at most 64. |
| Limits.SixteenHops | thirdparty/mdns.h:528-560 | On any bytes, a label behind up to 16 pointers in a row is found, and behind 17 or more it is not. |
| Limits.NothingElse | thirdparty/mdns.h:528-560 | Whatever is found in any bytes, unless a zero byte, is a label behind at most 16 pointers that lies in the packet as a whole. |
| Limits.ChainExtracts | thirdparty/mdns.h:623-659 | A packet with one name and a chain of n pointers to it: read through the last one if and only if n is at most 16. |
| Limits.WrittenTwice | thirdparty/mdns.h:705-717 | A name of different labels, written again after itself, is a mere pointer if it has at most sixteen labels, and is written in full otherwise. |
| Compression.ReadsAsExact | thirdparty/mdns.h:737-773 | A written name begins with its labels, and reads as them if and only if the search for its remaining labels did not stop at an entry that goes on behind them. |
| Compression.RunExact | thirdparty/mdns.h:737-773 | Any sequence of names, each of labels of 1 to 63 bytes of which no run is repeated right behind itself or at the end, reads back as written if and only if none of them was diverted like that, whatever the ring of sixteen has evicted in between. |
| Compression.PrefixFreeRun | thirdparty/mdns.h:737-773 | A condition on the names alone: if no end of a name is a proper prefix of an end of an earlier one, such names read back as written. |
| Compression.SharedIsPrefixFree | thirdparty/mdns.h:698-699 | Names that share their last label, which occurs only last, meet that condition. |
| Compression.SharedRun | thirdparty/mdns.h:737-773 | Such names that all end in one label, which occurs in them only last, read back as written. |
| Compression.PrefixCounterexample | thirdparty/mdns.h:698-699 | Written in this order, "a.b.c" and "a.b" both read back as "a.b.c". |
| Compression.WritingStep | thirdparty/mdns.h:747-766 | One more label and table entry keep the invariant of a name under construction, whichever entry is evicted. |
| Compression.IntactAgain | thirdparty/mdns.h:768-772 | Finishing a name makes its table entries and all names readable again. |
| Packet.Packet.WriteRaw | thirdparty/mdns.h:1214-1284 | Writing record headers and data outside of names, a length patched in later included, keeps every name. |
| Packet.Packet.FindRest | thirdparty/mdns.h:749-756 | The search for the rest of a name returns the offset of the first entry whose name begins with it, and that entry can be read; nothing if and only if there is none. |
| Packet.Packet.MakeName | thirdparty/mdns.h:737-773 | Writing a name gives the packet and the ring that writing its labels gives: the name reads as the labels before the first match and then the matching entry. The end position is exact, failure means that this does not fit, all earlier names stay readable, and nothing before the start is touched. |
| Packet.Packet.Readable | thirdparty/mdns.h:623-659 | Every name written so far extracts to the labels it reads as, if they are at most 64, and skips to the same end, in a packet of any size that holds them. |
| Packet.ExtractsExactly | thirdparty/mdns.h:623-659 | In a packet, a name of at most 64 labels extracts to the labels it was written with if and only if it was not diverted. |
| Packet.MakeSharedName | thirdparty/mdns.h:737-773 | With a shared last label that occurs only last, a successful write adds exactly the name given, and keeps that so. |
| Packet.WritePrefix | thirdparty/mdns.h:737-773 | Writing a name of three labels and then its first two into an empty packet succeeds, and both extract as the first. |
| Packet.WriteRepeated | thirdparty/mdns.h:737-773 | With the first two labels of "x.y.x" written into an empty packet, the search for the third finds the first, and with the pointer to it the name cannot be extracted. |
| Utf8.AcceptsIsWellFormed | src/nanopb/pb_common.c:334-385 | Deciding by the first byte is the same as splitting into the sequences of section 4 of RFC 3629, U+FFFE and U+FFFF excepted. |
| Utf8.ValidateUtf8 | src/nanopb/pb_common.c:334-385 | Accepts exactly the well-formed strings, and reads nothing behind the first NUL. |

Every method of the table that computes a function is tied to it by its `ensures`; the rows of the modules `Wire`,
`Merging`, `RoundTrip`, `Validity`, `Canonical`, `Presence`, `Omission`, `Ranges`, `Refusals`, `SizeBound`, `SizeGaps`,
`SizeAttained`, `WordStream`, `ShannonLaws`, `Esp32Chunks`, `KeyLoading`, `KnownAnswers`, `Names`, `Limits` and
`Compression` say what those functions satisfy.

## Left out

- Encoder.EncodeMessage: lengths are assumed to fit a 64-bit `size_t` (`Measured`); the overflow test of `pb_write` is then never true and is not modelled.
- Decoder.PbDecode: the flags PB_DECODE_NULLTERMINATED and PB_DECODE_DELIMITED; PB_DECODE_NOINIT is the `init` parameter of `DecodeInner`.
- Validity.MessageRoundTrip: encodings of 2^32 bytes or more, because the decoder reads 32-bit lengths; the same in `Canonical`.
- FieldIter.LoadInvertsPack: the PB_FIELD_32BIT configuration; in the 4- and 8-word formats a size_offset above 127, which the cast to `int_least8_t` in their assertions changes before it is tested; descriptors with 65535 fields or more.
- Decoder.DecodeStaticField: an array is modelled up to its count, so a new element of a repeated submessage starts from zeroed memory.  In C the element lies in array storage, and as setting defaults does not clear fixed-count arrays, those nested in it keep what an earlier element left there, and this can be observed when the new element does not send them.
- SizeAttained.SizeIsAttained: the condition is given for scalars, strings and bytes; of embedded messages and enums only when the single field fills its bound (`SizeGaps.EmbeddedFills`, `SizeGaps.EnumIsLongest`).
- KeyLoading.KeysTell: keys of different lengths, and longer keys that differ in several words, may leave the same CRC; nothing is said of the register behind the diffusion.
- SizeBound.EncodedSizeBound: symbolic sizes and messages of other files, for which the generator emits an expression instead of a number.
- Dependencies.ParseMessages: how the run goes on after a conversion that leaves a cycle, where the recursive check need not end.
- Packet.Packet.MakeName: names with a label outside 1 to 63 bytes, or with a run of labels repeated right behind itself or at the end of the name (of the latter `WriteRepeated` shows one), packets above 0x4000 bytes, and a NULL table.  After a failed write the packet is only promised to keep its names; the table may hold entries of the unfinished name.
- ShannonCipher.Context.Crypt: the POSIX and the ESP32 text share one class; the platform is a constant that selects the differing statements.
- ShannonLaws.PosixDecrypts: nothing is said of the MACs when the states differ, since two states may have the same MAC; the same holds of `Esp32TwoCalls`.
- Pointer fields and allocation, user callbacks, extension fields, default_value, PB_CONVERT_DOUBLE_FLOAT: struct memory is a value tree.
- Memory that no well-formed struct has or that cannot be observed: bools other than 0 and 1, array storage beyond the count (but see `DecodeStaticField`), the contents of a union whose which_ field is 0.
- Streams other than memory buffers and sizing streams, and alignment of the size member of a bytes array other than two bytes.
- Error message strings: a failure is `false`, `None` or `Bad`.
- `platform_shannon_key_pair`, and `src/platform_windows.c`, whose cipher repeats the POSIX text.
- `mdns_string_equal`, and the order in which `mdns.h` puts records together: `WriteRaw` stands for everything in a packet that is not a name.
- The protobuf reader of `src/mercury.c`, sockets, TLS, HTTP, mDNS transport, threads, AES, SHA1, DH, base64, and the text output of the generator.
