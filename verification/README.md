# Protocol and format libraries: a verified model

A Dafny 4.11 model of five libraries carried by this SDK, with the properties their
documentation and standards promise. Each library has a specification (functions on values)
and, where the C code works step by step, methods and classes with the same loops, buffers
and fields, proved against that specification. `dafny verify dfyconfig.toml` checks everything.

**nanopb** (`Pb*.dfy`). A descriptor table drives a recursive encoder in two passes (count, then
write) and a recursive decoder over nested sub-streams. `PbVarint` holds the integer encodings,
`PbFields` the layout of a structure and the cyclic iterator, `PbMessage` values, encoding and
merge, `PbDecode` the decoder as a function; `PbIStream`, `PbDecoder`, `PbOStream` and `PbEncoder`
are the stream and field code; `PbRoundTrip`, `PbMerge`, `PbUnknown`, `PbRequired`, `PbEvolution`,
`PbLimits` and `PbSound` hold the theorems about whole messages. The wire format is that of the Protocol Buffers encoding guide, section
"Base 128 Varints". The build sets `PB_FIELD_16BIT` (src/CMakeLists.txt:321), so sizes and tags end
at 65535.

**libmodbus RTU** (`Modbus*.dfy`). `ModbusCrc` relates the lookup tables to the bitwise checksum
(MODBUS over Serial Line V1.02, section 6.2.2) and proves burst detection. `ModbusFrame` says how
far a frame extends, `ModbusProtocol` what requests, replies, checks and the operations themselves
are (MODBUS Application Protocol V1.1b, sections 6.1 to 6.6, 6.11 to 6.13, 6.16, 6.17 and 7),
`ModbusEndToEnd` that they fit together. `ModbusLine`, `ModbusServer`, `ModbusReply` and
`ModbusClient` are the receive loop, the server and the client over arrays; `ModbusBus` is a slave
listening to the traffic of others, `ModbusStale` says when a reply depends on an earlier message,
`ModbusServed` what a server does with any request, `ModbusHeard` what a client makes of any response.

**parson** (`Json*.dfy`). `JsonString` and `JsonUnescape` treat strings (RFC 4627 section 2.5, RFC 3629
section 3), `JsonValue` the text of a value and the parser as functions, `JsonSyntax` and `JsonGrammar`
the grammar and that the parser accepts exactly it, `JsonRoundTrip` that written text is read back, `JsonEquality` comparison, `JsonBuild` growth and copying, `JsonParser` and
`JsonSerializer` the code, `JsonSound` both together.

**sha1** (`Sha1Spec.dfy`, `Sha1.dfy`). The streaming block buffer refines FIPS 180-4, sections 5.1.1
and 6.1.2.

**nmealib** (`Nmea*.dfy`). The reassembly buffer and packet queue of the stream parser, whatever the
sentence parsers do.

## What the code does differently from what one expects

The model does here what the code does; the members named give the exact condition, or an input
that shows it.

- nanopb encodes a string that fills its array to the last byte, and does not decode it: the
  round trip holds exactly for strings with room for the NUL (`PbRoundTrip.RoundTrip`,
  `PbRoundTrip.FullStringIsRefused`).
- `modbus_reply` adds 0x80 to the function code of an exception even when the request already had
  it, so the answer to an unknown code such as 0x83 looks like the head of a longer reply
  (`ModbusEndToEnd.ReplyDelimited`, `ModbusEndToEnd.MisleadingReply`).
- The range test for function 0x17 repeats the read address (`ModbusEndToEnd.RangeTestExact`).
- For functions 0x0F and 0x10 the byte count is not compared with the quantity, so values behind a
  short request come from what the buffer held before (`ModbusStale.FrameDecidesExactly`,
  `ModbusStale.ShortWrite`).
- A client compares neither address nor value of a write's echo, and ignores the last byte of an odd
  byte count (`ModbusHeard.AcceptedExactly`, `ModbusHeard.EchoNotCompared`, `ModbusHeard.OddCountTaken`).
- nanopb tracks 64 required fields; a message without a later one is accepted
  (`PbRequired.AcceptedExactly`). A signed integer shorter than 8 bytes looks at the low 32 bits of its
  varint only (`PbLimits.IntegerTaken`).
- parson accepts a minus sign that starts no number as 0 and does not consume it
  (`JsonValue.UnreadValue`); an escape that spells NUL cuts its string short
  (`JsonString.DecodedWhole`); an array trimmed after parsing to more than half the limit does not
  grow any more (`JsonBuild.TrimmedIsFull`).
- `nmea_parser_push` never advances its data pointer: pieces behind the first repeat the start of
  the data (`NmeaSpec.PushFeedsData`, `NmeaSpec.PushLosesData`). A star with the wrong bytes behind
  it blocks the parser until its buffer is cleared (`NmeaSpec.StreamBlocks`,
  `NmeaSpec.StuckUntilCleared`).

## Reading the model

Bytes are integers from 0 to 255, or 8-bit vectors where the C code is bitwise throughout (checksum,
SHA-1). Masks and shifts on single bytes are written as `/` and `%` where that is the same; the
bit packing loops keep `|`, `&` and `<<` (`ModbusWords`). The theorems quantify over all inputs the
C types allow, with these preconditions: descriptor tables have distinct non-zero tags and no
extension field; a message's encoding is shorter than 2^32 bytes (32-bit `size_t`); mappings start
at address 0 and coil cells hold 0 or 1; JSON numbers are integers that a `double` holds; SHA-1
messages are shorter than 2^32 bytes. `printf` and `strtod` are taken to be exact on such integers,
and a `double` outside an integer type's range to convert to some value of that type.

## Model

| member | source | states |
|---|---|---|
| PbVarint.VarintLength | sdk/external/nanopb/pb_encode.c:567-587 | A value takes at most n bytes exactly when it is below 2 to the power 7n |
| PbVarint.VarintAtMostTen | sdk/external/nanopb/pb_encode.c:567-587 | Every 64-bit value takes 1 to 10 bytes |
| PbVarint.DecodeEncodeVarint | sdk/external/nanopb/pb_decode.c:250-270 | Decoding what was encoded gives the value back and leaves exactly the bytes behind it, for every 64-bit value |
| PbVarint.AtMostTenRead | sdk/external/nanopb/pb_decode.c:250-270 | Whatever the bytes: a 64-bit varint is read if and only if one of the first ten bytes ends it |
| PbVarint.DecodeVarint32Exact | sdk/external/nanopb/pb_decode.c:182-242 | What the 32-bit decoder does with the encoding of any 64-bit value: the closed set it accepts, and the value it returns |
| PbVarint.DecodeEncodeVarint32 | sdk/external/nanopb/pb_decode.c:182-242 | Below 2^63 the 32-bit decoder accepts a value exactly when it is below 2^32, and returns it |
| PbVarint.DecodeNegativeVarint32 | sdk/external/nanopb/pb_decode.c:182-242 | A sign-extended negative int32 decodes to its low 32 bits |
| PbVarint.ZigZagBijection | sdk/external/nanopb/pb_decode.c:1196-1208 | Zig-zag and its inverse undo each other both ways, and map int64 exactly onto the 64-bit values |
| PbVarint.LittleEndianRoundTrip | sdk/external/nanopb/pb_encode.c:600-625 | Fixed-width integers read back as written, at any width |
| PbFields.UnionMembersShareSlot | sdk/external/nanopb/pb_common.c:44-50 | All members of a union have one data address and one size address |
| PbFields.FieldsDisjoint | sdk/external/nanopb/pb_common.c:41-74 | A field starts at or behind the end of every earlier one, arrays included and whatever unions lie between, unless the field right behind the earlier one shares its union |
| PbFields.FieldIter.constructor | sdk/external/nanopb/pb_common.c:8-18 | A new iterator satisfies the layout invariant at position 0 |
| PbFields.FieldIter.Begin | sdk/external/nanopb/pb_common.c:8-18 | Restarts at position 0; says whether the table is not empty |
| PbFields.FieldIter.Next | sdk/external/nanopb/pb_common.c:20-76 | One position further or back to the start; data address, size address and required index remain functions of the position alone |
| PbFields.FieldIter.Find | sdk/external/nanopb/pb_common.c:78-95 | Terminates from any position, succeeds exactly when a field that is not an extension has the tag, stands on it, and otherwise returns where it began |
| PbIStream.IStream.Read | sdk/external/nanopb/pb_decode.c:100-134 | Takes exactly the bytes asked for, or fails when there are too few |
| PbIStream.IStream.DecodeVarint | sdk/external/nanopb/pb_decode.c:250-270 | The loop computes the specified value and consumes exactly its bytes |
| PbIStream.IStream.DecodeVarint32 | sdk/external/nanopb/pb_decode.c:182-242 | The 32-bit loop, with its overflow and sign-extension tests and its end-of-input flag |
| PbIStream.IStream.DecodeTag | sdk/external/nanopb/pb_decode.c:293-313 | Tag and wire type, and the two ways a message may end |
| PbIStream.IStream.SkipField | sdk/external/nanopb/pb_decode.c:316-326 | Skips exactly one field of any wire type, or fails as specified |
| PbIStream.IStream.MakeSubstream | sdk/external/nanopb/pb_decode.c:367-380 | A sub-stream over exactly the announced bytes, taken off the parent |
| PbIStream.IStream.CloseSubstream | sdk/external/nanopb/pb_decode.c:382-397 | The parent continues where the sub-stream ended |
| PbDecoder.DecVarint | sdk/external/nanopb/pb_decode.c:1245-1280 | Signed integers of each size: value, sign extension and overflow |
| PbDecoder.DecUvarint | sdk/external/nanopb/pb_decode.c:1282-1304 | Unsigned integers of each size and their overflow |
| PbDecoder.DecSvarint | sdk/external/nanopb/pb_decode.c:1306-1328 | Zig-zag integers of each size and their overflow |
| PbDecoder.DecBytes | sdk/external/nanopb/pb_decode.c:1347-1382 | Byte arrays and their capacity test |
| PbDecoder.DecString | sdk/external/nanopb/pb_decode.c:1384-1417 | Strings, with room for the NUL |
| PbDecoder.DecFixedLengthBytes | sdk/external/nanopb/pb_decode.c:1443-1464 | Fixed-length bytes: empty means zeros, any other length must match |
| PbDecoder.DecSubmessage | sdk/external/nanopb/pb_decode.c:1419-1441 | A submessage is decoded over the current value, from a sub-stream, and its bytes leave the parent |
| PbDecoder.DecodePackedArray | sdk/external/nanopb/pb_decode.c:420-447 | Entries are appended to those already there; a body larger than the array is an error |
| PbDecoder.DecodeStaticField | sdk/external/nanopb/pb_decode.c:401-474 | Required, optional, repeated and union fields store what the specification says |
| PbDecoder.CheckRequired | sdk/external/nanopb/pb_decode.c:967-1007 | Succeeds exactly when every required field, up to the first 64, has been seen |
| PbDecoder.DecodeTurn | sdk/external/nanopb/pb_decode.c:911-964 | One turn of the loop equals one step of the specification, wherever the iterator stood before |
| PbDecoder.DecodeMessage | sdk/external/nanopb/pb_decode.c:900-1010 | The whole loop equals the recursive decoder, success and failure alike, at every nesting depth |
| PbDecoder.DecodeStream | sdk/external/nanopb/pb_decode.c:1012-1024 | The same from initialised fields |
| PbOStream.OStream.Write | sdk/external/nanopb/pb_encode.c:101-119 | Succeeds exactly when there is room; the buffer is then its initial contents with the bytes put out laid over it, and nothing else |
| PbOStream.OStream.PutVarint | sdk/external/nanopb/pb_encode.c:567-587 | The encoding loop puts out the specified bytes, sizing or writing |
| PbEncoder.EncSubmessage | sdk/external/nanopb/pb_encode.c:675-723 | Succeeds exactly when the message is encodable and length and body fit; the size-changed error never comes out |
| PbEncoder.WriteSubmessage | sdk/external/nanopb/pb_encode.c:697-722 | The second pass writes exactly as many bytes as the first counted, so its size test cannot fail |
| PbEncoder.EncPackedBody | sdk/external/nanopb/pb_encode.c:139-181 | Packed length and entries, sized for varints by a dry run |
| PbEncoder.EncodeArray | sdk/external/nanopb/pb_encode.c:126-211 | Packed or one by one; too many entries are refused |
| PbEncoder.EncodeField | sdk/external/nanopb/pb_encode.c:307-385 | Presence, defaults and unions decide what is put out |
| PbEncoder.EncodeMessage | sdk/external/nanopb/pb_encode.c:487-509 | Puts out the specified encoding exactly when it is encodable and there is room |
| PbEncoder.GetEncodedSize | sdk/external/nanopb/pb_encode.c:526-535 | The sizing pass reports the exact length |
| PbEncoder.EncodeToBuffer | sdk/external/nanopb/pb_encode.c:84-119 | Two-pass agreement: writing succeeds exactly when the buffer has the size reported, and writes exactly that much |
| PbEncoder.EncodeThenDecode | sdk/external/nanopb/pb_encode.c:487-509 | Encoder and decoder code back to back return the message exactly when its arrays and strings fit |
| PbRoundTrip.RoundTrip | sdk/external/nanopb/pb_decode.c:1012-1024 | For every table and message: decoding the encoding gives the message back, required fields included, if and only if its arrays and strings fit; otherwise it fails |
| PbRoundTrip.PackedOrNot | sdk/external/nanopb/pb_decode.c:419-458 | Entries of an integer array that arrive one by one leave the decoder where the packed array would, overflow included |
| PbRoundTrip.SingularOmitted | sdk/external/nanopb/pb_encode.c:215-300 | A singular field is left out if and only if it is 0, empty, or a submessage of which nothing is put out, at any nesting |
| PbRoundTrip.FullStringIsRefused | sdk/external/nanopb/pb_decode.c:1384-1417 | For every string: an array it fills to the last byte can be encoded from and not decoded into |
| PbRoundTrip.AbsorbMessage | sdk/external/nanopb/pb_decode.c:900-1010 | Decoding an encoding over any existing message is the merge of the two, or fails exactly when it does not fit |
| PbRoundTrip.ConcatenationMerges | sdk/external/nanopb/pb_decode.c:900-1010 | Two encodings one behind the other decode to the merge of the messages, and fail exactly when a merged array overflows |
| PbSound.DecodedIsTyped | sdk/external/nanopb/pb_decode.c:1012-1024 | Whatever bytes are accepted, the message has the types of its table: ranges, lengths, NUL-free strings, one member per union |
| PbSound.NormalForm | sdk/external/nanopb/pb_decode.c:1012-1024 | With sizes a C structure can have, every accepted message can be encoded and fits, and decoding its encoding, if below 2^32 bytes, gives it back, however the bytes first received were written |
| PbMerge.MergeFieldwise | sdk/external/nanopb/pb_decode.c:401-474 | The merge field by field: last scalar wins, arrays append, submessages merge, union members replace each other |
| PbUnknown.UnknownFieldIgnored | sdk/external/nanopb/pb_decode.c:925-954 | A well-formed field with an unknown tag, inserted at any field boundary of any input, changes neither result nor failure |
| PbUnknown.EncodedBoundary | sdk/external/nanopb/pb_encode.c:487-509 | In the encoding of a message that fits, the end of every field, and of every single entry of an array that is not packed, is such a boundary |
| PbUnknown.UnknownBetweenFields | sdk/external/nanopb/pb_decode.c:925-954 | An unknown field between any two fields, or entries of an array that is not packed, of an encoded message: the message comes back unchanged |
| PbUnknown.ZeroTagEnds | sdk/external/nanopb/pb_decode.c:293-313 | At any field boundary of any input, a zero byte ends the message with what was decoded so far, whatever follows |
| PbUnknown.BadWireRefused | sdk/external/nanopb/pb_decode.c:316-326 | At any field boundary of any input, an unknown field of wire type 3, 4, 6 or 7 makes the message refused |
| PbRequired.AcceptedExactly | sdk/external/nanopb/pb_decode.c:985-1005 | Every input is accepted if and only if all its fields decode and the decoder comes to the tag of each of the first 64 required fields of the table |
| PbRequired.MissingField | sdk/external/nanopb/pb_decode.c:985-1005 | A message without one of its fields is refused exactly when that is one of the first 64 required ones; otherwise the field keeps its default and no other changes |
| PbEvolution.ValueSkipped | sdk/external/nanopb/pb_encode.c:634-667 | The wire type put out for a field passes over exactly the bytes of any of its values |
| PbEvolution.PackedSkipped | sdk/external/nanopb/pb_encode.c:140-147 | And wire type 2 over those of a packed array |
| PbEvolution.OlderReceiver | sdk/external/nanopb/pb_decode.c:925-954 | A receiver whose table lacks one of the fields gets all the others as they were sent |
| PbEvolution.NewerReceiver | sdk/external/nanopb/pb_decode.c:985-1005 | A receiver whose table has one field more finds its default there, or refuses the message when the field is one of its first 64 required ones |
| PbLimits.IntegerTaken | sdk/external/nanopb/pb_decode.c:1245-1345 | The exact set of 64-bit words that an integer field of each size and kind takes, and that it keeps their low bits |
| PbLimits.BlobTaken | sdk/external/nanopb/pb_decode.c:1347-1464 | The exact body lengths that byte arrays, strings and fixed-length arrays take, and what they keep |
| ModbusCrc.TablesCorrect | sdk/external/libmodbus/modbus-rtu.c:21-79 | All 256 entries of both tables are eight steps of the bitwise division |
| ModbusCrc.CrcOfTwoBytes | sdk/external/libmodbus/modbus-rtu.c:123-142 | The checksum of the bytes 2 and 7 is 0x1241 |
| ModbusCrc.Crc16 | sdk/external/libmodbus/modbus-rtu.c:123-137 | The table-driven loop computes the bitwise checksum of every buffer |
| ModbusCrc.AcceptedIsZeroResidue | sdk/external/libmodbus/modbus-rtu.c:244-249 | The comparison in the integrity check succeeds exactly when the checksum over the whole frame is zero |
| ModbusCrc.BitsAreBytes | sdk/external/libmodbus/modbus-rtu.c:123-137 | Processing a byte is processing its eight bits, low bit first |
| ModbusCrc.BurstDetected | sdk/external/libmodbus/modbus-rtu.c:227-262 | No error confined to 16 consecutive bits of an accepted frame is accepted |
| ModbusFrame.FramedGood | sdk/external/libmodbus/modbus-rtu.c:146-153 | Every completed message passes the checksum test |
| ModbusFrame.CorruptionRejected | sdk/external/libmodbus/modbus-rtu.c:227-262 | Damage within 16 consecutive bits outside the address byte makes the integrity check answer -1 |
| ModbusFrame.SelfDelimiting | sdk/external/libmodbus/modbus.c:332-416 | Once a frame is recognised, bytes that follow it on the line do not matter |
| ModbusBits.UnpackPack | sdk/external/libmodbus/modbus.c:985-996 | Coils survive packing into bytes, whatever stands behind them |
| ModbusBits.UnpackPackWords | sdk/external/libmodbus/modbus.c:1093-1097 | Registers survive being sent high byte first |
| ModbusWords.OrAdds | sdk/external/libmodbus/modbus.c:583-583 | Or-ing a bit into a byte whose upper bits are clear adds its weight |
| ModbusWords.TestBitIs | sdk/external/libmodbus/modbus-data.c:89-95 | Masking with a shifted one looks at the bit of that weight |
| ModbusWords.MaskedIsMaskWord | sdk/external/libmodbus/modbus.c:858-858 | The mask expression on 16 bits takes each bit from the data where the and mask has a one, from the or mask elsewhere |
| ModbusLine.Line.Recv | sdk/external/libmodbus/modbus_port.h:43-52 | Any 1 to n of the waiting bytes are delivered, in order; 0 only when none wait |
| ModbusLine.SendMsg | sdk/external/libmodbus/modbus.c:160-200 | Puts the message and its checksum on the line |
| ModbusLine.CheckIntegrity | sdk/external/libmodbus/modbus-rtu.c:227-262 | 0 for other slaves, the length for a good checksum, -1 otherwise |
| ModbusLine.ReceiveMsg | sdk/external/libmodbus/modbus.c:332-416 | However the bytes arrive, the loop ends and takes exactly the frame in front; what it took is at most 256 bytes, nothing is written behind that, and those bytes alone decide how far the message extends |
| ModbusServer.Tables.constructor | sdk/external/libmodbus/modbus.c:1782-1787 | All cells off, all registers 0 |
| ModbusServer.ResponseIoStatus | sdk/external/libmodbus/modbus.c:573-597 | The coils asked for, packed eight to a byte, behind what the response held |
| ModbusServer.SetBitsFromBytes | sdk/external/libmodbus/modbus-data.c:83-95 | Exactly the addressed coils take the packed values, all others keep theirs |
| ModbusServer.GetByteFromBits | sdk/external/libmodbus/modbus-data.c:99-116 | Up to eight coils as one byte |
| ModbusReply.ReplyReadBits | sdk/external/libmodbus/modbus.c:653-683 | Range and quantity tests, then the coils |
| ModbusReply.ReplyReadRegisters | sdk/external/libmodbus/modbus.c:684-717 | Range and quantity tests, then the registers |
| ModbusReply.ReplyWriteBit | sdk/external/libmodbus/modbus.c:718-742 | One coil, or the two exceptions; the request is echoed |
| ModbusReply.ReplyWriteRegister | sdk/external/libmodbus/modbus.c:743-760 | One register, or the exception; the request is echoed |
| ModbusReply.ReplyWriteBits | sdk/external/libmodbus/modbus.c:761-791 | A run of coils, or the two exceptions |
| ModbusReply.ReplyWriteRegisters | sdk/external/libmodbus/modbus.c:792-821 | A run of registers, or the two exceptions |
| ModbusReply.ReplyMaskWrite | sdk/external/libmodbus/modbus.c:845-864 | Masked update of one register |
| ModbusReply.ReplyWriteAndRead | sdk/external/libmodbus/modbus.c:865-909 | Writes first, then reads; the range test is the one in the code |
| ModbusReply.Reply | sdk/external/libmodbus/modbus.c:626-921 | For every request buffer, the tables and the line afterwards are those of the specification |
| ModbusClient.BuildRequest | sdk/external/libmodbus/modbus.c:959-1473 | Every client call puts together exactly the specified request |
| ModbusClient.PutBits | sdk/external/libmodbus/modbus.c:1237-1252 | The nested loops of the bit packer |
| ModbusClient.CheckConfirmation | sdk/external/libmodbus/modbus.c:447-571 | Slave, exception, length, function and quantity tests with their error numbers |
| ModbusClient.StoreBits | sdk/external/libmodbus/modbus.c:985-996 | The nested loops that unpack received coils |
| ModbusClient.Finish | sdk/external/libmodbus/modbus.c:981-1101 | From a response to what the caller gets |
| ModbusClient.Call | sdk/external/libmodbus/modbus.c:1002-1473 | A whole call over a line that fragments as it likes: tables and outcome are those of the operation applied directly, for every operation, address, count and table contents |
| ModbusEndToEnd.RequestDelimited | sdk/external/libmodbus/modbus.c:244-316 | Every request the client builds is received as exactly one frame |
| ModbusEndToEnd.ReplyDelimited | sdk/external/libmodbus/modbus.c:599-618 | Every reply to any received request is received as exactly one frame, if and only if the request did not carry an unknown function code above 0x80 whose low bits are a known one |
| ModbusEndToEnd.MisleadingReply | sdk/external/libmodbus/modbus.c:599-618 | A request with function code 0x83 is answered by a reply that is not received as one frame |
| ModbusStale.FrameDecidesExactly | sdk/external/libmodbus/modbus.c:761-821 | For every function code, request and table contents: reply and new tables depend on the received frame alone if and only if it covers the values of a multiple write, or the quantity and range tests refuse the write |
| ModbusStale.ShortWrite | sdk/external/libmodbus/modbus.c:792-821 | A frame of nine bytes that writes two registers from what the buffer held before |
| ModbusStale.LongestRequest | sdk/external/libmodbus/modbus.c:399-411 | A request may fill 256 bytes, and one that announces a byte more is refused |
| ModbusServed.ServedAsJudged | sdk/external/libmodbus/modbus.c:626-921 | Every received request, of any function: no answer to function 7; or the exception 1, 2 or 3 that its bytes call for, with all tables unchanged; or the operation whose request it is, carried out on the tables and answered with its outcome |
| ModbusServed.IdentityAnswered | sdk/external/libmodbus/modbus.c:823-841 | The identity that answers function 0x11, byte by byte |
| ModbusHeard.HeardAsConcluded | sdk/external/libmodbus/modbus.c:447-571 | For every operation and every response whatever: the outcome or the error number, from slave, function, length and count of the response |
| ModbusHeard.AcceptedExactly | sdk/external/libmodbus/modbus.c:447-571 | A response is accepted if and only if slave and function are those asked, its length that of a proper answer, and its byte count or quantity the one asked for |
| ModbusHeard.EchoNotCompared | sdk/external/libmodbus/modbus.c:538-541 | An echo of another address and value confirms the write of a register |
| ModbusHeard.OddCountTaken | sdk/external/libmodbus/modbus.c:522-527 | A byte count of 3 confirms the read of one register |
| ModbusEndToEnd.EndToEnd | sdk/external/libmodbus/modbus.c:447-921 | Request, framing, serving, reply and checks together equal the operation on the tables; a failed operation changes nothing and reports its exception |
| ModbusEndToEnd.RefusedLocally | sdk/external/libmodbus/modbus.c:1013-1020 | A call refused before sending is refused by the operation with the same error |
| ModbusEndToEnd.RangeTestExact | sdk/external/libmodbus/modbus.c:880-883 | The range test of function 0x17 keeps the write inside the table if and only if the write address is not below the start; with tables starting at 0 it always does |
| ModbusEndToEnd.RangeTestMisses | sdk/external/libmodbus/modbus.c:880-883 | A shifted table and addresses for which the test lets a write below the table pass |
| ModbusBus.Listener.Receive | sdk/external/libmodbus/modbus-rtu.c:177-198 | Flag, line and result after each receive |
| ModbusBus.BusStaysInStep | sdk/external/libmodbus/modbus-rtu.c:177-198 | Over every run of client requests answered by their addressees, a listening slave starts every receive at a frame boundary, expects a response exactly when one is next, and is handed exactly its own requests |
| JsonString.Utf8Verifies | sdk/external/parson/parson.c:149-204 | The bytes written for any code point are accepted by the library's own check as that code point |
| JsonString.VerifiedIsUtf8 | sdk/external/parson/parson.c:149-204 | What the check accepts is the UTF-8 of the code point it answers: no longer form, no surrogate, nothing above 0x10FFFF |
| JsonString.HexDigitRead | sdk/external/parson/parson.c:145-147 | Exactly the digits and the letters of either case are hex digits, each with its value |
| JsonString.PairsSpellAll | sdk/external/parson/parson.c:498-511 | Every code point above the basic plane is the combination of a surrogate pair |
| JsonString.PairsDistinct | sdk/external/parson/parson.c:507-507 | Different surrogate pairs give different code points |
| JsonString.QuotedRoundTrip | sdk/external/parson/parson.c:900-959 | Every C string, written and read back, is itself, and exactly its text is consumed |
| JsonString.NulIsSpelled | sdk/external/parson/parson.c:481-519 | A decoded body holds a NUL exactly when one of its escapes spells it |
| JsonString.DecodedWhole | sdk/external/parson/parson.c:577-586 | A quoted body comes back up to the first NUL it spells, so whole if and only if no escape in it spells one |
| JsonString.EscapedNulIsLost | sdk/external/parson/parson.c:577-586 | The body \u0000 decodes to one NUL and comes back empty |
| JsonString.DecodedIsUtf8 | sdk/external/parson/parson.c:524-573 | A body in valid UTF-8 decodes to valid UTF-8, escapes and surrogate pairs included |
| JsonUnescape.IsUtf16Hex | sdk/external/parson/parson.c:145-147 | Four hex digits, without looking behind the closing quote |
| JsonUnescape.ParseUtf16 | sdk/external/parson/parson.c:481-519 | Code point, bytes written and positions of every escape; reads and writes stay inside both buffers |
| JsonUnescape.ProcessString | sdk/external/parson/parson.c:524-573 | Computes what the body stands for; never reads behind the closing quote, never writes more than it has read |
| JsonValue.NumberConsumes | sdk/external/parson/parson.c:731-742 | A number that is accepted and evaluated takes text off the front if and only if digits, or a point and a digit, follow the sign; -inf and -nan, which the code also accepts and takes off, are set aside |
| JsonValue.UnreadValue | sdk/external/parson/parson.c:588-611 | A value is accepted with nothing of its text read if and only if it is a minus sign that strtod finds no number behind; it is then 0 |
| JsonValue.MinusIsAccepted | sdk/external/parson/parson.c:1003-1008 | The text - is accepted as 0 and left |
| JsonValue.LoneMinusInArray | sdk/external/parson/parson.c:678-690 | As an element such a sign makes the array refused |
| JsonValue.LoneMinusInObject | sdk/external/parson/parson.c:634-652 | As the value of a member it makes the object refused |
| JsonGrammar.AcceptedExactly | sdk/external/parson/parson.c:588-742 | For every text: a value is read, and this rest left, if and only if the text spells it in the grammar of the format, with any of the six white space characters between tokens, and it has unique names, legal sizes and no leaf too deep; the lone minus sign is the only exception |
| JsonSyntax.ValueRead | sdk/external/parson/parson.c:588-702 | A grammatical value is read at any layout and nesting, with its tail untouched, if and only if the library can hold it at that depth |
| JsonRoundTrip.NumberRoundTrip | sdk/external/parson/parson.c:870-881 | Every integer a double holds is read back from the format it is printed in, up to a character that cannot continue it |
| JsonValue.NumberForms | sdk/external/parson/parson.c:870-881 | Digits alone for what 32 bits hold, and otherwise a point and six zeros behind them |
| JsonValue.DoubleLimit | sdk/external/parson/parson.c:870-881 | Every integer up to 2 to the power 53 is one that a double holds, and the next one is not |
| JsonRoundTrip.ValueRead | sdk/external/parson/parson.c:588-702 | At any indentation and nesting, a written value is read back with its tail untouched if and only if names are unique, sizes legal and no leaf too deep |
| JsonRoundTrip.LaidText | sdk/external/parson/parson.c:764-898 | The text of a value spells it: compact without white space, pretty with a line for each element, four spaces a level and one behind each colon |
| JsonRoundTrip.RoundTrip | sdk/external/parson/parson.c:764-959 | For every value: parsing its compact or its pretty text gives the value and consumes everything, if and only if names are unique, sizes legal and no leaf deeper than 19 |
| JsonSound.ParsedIsSound | sdk/external/parson/parson.c:588-702 | Whatever is parsed has unique names, legal sizes and no leaf deeper than 19 |
| JsonSound.ParsedReadsBack | sdk/external/parson/parson.c:764-898 | Whatever was parsed from any text can be written and parsed again without a change |
| JsonSound.ThereAndBack | sdk/external/parson/parson.c:1391-1408 | Serializer and parser code back to back return the value exactly when it is shallow enough |
| JsonEquality.EqualsIsMeaning | sdk/external/parson/parson.c:1845-1904 | For values with unique names, the comparison holds exactly when both mean the same regardless of the order of members |
| JsonEquality.EqualsSymmetric | sdk/external/parson/parson.c:1873-1888 | The comparison is symmetric although it walks only the first object |
| JsonEquality.EqualsTransitive | sdk/external/parson/parson.c:1845-1904 | The comparison is transitive |
| JsonEquality.SymmetryNeedsUniqueNames | sdk/external/parson/parson.c:1873-1888 | Two objects, one with a repeated name, that compare equal one way round only |
| JsonBuild.GrowsToLimit | sdk/external/parson/parson.c:409-422 | From an empty array or object doubling reaches exactly the limit, 122880 items or 960 members |
| JsonBuild.TrimmedIsFull | sdk/external/parson/parson.c:696-697 | An array or object trimmed to n takes no further element if and only if twice n passes the limit |
| JsonBuild.TrimmedArrayRefuses | sdk/external/parson/parson.c:696-697 | An array trimmed to 61441 items refuses the next one, one trimmed to 61440 ends at 122880 |
| JsonBuild.JsonArray.Add | sdk/external/parson/parson.c:409-422 | Appends, doubling a full array; fails exactly at the last capacity that doubling reaches from its own, which no addition changes |
| JsonBuild.JsonObject.Add | sdk/external/parson/parson.c:313-338 | Appends, doubling a full object; fails exactly for a name already there or at the last capacity that doubling reaches from its own, which no addition changes |
| JsonBuild.DeepCopy | sdk/external/parson/parson.c:1274-1348 | Succeeds exactly on values the library can hold, and returns the same value, equal to its source in the sense of the comparison |
| JsonParser.Cursor.SkipQuotes | sdk/external/parson/parson.c:461-479 | Finds the matching quote, escapes skipped |
| JsonParser.Cursor.GetQuotedString | sdk/external/parson/parson.c:577-586 | The decoded string, with the cursor behind the closing quote |
| JsonParser.ParseValue | sdk/external/parson/parson.c:588-611 | The dispatching parser, with its nesting limit, returns what the specification reads |
| JsonParser.ParseObject | sdk/external/parson/parson.c:613-662 | Members, separators, repeated names, the size limit and the trimming at the end |
| JsonParser.ParseArray | sdk/external/parson/parson.c:664-702 | Elements, separators, the size limit and the trimming at the end |
| JsonParser.ParseText | sdk/external/parson/parson.c:1003-1008 | The whole parser returns what the specification reads and leaves what is behind the value; the whole text is left exactly for a lone minus sign |
| JsonSerializer.SerializeString | sdk/external/parson/parson.c:900-959 | The escaped text, measured or written |
| JsonSerializer.SerializeNumber | sdk/external/parson/parson.c:870-881 | A number in the format of an int, of an unsigned int, or with a fraction of six zeros |
| JsonSerializer.Serialize | sdk/external/parson/parson.c:764-898 | One traversal: returns the length without a buffer, and with one writes exactly the text and touches one byte behind it |
| JsonSerializer.SerializationSize | sdk/external/parson/parson.c:1350-1354 | The pass without a buffer reports the exact size, NUL included |
| JsonSerializer.SerializeToBuffer | sdk/external/parson/parson.c:1356-1367 | Succeeds exactly when the buffer has that size; every byte behind text and NUL is kept |
| JsonSerializer.SerializeToString | sdk/external/parson/parson.c:1391-1408 | A buffer of exactly that size holds the text and its NUL |
| Sha1.SameChoice | sdk/libraries/sha1/sha1.c:14-14 | The code's choice function is the standard's |
| Sha1.SameMajority | sdk/libraries/sha1/sha1.c:16-16 | The code's majority function is the standard's |
| Sha1.OneRound | sdk/libraries/sha1/sha1.c:78-119 | A round of each of the four loops is a round of the standard |
| Sha1.Sha1State.Schedule | sdk/libraries/sha1/sha1.c:61-68 | The schedule loops compute the standard's message schedule |
| Sha1.Sha1State.Compress | sdk/libraries/sha1/sha1.c:55-127 | The in-place compression is the standard's, for every block and chaining value |
| Sha1.Sha1State.Copy | sdk/libraries/sha1/sha1.c:130-150 | Any amount of data is absorbed behind what was absorbed before; less than a block waits in the buffer |
| Sha1.Sha1State.PadToLength | sdk/libraries/sha1/sha1.c:161-180 | Both padding paths append one bit and the fewest zeros |
| Sha1.Sha1State.Finish | sdk/libraries/sha1/sha1.c:152-194 | Writes the fold of the compression function over the padded message |
| Sha1.Sha1Memory | sdk/libraries/sha1/sha1.c:197-203 | The digest of a whole message |
| Sha1.Sha1Stream | sdk/libraries/sha1/sha1.c:130-194 | The digest does not depend on how the message was cut into pieces |
| Sha1Spec.PaddingFits | sdk/libraries/sha1/sha1.c:161-180 | The padded message is whole blocks, and no smaller number of zeros would do |
| Sha1Spec.ConstantsAreRoots | sdk/libraries/sha1/sha1.c:5-8 | The round constants are the square roots of 2, 3, 5 and 10 times 2 to the power 30, rounded down |
| NmeaSpec.FindTailExact | sdk/external/nmealib/src/parse.c:135-177 | A good sentence is reported exactly when one stands at the front |
| NmeaSpec.PackTypeNamed | sdk/external/nmealib/src/parse.c:100-130 | A sentence is of a kind if and only if it begins with the five letters of its name |
| NmeaSpec.BadTailBlocks | sdk/external/nmealib/src/parse.c:154-168 | Nothing is found at the front whatever comes behind, if and only if the scan ends at a star and a byte already there is not the line end that has to follow it |
| NmeaSpec.StreamBlocks | sdk/external/nmealib/src/parser.c:145-252 | After a stream the parser takes nothing off any more, whatever follows, if and only if its leftover is blocked like that |
| NmeaSpec.StarWithoutLineEnd | sdk/external/nmealib/src/parse.c:154-168 | Behind the five bytes $*AAX nothing is taken off, whatever follows |
| NmeaSpec.StuckUntilCleared | sdk/external/nmealib/src/parser.c:135-143 | A blocked parser piles up chunks until one does not fit; then it starts afresh with that chunk |
| NmeaSpec.DrainInPieces | sdk/external/nmealib/src/parser.c:145-252 | Draining a stream in two pieces gives the same packets in the same order and the same rest |
| NmeaSpec.RestIsDrained | sdk/external/nmealib/src/parser.c:152-160 | Nothing more can be taken off what is left over |
| NmeaSpec.ChunkIndependence | sdk/external/nmealib/src/parser.c:123-263 | The same stream in any two chunkings that fit the buffer ends with the same leftover bytes and the same queue |
| NmeaSpec.PushFeedsData | sdk/external/nmealib/src/parser.c:269-288 | Pushing feeds exactly the data given if and only if the data repeats with the period of the buffer size, because the loop always starts from the first byte |
| NmeaSpec.PushLosesData | sdk/external/nmealib/src/parser.c:269-288 | 257 bytes whose last differs from the first are not fed as given |
| NmeaParser.Parser.constructor | sdk/external/nmealib/src/parser.c:39-60 | An empty buffer of at least 256 bytes and an empty queue |
| NmeaParser.Parser.FindTailAt | sdk/external/nmealib/src/parse.c:135-177 | The scanning loop computes the specified length and verdict |
| NmeaParser.PackTypeOfSentence | sdk/external/nmealib/src/parser.c:163-165 | The type of a good sentence does not depend on bytes behind it |
| NmeaParser.Parser.Enqueue | sdk/external/nmealib/src/parser.c:240-248 | The packet goes to the end of the linked queue |
| NmeaParser.Parser.RealPush | sdk/external/nmealib/src/parser.c:123-263 | Leftover bytes and queue after a push are those of the specification |
| NmeaParser.Parser.Pop | sdk/external/nmealib/src/parser.c:313-331 | Packets leave in the order they came |
| NmeaParser.Parser.Drop | sdk/external/nmealib/src/parser.c:359-378 | The front packet is dropped |
| NmeaParser.Parser.QueueClear | sdk/external/nmealib/src/parser.c:395-401 | All packets are dropped, the buffer is kept |
| NmeaParser.Parser.Push | sdk/external/nmealib/src/parser.c:269-288 | The pieces the loop really hands on are pushed in turn |

## Left out

- nanopb: callbacks, extensions, `PB_ENABLE_MALLOC`, `PB_WITHOUT_64BIT`, custom streams, the delimited and NUL-terminated variants.
- nanopb: error strings; the contents of the destination after a failed decode.
- nanopb: the destination structure is a value passed in and returned, not memory; an absent optional field holds its default; a union is one optional value per member, at most one of them present. The addresses of fields are modelled in `PbFields`.
- nanopb: `fields_seen` is a sequence of 64 flags, not two words; `bitpos` is unbounded.
- DecSubmessage: refuses a destination of another shape than its table, which C cannot have.
- libmodbus: TCP, debug output, error recovery and reconnecting, float helpers, RTS and serial-mode stubs; `modbus_flush` does nothing here.
- libmodbus: function 0x07, which the server does not answer, and `modbus_reply_exception`, which is called by applications.
- libmodbus: mappings that do not start at 0, except for the range test of function 0x17; negative counts.
- ReceiveMsg: the line loses nothing and a receive waits for bytes that are on their way; an empty line counts as a failed receive. The error number of a failed receive is not modelled.
- EndToEnd: speaks of slaves 1 to 247; nobody answers a broadcast.
- Call: the server takes its turn between sending and receiving, on a line of its own for each direction.
- parson: file access, allocation failure, floating-point numbers and `strtod`, the dot-path functions, `json_validate`, comment removal, removing and replacing members.
- ParseNumber: a number text with an exponent, a fraction other than zeros, a hexadecimal or infinite value, or an integer that no `double` holds exactly is answered by a separate result and not evaluated; minus zero is 0.
- Serialize: names are unique, as the library's own functions keep them; lengths are unbounded where C has `int`.
- parson: a value is an immutable tree; only the object or array under construction is mutable.
- Sha1State.Finish: the state may not be used again afterwards, as in the code.
- nmealib: field scanning (`nmea_scanf`), geodesy, generators, `nmea_parse` and the functions that fill `nmeaINFO`; `nmea_atoi` and the five sentence parsers are parameters.
- nmealib: bytes are unsigned, as `char` is on this target; the overlapping `memcpy` that moves the rest to the front is a forward copy.
- The radio tests, drivers, board support, queues, shells and AT commands, and the serialization field codecs: registers, timers and straight-line code over hardware.
