# CCSDS telemetry codec and radio checksum — a Dafny model

The model covers the packet layer of RTU-HPR's embedded libraries, which their
rockets and ground stations use to send measurements over LoRa:

- **CRC-16 trailer.** `calculate_crc_16_ccitt` is the reflected CCITT engine
  (0x8408, initial 0xFFFF, no final XOR, catalogue name CRC-16/MCRF4XX).
  `add_crc_16_cciit_to_ccsds_packet` stamps the CRC into the last two bytes,
  most significant byte first. `check_crc_16_cciit_of_ccsds_packet` compares it.
- **CCSDS space-packet headers.**
  - The 6-byte primary header holds version 0, telemetry type, the
    secondary-header flag, an 11-bit APID, "unsegmented" sequence flags, a
    14-bit sequence count and the data-length field.
  - The 6-byte secondary header holds a 32-bit GPS epoch time and 16-bit
    subseconds.
- **Telemetry assembly.** `create_ccsds_telemetry_packet` splits a
  comma-separated text into fields:
  - a field containing '.' becomes the four bytes of a float;
  - a field that `toInt()` reads as non-zero, or that is exactly "0", becomes
    a 32-bit integer;
  - any other field is copied as text followed by '\n'.

  The primary and secondary headers go in front of the payload, and the
  packet gets its CRC.
- **Parsers.** `parse_ccsds_telemetry` and `parse_ccsds_telecommand` read the
  header fields and copy out the announced data.
- **Value extraction.** `extract_ccsds_data_values` reads values back into
  `Converter` slots, guided by a format such as "float,uint8,uint16".
  `read_position_from_ccsds_telemetry` is that extraction with
  "float,float,float".
- **Legacy variants.** include/Ccsds_packets.h keeps older copies of the code.
  `create_ccsds_packet` builds a packet with no CRC. `parse_ccsds` always
  copies the data, even when there is none.
- **Radio checksum.** `RadioLib_Wrapper::add_checksum` appends the decimal sum
  of a message's character codes, padded with '0' to at least
  `_check_sum_length` digits (5 by default). `check_checksum` splits that
  suffix off again, using Arduino `String::substring` on the unsigned
  difference `length() - _check_sum_length`.

Modules, one per concern:

- `Bytes`: big-endian words and the `Converter` union.
- `ArduinoString`: `indexOf` and the comma walk.
- `Crc16`
- `CcsdsHeaders`
- `CcsdsPayload`: the serialiser.
- `CcsdsPackets`: assembly and parsers.
- `CcsdsExtract`
- `CcsdsLegacy`
- `RadioChecksum`
- `Wrappers`

How the source's code is mapped:

- **Loops and in-place writes stay imperative.** Dafny methods over arrays
  model the CRC loop, the serialiser loop, the `memcpy` assembly, the CRC
  stamping and the extraction loop. The checksum loops are methods over
  `seq` values, since Arduino `String`s are values: `CharSum`,
  `PadWithZeros` and the `RadioLibWrapper` methods. Each method is proved
  against a specification function: `Crc16`, `Stamped`, `SerializedData`,
  `TelemetryPacket`, `Slot`, `Checksum` or `Verified`.
- **The specification functions carry the round trips and error-detection
  lemmas.**
- **Arduino's `String::toInt` and `String::toFloat` are parameters.**
  - `toInt` gives the 32 bits of the `long` it returns.
  - `toFloatBits` gives the IEEE-754 bits of the float.

## Model

| member | source | states |
|---|---|---|
| Crc16.CalculateCrc16 | src/Ccsds_packets.cpp:4-27 | the loop computes the CRC-16/MCRF4XX of exactly the first `length` bytes |
| Crc16.AddCrc | src/Ccsds_packets.cpp:29-36 | the buffer becomes its first `length-2` bytes stamped with their CRC (MSB then LSB); bytes past `length` are unchanged; the result checks |
| Crc16.CheckCrc | src/Ccsds_packets.cpp:38-51 | true exactly when the last two bytes are the big-endian CRC of the bytes before them |
| Crc16.StampedIsValid | src/Ccsds_packets.cpp:29-51 | checking a freshly stamped buffer always succeeds |
| Crc16.ValidIsStamped | src/Ccsds_packets.cpp:38-51 | a buffer that checks is its covered bytes, stamped |
| Crc16.CrcAppend | src/Ccsds_packets.cpp:8-24 | the CRC of a concatenation continues from the CRC of the first part |
| Crc16.StepInjective | src/Ccsds_packets.cpp:12-23 | one shift/XOR step of the register is injective |
| Crc16.StepsInjective | src/Ccsds_packets.cpp:12-23 | any number of steps is injective |
| Crc16.UpdateByteInjectiveInCrc | src/Ccsds_packets.cpp:10-23 | for a fixed byte, distinct registers stay distinct |
| Crc16.UpdateByteInjectiveInByte | src/Ccsds_packets.cpp:10-23 | for a fixed register, distinct bytes give distinct registers |
| Crc16.CrcFromInjective | src/Ccsds_packets.cpp:8-24 | absorbing the same bytes keeps distinct registers distinct |
| Crc16.SingleByteErrorChangesCrc | src/Ccsds_packets.cpp:4-27 | two buffers differing in exactly one byte have different CRCs |
| Crc16.SingleByteErrorDetected | src/Ccsds_packets.cpp:38-51 | a valid packet with any one byte changed, checksum bytes included, fails the check |
| Crc16.CheckValue | src/Ccsds_packets.cpp:4-27 | the CRC of ASCII "123456789" is 0x6F91, the catalogue check value of CRC-16/MCRF4XX |
| Bytes.BE16 | src/Ccsds_packets.cpp:98-99 | two bytes, MSB first, that read back as the word |
| Bytes.FromBE16Bytes | src/Ccsds_packets.cpp:191-193 | reading two bytes and writing them back gives the same two bytes |
| Bytes.BE16Injective | src/Ccsds_packets.cpp:98-99 | distinct words have distinct big-endian encodings |
| Bytes.FromBE32OfBE32 | src/Ccsds_packets.cpp:94-97 | reading back the four big-endian bytes of a word gives the word |
| Bytes.FromBE32Bytes | src/Ccsds_packets.cpp:192 | reading four bytes as a word and writing it back gives the same bytes |
| Bytes.Word16OfValue | src/Ccsds_packets.cpp:154 | a 16-bit length turned into a number and back is unchanged |
| Bytes.FromBE16Value | src/Ccsds_packets.cpp:191 | a big-endian byte pair denotes `256*hi + lo` |
| CcsdsHeaders.PrimaryHeader | src/Ccsds_packets.cpp:53-85 | six bytes: version 0, telemetry type, secondary-header flag 1, APID cut to 11 bits, sequence flags 11, count cut to 14 bits, data length MSB first |
| CcsdsHeaders.SecondaryHeader | src/Ccsds_packets.cpp:87-102 | six bytes: the GPS time and the subseconds, MSB first, that read back as those values |
| CcsdsHeaders.ReadApid | src/Ccsds_packets.cpp:180-189 | the APID read from bytes 0-1 fits in 11 bits |
| CcsdsHeaders.ReadSequenceCount | src/Ccsds_packets.cpp:181-190 | the count read from bytes 2-3 fits in 14 bits |
| CcsdsHeaders.ReadPrimaryHeader | src/Ccsds_packets.cpp:53-85 | reading a built primary header gives the masked APID, the masked count and the data length, with the fixed bits set |
| CcsdsHeaders.PrimaryHeaderWords | src/Ccsds_packets.cpp:64-82 | the header is the identification field, the sequence-control field and the length, each big-endian |
| CcsdsHeaders.RebuildPrimaryHeader | src/Ccsds_packets.cpp:176-191 | a header with this codec's fixed bits is rebuilt exactly from the APID, count and length read from it |
| CcsdsHeaders.RebuildIdentification | src/Ccsds_packets.cpp:64-65 | the identification field is rebuilt from the APID read, given its fixed bits |
| CcsdsHeaders.RebuildSequenceControl | src/Ccsds_packets.cpp:70-72 | the sequence-control field is rebuilt from the count read, given its fixed bits |
| CcsdsHeaders.WordsBytes | src/Ccsds_packets.cpp:77-82 | three words read from six bytes and written back give the same six bytes |
| CcsdsHeaders.MaskingExample | src/Ccsds_packets.cpp:64-82 | APID 0xFFFF and count 0xFFFF are cut to 0x7FF and 0x3FFF: header 0F FF FF FF 00 0A |
| ArduinoString.IndexOf | src/Ccsds_packets.cpp:116 | `indexOf` gives -1 or a position at or after `from` that holds the character |
| ArduinoString.IndexOfFirst | src/Ccsds_packets.cpp:116 | no earlier occurrence lies between `from` and the result (none at all on -1) |
| ArduinoString.IndexOfFinds | src/Ccsds_packets.cpp:116 | the first occurrence at or after `from` is what `indexOf` returns |
| ArduinoString.IndexOfMisses | src/Ccsds_packets.cpp:116-120 | with no occurrence after `from`, `indexOf` gives -1 |
| ArduinoString.FieldEnd | src/Ccsds_packets.cpp:116-120 | a field ends at the next comma, or at the end of the text |
| ArduinoString.FieldEndNoComma | src/Ccsds_packets.cpp:116-123 | a field holds no comma |
| ArduinoString.FieldsCount | src/Ccsds_packets.cpp:113-151 | the walk visits at most one field per remaining character |
| ArduinoString.FieldsJoin | src/Ccsds_packets.cpp:113-151 | the fields joined with commas give back the text, less its last character exactly when that is a comma: the walk drops nothing else |
| ArduinoString.FieldsOfJoin | src/Ccsds_packets.cpp:113-151 | conversely, comma-free texts joined with commas, the last one non-empty, split back into exactly those texts |
| ArduinoString.FieldBeforeComma | src/Ccsds_packets.cpp:116-123 | a first comma at `e` ends the field at `start`; the walk goes on after it |
| ArduinoString.FieldToEnd | src/Ccsds_packets.cpp:116-120 | with no comma left, the rest of the text is the last field |
| ArduinoString.FieldsHaveNoComma | src/Ccsds_packets.cpp:113-151 | no field the walk visits holds a comma |
| CcsdsPayload.Classify | src/Ccsds_packets.cpp:125-143 | a field is text exactly when it has no '.', `toInt` reads 0 and it is not "0"; text keeps its bytes, a field with '.' takes the float bits, other numbers the `toInt` bits |
| CcsdsPayload.EncodeDecodes | src/Ccsds_packets.cpp:135-149 | a number is four bytes reading back as its bits MSB first; a text is its bytes followed by '\n' |
| CcsdsPayload.TokensAt | src/Ccsds_packets.cpp:113-151 | token `k` is field `k` classified, one token per field |
| CcsdsPayload.SerializeData | src/Ccsds_packets.cpp:104-151 | the loop writes exactly `SerializedData(data)` into `packet_data` and returns its length |
| CcsdsPayload.SerializeField | src/Ccsds_packets.cpp:115-150 | one turn of the loop: the next field's bytes are written and `start` moves past its comma |
| CcsdsPayload.AppendField | src/Ccsds_packets.cpp:125-149 | the field's bytes are appended after the bytes already written, which are kept |
| CcsdsPayload.AppendBytes | src/Ccsds_packets.cpp:135-139 | the text and its newline are appended byte for byte |
| CcsdsPayload.AppendMsbFirst | src/Ccsds_packets.cpp:146-149 | the converter's bytes `b[3]` down to `b[0]` are appended |
| CcsdsPayload.NextField | src/Ccsds_packets.cpp:113-151 | the payload still owed from `start` is the next field's bytes, then what the fields after its comma owe |
| CcsdsPayload.PayloadFromFields | src/Ccsds_packets.cpp:113-151 | the walk emits the bytes of the fields it visits, in order |
| CcsdsPayload.FieldsPayloadIsPayload | src/Ccsds_packets.cpp:113-151 | emitting each field's bytes is encoding the list of tokens they classify into |
| CcsdsPayload.PayloadOfTokens | src/Ccsds_packets.cpp:104-151 | the serialised payload is the encoding of the text's fields' tokens, in input order |
| CcsdsPayload.PayloadAppend | src/Ccsds_packets.cpp:113-151 | the payload of a concatenation of token lists is the concatenation of their payloads |
| CcsdsPayload.NumericPayloadLength | src/Ccsds_packets.cpp:145-149 | a payload of numbers only takes four bytes per number |
| CcsdsPayload.TrailingCommaAddsNoField | src/Ccsds_packets.cpp:113-151 | a trailing comma opens no field: the field list is unchanged |
| CcsdsPayload.FieldEndExtended | src/Ccsds_packets.cpp:116-120 | a comma appended to the text moves no field's end |
| CcsdsPayload.IndexOfPrefix | src/Ccsds_packets.cpp:116 | extending a text after a comma does not move the first comma found from `from` |
| CcsdsPayload.TrailingCommaAddsNothing | src/Ccsds_packets.cpp:113-151 | the serialised payload is unchanged by a trailing comma |
| CcsdsPayload.EmptyFieldExample | src/Ccsds_packets.cpp:133-142 | an empty field between two commas becomes a lone '\n' ("a,,b" gives "a\n\nb\n") |
| CcsdsPayload.ZeroIsANumber | src/Ccsds_packets.cpp:129-131 | the field "0" is the number zero, four zero bytes, not text |
| CcsdsPackets.TelemetryFrame | src/Ccsds_packets.cpp:153-162 | the frame is 12 header bytes followed by the payload |
| CcsdsPackets.TelemetryPacket | src/Ccsds_packets.cpp:153-167 | the packet is 12 + n + 2 bytes long and its CRC checks |
| CcsdsPackets.Memcpy | src/Ccsds_packets.cpp:160-162 | `memcpy` writes the source at the offset and keeps every other byte |
| CcsdsPackets.CreateTelemetryPacket | src/Ccsds_packets.cpp:104-174 | a fresh packet of 12 + n + 2 bytes equal to `TelemetryPacket` of the serialised text, with the length reported |
| CcsdsPackets.AssemblePacket | src/Ccsds_packets.cpp:153-173 | headers, payload and CRC copied into a fresh array form exactly `TelemetryPacket` |
| CcsdsPackets.FrameLaidOut | src/Ccsds_packets.cpp:157-162 | headers written at 0 and 6 and the payload at 12 make up the frame |
| CcsdsPackets.ParseTelemetry | src/Ccsds_packets.cpp:176-204 | APID and count fit their field widths; data is absent exactly when the length is 0, else it is `dataLength` bytes |
| CcsdsPackets.ParseTelemetryPacket | src/Ccsds_packets.cpp:104-204 | parsing an assembled packet gives the APID cut to 11 bits, the count cut to 14 bits, the time, the subseconds, the payload (none if empty) and its length |
| CcsdsPackets.TelemetryLayout | src/Ccsds_packets.cpp:153-167 | where the primary header, time, subseconds and payload sit in the stamped packet |
| CcsdsPackets.FrameLayout | src/Ccsds_packets.cpp:153-162 | where the primary header, time, subseconds and payload sit in the frame |
| CcsdsPackets.SamePrimaryReads | src/Ccsds_packets.cpp:178-191 | the header reads depend on the first six bytes only |
| CcsdsPackets.TelemetryPacketOfParsed | src/Ccsds_packets.cpp:176-204 | a packet with the codec's fixed bits, a valid CRC and exactly its announced length is the packet assembled from what it parses to |
| CcsdsPackets.ParsedFrame | src/Ccsds_packets.cpp:176-204 | such a packet less its CRC is the frame built from the fields it parses to |
| CcsdsPackets.RebuildSecondaryHeader | src/Ccsds_packets.cpp:185-193 | the secondary header is rebuilt from the time and subseconds read out of bytes 6-11 |
| CcsdsPackets.FrameOfParts | src/Ccsds_packets.cpp:157-162 | a byte string with the frame's headers and payload in place is that frame |
| CcsdsPackets.ParseTelecommand | src/Ccsds_packets.cpp:206-232 | APID and count fit their widths; the packet id is bytes 6-7; data is absent exactly when the length is 0, else `dataLength` bytes from offset 8 |
| CcsdsPackets.ParseTelecommandPacket | src/Ccsds_packets.cpp:206-232 | a primary header, a big-endian id and a payload parse back to the masked APID and count, the id and the payload |
| CcsdsPackets.ParseTelecommandOfParts | src/Ccsds_packets.cpp:206-232 | any six-byte header announcing the payload's length, followed by an id and the payload, parses to that header's APID, count and length, the id and the payload |
| CcsdsPackets.TelecommandLayout | src/Ccsds_packets.cpp:212-231 | where the header, the id and the payload sit in a telecommand |
| CcsdsExtract.Width | src/Ccsds_packets.cpp:254-277 | a tag reads 0, 1, 2 or 4 bytes |
| CcsdsExtract.WidthOfTag | src/Ccsds_packets.cpp:254-277 | a tag reads nothing exactly when it is not one of "float", "uint8", "uint16", "uint32", and four bytes exactly when it is "float" or "uint32" |
| CcsdsExtract.FillFootprint | src/Ccsds_packets.cpp:254-277 | a tag's width is exactly the span it reads: payloads agreeing on that span fill a slot alike |
| CcsdsExtract.Fill | src/Ccsds_packets.cpp:254-277 | "float"/"uint32" make the slot's 32-bit view the big-endian word read; "uint16"/"uint8" set the 16/8-bit view and keep the other bytes; an unknown tag leaves the slot alone |
| CcsdsExtract.ConsumedStep | src/Ccsds_packets.cpp:241-279 | one tag more reads its width more |
| CcsdsExtract.ConsumedPrefix | src/Ccsds_packets.cpp:241-279 | the tags before `k` read no more than all the tags |
| CcsdsExtract.ConsumedBound | src/Ccsds_packets.cpp:241-279 | tag `k` reads inside the bytes all the tags read |
| CcsdsExtract.ExtractDataValues | src/Ccsds_packets.cpp:234-281 | slot `k` of every tag holds tag `k` read where the earlier tags stopped; slots past the last tag are untouched |
| CcsdsExtract.ExtractField | src/Ccsds_packets.cpp:241-280 | one turn of the loop: the next tag is read into the next slot and `data_index` advances by its width |
| CcsdsExtract.NextTag | src/Ccsds_packets.cpp:244-252 | the tag at `start` is the next tag, and those after its comma are the rest |
| CcsdsExtract.ExtractValue | src/Ccsds_packets.cpp:254-277 | the byte-by-byte writes leave the slot as `Fill` says and change no other slot |
| CcsdsExtract.WordTagsConsumed | src/Ccsds_packets.cpp:255-277 | "float"/"uint32" tags read four bytes each |
| CcsdsExtract.NumericPayloadAt | src/Ccsds_packets.cpp:145-149 | number `k` of an all-number payload sits at bytes `4k..4k+3`, MSB first |
| CcsdsExtract.ExtractNumbers | src/Ccsds_packets.cpp:234-281 | extracting an all-number payload with word tags puts number `k`'s bits in slot `k` |
| CcsdsExtract.ExtractSerialized | src/Ccsds_packets.cpp:104-281 | round trip: a text of numbers, serialised and extracted with word tags, gives in slot `k` the bits field `k` was classified to |
| CcsdsExtract.ReadPosition | src/Ccsds_packets.cpp:283-295 | latitude, longitude and altitude are the big-endian words at payload bytes 0, 4 and 8 |
| CcsdsExtract.PositionSlots | src/Ccsds_packets.cpp:289-294 | the slots the position format fills read the three words of the payload |
| CcsdsExtract.PositionTags | src/Ccsds_packets.cpp:289 | "float,float,float" splits into three "float" tags reading twelve bytes |
| CcsdsExtract.PositionWidth | src/Ccsds_packets.cpp:289 | three "float" tags read twelve bytes |
| CcsdsExtract.MixedTags | src/Ccsds_packets.cpp:241-252 | "float,uint8,uint16,uint32" splits into those four tags |
| CcsdsExtract.MixedOffsets | src/Ccsds_packets.cpp:254-277 | those tags start reading at bytes 0, 4, 5 and 7 and read 11 bytes in all |
| CcsdsExtract.MixedWidthExtract | src/Ccsds_packets.cpp:234-281 | a payload of a float's bits, a `uint8`, a `uint16` and a `uint32`, MSB first, read with "float,uint8,uint16,uint32" gives back all four values |
| CcsdsExtract.NarrowTagMisreadsSerialized | src/Ccsds_packets.cpp:104-281 | the serialiser turns "200" into 00 00 00 C8, and a "uint8" tag reads 0 from it, not 200 |
| CcsdsLegacy.CreatePacket | include/Ccsds_packets.h:131-195 | a fresh packet of 12 + n bytes equal to the frame of the serialised text, with no CRC |
| CcsdsLegacy.AssembleFrame | include/Ccsds_packets.h:180-194 | headers and payload copied into a fresh array form exactly the frame |
| CcsdsLegacy.FrameCopied | include/Ccsds_packets.h:183-186 | headers written at 0 and 6 and the payload at 12 make up the frame |
| CcsdsLegacy.ParseCcsds | include/Ccsds_packets.h:197-220 | APID and count fit their widths; the data is always present and is `dataLength` bytes long |
| CcsdsLegacy.ParsersAgree | include/Ccsds_packets.h:197-220 | `parse_ccsds` and `parse_ccsds_telemetry` agree on every field; with length 0 the first hands back an empty copy and the second none |
| CcsdsLegacy.ParseCcsdsFrame | include/Ccsds_packets.h:131-220 | parsing a frame made by `create_ccsds_packet` gives the masked APID and count, the time, the subseconds and the payload |
| CcsdsLegacy.FrameOfParsed | include/Ccsds_packets.h:197-220 | a packet with the fixed bits and exactly its announced length is the frame built from what it parses to |
| RadioChecksum.CharSum | src/RadioLib_wrapper.cpp:305-311 | the summing loop computes the sum of the character codes |
| RadioChecksum.PadWithZeros | src/RadioLib_wrapper.cpp:313-318 | the padding loop prepends '0' until the length reaches `_check_sum_length`, compared as unsigned |
| RadioChecksum.RadioLibWrapper.constructor | src/RadioLib_wrapper.cpp:30-37 | the wrapper keeps the checksum length it is given |
| RadioChecksum.RadioLibWrapper.AddChecksum | src/RadioLib_wrapper.cpp:303-322 | the message is kept and its padded decimal sum is appended |
| RadioChecksum.RadioLibWrapper.CheckChecksum | src/RadioLib_wrapper.cpp:324-357 | true exactly when the checksum of the prefix equals the suffix, both split at the unsigned `length - L`; on success the message becomes the prefix, otherwise it is unchanged |
| RadioChecksum.SumCodesAppend | src/RadioLib_wrapper.cpp:305-311 | the sum of a concatenation is the sum of the parts' sums |
| RadioChecksum.SumCodesBound | src/RadioLib_wrapper.cpp:305-311 | each character adds at most 255 |
| RadioChecksum.DecimalDenotes | src/RadioLib_wrapper.cpp:313 | `String(sum)` is a non-empty digit string denoting the sum, with no leading zero unless it is "0" |
| RadioChecksum.DecimalLength | src/RadioLib_wrapper.cpp:313 | a number below 10^k has at most k digits |
| RadioChecksum.PaddedShape | src/RadioLib_wrapper.cpp:314-317 | padding gives max(length, L) characters: zeros, then the original digits unchanged |
| RadioChecksum.LeadingZeroValue | src/RadioLib_wrapper.cpp:316 | a leading '0' does not change the number denoted |
| RadioChecksum.PaddedValue | src/RadioLib_wrapper.cpp:314-317 | padding keeps the number the digits denote |
| RadioChecksum.ChecksumDeterminesSum | src/RadioLib_wrapper.cpp:303-322 | equal checksum texts mean equal sums: a changed sum always changes the checksum |
| RadioChecksum.SwapKeepsChecksum | src/RadioLib_wrapper.cpp:305-311 | swapping two parts of a message leaves the checksum unchanged, so that corruption goes undetected |
| RadioChecksum.LongSumUnpadded | src/RadioLib_wrapper.cpp:314-317 | a sum with more than L digits is appended unpadded, longer than L |
| RadioChecksum.ChecksumLength | src/RadioLib_wrapper.cpp:313-318 | a sum below 10^L gives exactly L characters |
| RadioChecksum.AddThenCheck | src/RadioLib_wrapper.cpp:303-357 | round trip: if the sum fits in L digits, checking the message with its checksum appended succeeds and returns the message |
| RadioChecksum.Substring | src/RadioLib_wrapper.cpp:327-330 | Arduino `substring`: bounds in order within the text give that slice, an end past the end is cut to it, a start at or past the end gives "" |
| RadioChecksum.SubstringSwap | src/RadioLib_wrapper.cpp:327-330 | reversed bounds give the same text as the bounds in order |
| RadioChecksum.SplitInRange | src/RadioLib_wrapper.cpp:327-330 | for a message of at least L characters, the split is the plain one at `length - L` |
| RadioChecksum.DefaultLengthSuffices | include/RadioLib_wrapper.h:20 | with the default length 5, every message of up to 392 characters has a sum that fits |
| RadioChecksum.ShortMessageFails | src/RadioLib_wrapper.cpp:327-356 | a message shorter than L, or any message when L <= 0, has an empty suffix, keeps its whole text as the prefix and fails the check |
| RadioChecksum.WrappedSplitPastEnd | src/RadioLib_wrapper.cpp:327-330 | in those cases the unsigned split point lies at or past the end of the message |

## Left out

- Floating point. `String::toFloat` and `String::toInt` are not modelled; they
  are parameters of the serialiser. The float classification rule ("contains a
  '.'") is modelled exactly. What the parser makes of the text is not.
- Memory management. The source uses `new`/`delete[]` for the headers, packets
  and parsed data and hands out raw pointers. The model returns fresh arrays
  and immutable sequences. It leaves out leaks, double frees and the
  caller's duty to delete.
- Pointer arguments. The parsers read through a raw pointer with no length.
  The model requires the packet to hold the 12 (or 8) header bytes plus the
  announced data; reading past a short buffer is undefined behaviour in C.
- Buffer capacity. `create_ccsds_telemetry_packet` writes into a 244-byte local
  buffer without a bound check. CreateTelemetryPacket and CreatePacket require
  the serialised payload to fit, since an overrun is undefined behaviour.
- `uint16_t` counters. `start`, `packet_data_length`, `value_index` and
  `data_index` are 16 bits wide. The model requires texts and formats below
  65535 characters, so that `start = end + 1` cannot wrap.
- The `Converter` in the serialiser loop is rewritten before each number, so
  AppendField treats it as a fresh local. This does not change the bytes
  written.
- Signed shifts. Expressions such as `gps_epoch_time_bytes[0] << 24` promote
  to `int`. Shifting into the sign bit is implementation-defined in older C++.
  The model takes the 32-bit result.
- Duplicated code. The header builders, `extract_ccsds_data_values` and
  `read_position_from_ccsds_telemetry` in include/Ccsds_packets.h:79-128 and
  222-283 are textually the same as in src/Ccsds_packets.cpp. They are
  modelled once, in CcsdsHeaders and CcsdsExtract.
- The packet-data-length field. The code stores the payload byte count. The
  CCSDS standard and the comment at src/Ccsds_packets.cpp:75 say "one fewer
  than the length of the data field". The model follows the code.
- ArduinoString.IndexOf: texts and formats are taken to hold no 0x00
  byte. Arduino's `indexOf` and `==` / `equals` are built on `strchr` and
  `strcmp`, which stop at the first 0x00, while the model searches and
  compares whole sequences. For a text such as "a", 0x00, ",b" the two
  differ: the source sees one field, the model two.
- CcsdsExtract.ExtractSerialized: the read-back of serialised text is
  promised for "float" and "uint32" tags only. The serialiser writes every
  number as four bytes, so a "uint8" or "uint16" tag misreads its output
  (NarrowTagMisreadsSerialized). Mixed widths read back exactly from a
  payload laid out at the tags' own widths (MixedWidthExtract).
- CcsdsExtract.ReadPosition returns the IEEE-754 bits of the three floats
  rather than float values.
- RadioChecksum.CharSum: the `int` sum is not bounded to 32 bits. It could
  overflow only for messages over 8 million characters.
- RadioChecksum.CharSum: `char` is taken as unsigned, codes 0..255. On a
  target where `char` is signed, codes above 127 would subtract.
- RadioChecksum.Checksum: a negative `_check_sum_length` is compared with the
  length as unsigned, so the padding loop would run to about 4 billion
  characters. The model states that length. The allocation failure a device
  would hit first is not modelled.
- RadioChecksum.RadioLibWrapper: the rest of the radio wrapper (configuration,
  transmit, receive, interrupts) is I/O and not part of this model.
