# Verified models of the vendored C and C++ under iOS/Pods

Four components that the app links are modelled here and proved correct: the nanopb
Protocol Buffers codec, the DTLS handshake transport of BoringSSL, its TLS handshake
byte stream, and its reference counts. `dafny verify dfyconfig.toml` checks everything.

Where the source updates things in place, so does the model: streams, the field
iterator, the reassembly mask, the ring of incoming messages, the outgoing flight, the
handshake buffer and the timer are classes whose methods follow the source branch by
branch, and loops are loops. Each method is proved against a function on values, and
the theorems are about those functions, for every input and every run.

## The parts

**nanopb.** `PbTypes` holds the field table and the struct as a tree of typed slots, one
slot per plain member or union. `PbEncodeSpec` and `PbDecodeSpec` say what the encoder
writes and what the decoder makes of any byte string. `PbIterator`, `PbStream`,
`PbEncoder`, `PbReader`, `PbRequired` and `PbDecoder` are the imperative code.
`PbVarint` and `PbVarintWidth` treat the two varint decoders, `PbValid`, `PbRoundTrip`,
`PbDefaults` and `PbTheorems` the round trip and its converse, `PbOrder` unknown fields,
order, presence, the end of a message and merging. Beside this stands a reading of the wire
that uses none of the code's functions: `PbWire` has the four layouts of a value and messages
as lists of fields, `PbMeaning` the number or the bytes each value stands for, `PbReading`
what every member holds after a list of fields was decoded, `PbBlank` what it holds when no
field was for it, and `PbWriting` which fields the encoder writes. The wire format is that of the Protocol Buffers encoding documentation,
sections "Base 128 Varints" and "Message Structure".

**DTLS** (RFC 6347, sections 4.1 and 4.2). `DtlsFragment` reassembles one message,
`DtlsWindow` and `DtlsReceiver` keep the window of messages, `DtlsReplay` opens records
behind the replay window, `DtlsFlight` and `DtlsSender` seal, cut and resend a flight,
`DtlsTimer` backs off. `DtlsRun` puts a sender, a network that loses, repeats, delays
and reorders records, and a receiver into one transition system, and `DtlsTheorems` says
what holds in every state it reaches; `DtlsDelivery` says what one pass of a flight
delivers.

**TLS** (RFC 5246, sections 6.2.1 and 7.4; RFC 8446, section 5.2). `TlsFraming` has
messages, records and flights, `TlsReader` the receiving half on values, `TlsHandshake`
both halves in place, and `TlsRun` runs one against the other.

**Reference counts.** `RefCount`: the compare-and-swap loops under every interleaving.

`Basics` and `Bits` hold byte strings and the bitwise operators, defined by recursion
over binary digits; machine words are naturals whose width is written out.

## Main results

- `PbTheorems.RoundTrip`: for every well-formed descriptor and valid struct, at any nesting
  depth, pb_decode accepts what pb_encode wrote, and gives the same message back exactly
  when no explicit default takes the place of a zero that was left out.
- `PbTheorems.EncodingIdentifiesMessage`: two structs have equal encodings exactly when they
  carry the same message, whatever the defaults.
- `PbEncoder.EncodeIntoBuffer` with `PbEncoder.GetEncodedSize`: the writing pass succeeds
  exactly when the counted size fits, and writes exactly those bytes; "submsg size
  changed" is never reported.
- `PbReading.LastWins`, `PbReading.ArrayReads`, `PbReading.FixedArrayReads` and
  `PbReading.SubmessageReads` with `PbMeaning.ValueExactly` and `PbReading.StepExactly`: for
  any list of fields, each laid out as its table entry says or unknown, which literal value
  every member holds after decoding: the last one, the packed and unpacked ones in order, the
  last full run, the messages merged; and which fields are refused.
- `PbBlank.UnmentionedIsDefault`: on any bytes, a member no field was for holds its explicit
  default or zero, at every depth.
- `PbWriting.MessageWritten`, `PbWriting.NothingExactly` and `PbWriting.RefusedExactly`: which
  fields the encoder writes for a struct, what each says, which members it leaves out, and
  which structs it refuses.
- `PbWire.SkipExactly` and `PbWire.Layout`: what is skipped and what is written are the same
  four layouts; `PbOrder.UnknownFieldIgnored` and `PbReading.OnlyKnownCount`: unknown fields
  of any of them change nothing, wherever they stand.
- `PbOrder.AdjacentFieldsCommute`, `PbOrder.PresenceExact`, `PbOrder.ZeroKeyEnds`,
  `PbOrder.MergeIsConcatenation`.
- `DtlsTheorems.DeliverySafety` with `DtlsTheorems.DeliveredWasAdded`,
  `DtlsTheorems.AcceptedOnce`, `DtlsTheorems.NewMessageOneEpoch` and
  `DtlsTheorems.KeysWaitForCcs`: invariants of whole runs.
- `DtlsWindow.UsedOnceEach` with `DtlsWindow.OpenExactly` and `DtlsWindow.CcsExactly`: every
  ChangeCipherSpec that comes in while none waits is used once, or still waits.
- `DtlsTheorems.RecordNumbersExactly`, `DtlsTheorems.RecordNumbersUnique`,
  `DtlsTheorems.NumbersRepeat`: when the record numbers of a run are all different.
- `DtlsDelivery.FullPassDelivers`: after the records of one pass have arrived in any order,
  repeated or lost, a message of the flight is there, byte for byte, exactly when its
  records carry the read epoch and each of them came before a number 64 higher, or brought
  nothing new; `DtlsDelivery.ShortPassDelivers` has a condition on the pass alone, and
  `DtlsDelivery.UnionDelivers` adds up the records of any number of passes, cut for any
  sizes.
- `DtlsSender.Sender.SendFlight` with `DtlsFlight.EachByteOnce` and `DtlsFlight.GapExactly`:
  no overlap, no gap but what a failed seal leaves, and success whenever sealing and
  writing succeed; `DtlsTheorems.PassIsRun`: such a pass is a stretch of a run.
- `DtlsReplay.DiscardExact`, `DtlsReplay.RecordAgrees`: the 64-bit map is exact.
- `TlsRun.DeliversInOrder`, `TlsRun.RefusedOnlyIfCareless`, `TlsRun.DeliversAll`: however
  the bytes are cut up and in whatever order records are opened and messages taken, through
  every change of keys.
- `RefCount.RunRefines`, `RefCount.LastOwnerFrees`, `RefCount.NothingAfterLast`.

Some things the source does not do in general. Each holds under a condition that is
proved to be exact, or is shown to fail:

- A string member that fills its buffer without a terminator is encoded but not decoded
  (`PbTheorems.StringRoundTripIff`, `PbTheorems.UnterminatedStringExample`).
- A zero in a member without has_ is left out, and decoding then stores the explicit
  default. A struct comes back exactly when at each such place the default means the same
  as the zero (`PbValid.SurvivesExactly`, `PbTheorems.HasLessDefaultIff`).
- The 32-bit varint decoder takes a number that only looks sign-extended for its low half: bits
  32 to 34 are never tested, and the groups above may each be zeros
  (`PbVarintWidth.Varint32Exactly`).
- Searching an empty table for tag 0 finds its terminator (`PbIterator.FieldIter.Find`), so a
  field with tag 0 is skipped by every table but the empty one (`PbOrder.TagZeroExactly`).
- Two messages merge into what their concatenation decodes to only in tables without
  fixed-count arrays, whose runs begin again with every message
  (`PbOrder.MergeIsConcatenation`).
- A handshake message N ahead of the window passes the filter whose comment says it is
  ignored, and is then refused (`DtlsWindow.RefusedExactly`); here the code is followed.
- A failed seal loses the records sealed for its packet although the position has moved
  past them (`DtlsFlight.GapExactly`).
- Record numbers repeat exactly when a write state takes more than 2^48 of them, because the
  failed seal leaves the counter at zero, or a 16-bit epoch comes round
  (`DtlsTheorems.RecordNumbersExactly`). The first is shown at an input
  (`DtlsTheorems.NumbersRepeat`); for the second there is none, because it takes 2^16
  changes of keys, which the record layer would follow but a handshake never makes.
- The two length bytes of a TLS record take the low sixteen bits of its length: the wire
  comes apart into the records sealed exactly when all lengths fit
  (`TlsFraming.RecordsRoundTripIff`, `TlsFraming.MessageFitsExactly`).
- The budget of twelve retransmissions holds exactly until the 32-bit counter of
  timeouts comes round (`DtlsTimer.RetryBudgetExactly`), and the back-off formula exactly
  for an initial duration of at most 60000 ms (`DtlsTimer.BackoffExactly`).

## Model

| member | source | states |
|---|---|---|
| PbVarint.VarintRoundTrip | iOS/Pods/nanopb/pb_decode.c:250-270 | every 64-bit value takes at most ten bytes and pb_decode_varint gives it back, leaving what follows |
| PbVarint.ZigZagRoundTrip | iOS/Pods/nanopb/pb_decode.c:1240-1252 | pb_decode_svarint undoes pb_encode_svarint for every signed 64-bit value |
| PbVarint.LittleEndianRoundTrip | iOS/Pods/nanopb/pb_decode.c:1254-1287 | fixed-width decoding undoes encoding for every value that fits |
| PbVarint.Varint32IsLowHalf | iOS/Pods/nanopb/pb_decode.c:182-242 | on any input of at most ten bytes that the 32-bit decoder accepts it consumes what the 64-bit decoder does and returns that value modulo 2^32 |
| PbVarintWidth.Varint32RoundTrip | iOS/Pods/nanopb/pb_decode.c:182-242 | values below 2^32 decode to themselves |
| PbVarintWidth.NegativeInt32Decodes | iOS/Pods/nanopb/pb_decode.c:207-231 | a sign-extended negative int32 decodes to its low 32 bits, which are that int32 again |
| PbVarintWidth.Varint32Overflows | iOS/Pods/nanopb/pb_decode.c:207-237 | the encodings of 2^32 up to 2^63 - 1 are refused |
| PbVarintWidth.Varint32Exactly | iOS/Pods/nanopb/pb_decode.c:182-242 | of all 64-bit numbers the 32-bit decoder accepts exactly those below 2^32 and those with bits 31 and 63 set whose groups above bit 35 are all zeros or all ones, and gives the low 32 bits |
| PbWire.SkipExactly | iOS/Pods/nanopb/pb_decode.c:273-326 | on any bytes pb_skip_field passes over one value of the layout that the wire type announces, and fails exactly when there is none: groups up to a byte below 0x80, eight bytes, a length and that many bytes, four bytes |
| PbWire.Layout | iOS/Pods/nanopb/pb_encode.c:641-672 | the key written in front of a value announces the layout the value has: 0 one varint, 1 eight bytes, 2 a length and that many bytes, 5 four bytes, each for its types |
| PbValid.SlotIsLeader | iOS/Pods/nanopb/pb_common.c:44-51 | exactly the members marked by the offset PB_SIZE_MAX share storage with the member their union begins with |
| PbTypes.StrLen | iOS/Pods/nanopb/pb_encode.c:831-855 | the length found ends at a zero byte or at the buffer's end, with no zero byte before it |
| PbIterator.FieldIter.Begin | iOS/Pods/nanopb/pb_common.c:8-18 | the iterator is at the first entry with that entry's addresses; fails exactly for an empty table |
| PbIterator.FieldIter.Next | iOS/Pods/nanopb/pb_common.c:20-76 | the position moves on or wraps to the first entry, and the position alone gives pData, pSize and the required index, unions included |
| PbIterator.FieldIter.Find | iOS/Pods/nanopb/pb_common.c:78-95 | stops where the specification's search does, or back at the start; on an empty table tag 0 matches |
| PbIterator.FindIsFirstCyclicMatch | iOS/Pods/nanopb/pb_common.c:78-95 | from any start the search ends at the first match going round, and finds nothing only if no entry has the tag |
| PbIterator.SameAddressIffSameSlot | iOS/Pods/nanopb/pb_common.c:44-68 | two entries have the same data address exactly when only members of one union and members without size lie between them; with sizes, exactly when they are members of one union |
| PbIterator.VisitsMembers | iOS/Pods/nanopb/pb.h:385-403 | in a struct the table was made for, each entry's addresses are those of its member and of that member's has, count or which |
| PbStream.OStream.FromBuffer | iOS/Pods/nanopb/pb_encode.c:84-99 | the new stream owns exactly the given part of the buffer |
| PbStream.BufWrite | iOS/Pods/nanopb/pb_encode.c:72-82 | the bytes are copied behind the cursor, nothing else changes |
| PbStream.Write | iOS/Pods/nanopb/pb_encode.c:101-119 | succeeds exactly when the bytes fit or the stream only counts; then they follow what was there, and bytes outside the stream's part are untouched |
| PbStream.InSequence | iOS/Pods/nanopb/pb_encode.c:101-119 | two writers one after the other write the concatenation, and succeed exactly when it exists and fits |
| PbStream.FillGroups | iOS/Pods/nanopb/pb_encode.c:574-594 | the loop never fills more than ten bytes and leaves the varint in them |
| PbStream.WriteVarint | iOS/Pods/nanopb/pb_encode.c:574-594 | writes exactly the varint bytes of the value |
| PbStream.WriteSvarint | iOS/Pods/nanopb/pb_encode.c:596-605 | writes the varint of the zigzag value |
| PbStream.WriteFixed32 | iOS/Pods/nanopb/pb_encode.c:607-616 | writes the four bytes, least significant first |
| PbStream.WriteFixed64 | iOS/Pods/nanopb/pb_encode.c:619-633 | writes the eight bytes, least significant first |
| PbStream.WriteTag | iOS/Pods/nanopb/pb_encode.c:635-639 | writes the key made of tag and wire type |
| PbStream.WriteString | iOS/Pods/nanopb/pb_encode.c:674-680 | writes the length and then the bytes |
| PbEncoder.CheckDefault | iOS/Pods/nanopb/pb_encode.c:215-303 | reports exactly the members the specification counts as default, of those that are not fixed-count arrays |
| PbEncoder.AllDefaultIff | iOS/Pods/nanopb/pb_encode.c:261-280 | a submessage is default exactly when every one of its members is |
| PbEncoder.StringLength | iOS/Pods/nanopb/pb_encode.c:845-852 | the bounded strlen loop finds the length of the text |
| PbEncoder.WriteValue | iOS/Pods/nanopb/pb_encode.c:734-868 | the pb_enc_* function of the type writes the bytes of the specification, or fails where there are none |
| PbEncoder.WriteSubmessage | iOS/Pods/nanopb/pb_encode.c:682-730 | counts, then writes the length and the body; succeeds exactly when both fit |
| PbEncoder.WriteNested | iOS/Pods/nanopb/pb_encode.c:705-729 | the writing pass through a substream produces exactly the counted bytes, so the size cannot have changed |
| PbEncoder.WriteArray | iOS/Pods/nanopb/pb_encode.c:126-208 | packs scalar arrays, tags every other entry, refuses a count above the array size |
| PbEncoder.PackedSize | iOS/Pods/nanopb/pb_encode.c:145-165 | the size computed or counted for packed entries is the number of bytes they take |
| PbEncoder.WriteTaggedValue | iOS/Pods/nanopb/pb_encode.c:641-672 | writes the key and then the value, with the layout that PbWire.Layout says |
| PbEncoder.WriteField | iOS/Pods/nanopb/pb_encode.c:307-392 | writes exactly the field's bytes, none for an absent or default member |
| PbEncoder.Encode | iOS/Pods/nanopb/pb_encode.c:494-516 | writes the fields in table order; succeeds exactly when all have an encoding and it fits, on buffers and counting streams alike |
| PbEncoder.GetEncodedSize | iOS/Pods/nanopb/pb_encode.c:533-542 | succeeds exactly when the struct can be encoded, with the length of its encoding |
| PbEncoder.EncodeIntoBuffer | iOS/Pods/nanopb/pb_encode.c:494-542 | encoding into n bytes succeeds exactly when the counted size is at most n, writes exactly those bytes and touches nothing behind them |
| PbReader.Take | iOS/Pods/nanopb/pb_decode.c:100-132 | reads the next bytes and moves the cursor by exactly their number, or fails at the end |
| PbReader.TakeByte | iOS/Pods/nanopb/pb_decode.c:136-152 | reads one byte exactly when there is one |
| PbReader.ReadVarint32Eof | iOS/Pods/nanopb/pb_decode.c:182-242 | agrees with the specification of the 32-bit decoder on every input, and tells an empty stream from a broken varint |
| PbReader.ReadVarint | iOS/Pods/nanopb/pb_decode.c:250-270 | or-ing groups into a 64-bit word gives the low 64 bits of the number the groups stand for; refuses more than ten bytes |
| PbReader.DropVarint | iOS/Pods/nanopb/pb_decode.c:273-282 | skips to behind the first byte below 0x80 |
| PbReader.DropString | iOS/Pods/nanopb/pb_decode.c:284-291 | skips a length and that many bytes |
| PbReader.DropField | iOS/Pods/nanopb/pb_decode.c:316-326 | skips one value of each known wire type: eight bytes for 1, four for 5, each exactly when they are there; refuses others |
| PbReader.ReadTag | iOS/Pods/nanopb/pb_decode.c:293-314 | splits the key; a zero key ends the message like the end of the stream |
| PbReader.MakeSubstream | iOS/Pods/nanopb/pb_decode.c:367-380 | the substream gets exactly the declared bytes and the parent keeps the rest; together they are what there was |
| PbReader.CloseSubstream | iOS/Pods/nanopb/pb_decode.c:382-395 | the parent stands exactly past the declared length even if the inner decoder stopped early |
| PbRequired.MarkSeen | iOS/Pods/nanopb/pb_decode.c:988-993 | setting one bit adds exactly that index to the set the two words hold |
| PbRequired.CheckSeen | iOS/Pods/nanopb/pb_decode.c:1024-1045 | the test of whole words and remaining bits says exactly whether all of the first n indices are in the set |
| PbRequired.CountRequired | iOS/Pods/nanopb/pb_decode.c:1012-1022 | seeking to the end of the table counts its required fields |
| PbDecoder.StoreInt | iOS/Pods/nanopb/pb_decode.c:1289-1372 | a value is stored exactly when the member's width holds it |
| PbDecoder.ReadBuffer | iOS/Pods/nanopb/pb_decode.c:1391-1508 | bytes, strings and inline arrays: size checks, contents, terminator and what stays of the old buffer |
| PbDecoder.ReadSubmessage | iOS/Pods/nanopb/pb_decode.c:1463-1485 | decodes the declared bytes as a message and leaves the stream behind them |
| PbDecoder.ReadField | iOS/Pods/nanopb/pb_decode.c:401-475 | decode_static_field agrees with the specification for every type of member; PbMeaning.StaticExactly says what that is on content of the member's layout |
| PbDecoder.ReadPacked | iOS/Pods/nanopb/pb_decode.c:417-449 | the packed loop stores entries until the substream or the array is full, and fails on bytes left over |
| PbDecoder.ReceiveField | iOS/Pods/nanopb/pb_decode.c:964-996 | the fixed-count bookkeeping and the field: new slot, new run, new counter |
| PbDecoder.DecodeOne | iOS/Pods/nanopb/pb_decode.c:919-997 | one round of the loop, whatever the input |
| PbDecoder.CheckComplete | iOS/Pods/nanopb/pb_decode.c:999-1045 | passes exactly when the last fixed-count run is full and every tracked required field was marked |
| PbDecoder.DecodeInto | iOS/Pods/nanopb/pb_decode.c:901-1049 | pb_decode_noinit agrees with the specification on every input, and the cursor advances by exactly the bytes consumed |
| PbDecoder.SetToDefaults | iOS/Pods/nanopb/pb_decode.c:884-895 | sets every member to its default, nested submessages included, whatever was in memory |
| PbDecoder.SetToDefault | iOS/Pods/nanopb/pb_decode.c:812-882 | one member: nothing present, count and which zero; its explicit default or zero, whether it has has_ or not, and submessages likewise |
| PbDecoder.Decode | iOS/Pods/nanopb/pb_decode.c:1051-1063 | defaults first, then pb_decode_noinit |
| PbMeaning.ValueExactly | iOS/Pods/nanopb/pb_decode.c:1289-1508 | decoding any value but a submessage gives the number or the bytes on the wire exactly when the member can hold them, and fails otherwise: integers by the width of the member, buffers by their size |
| PbMeaning.BufferKeeps | iOS/Pods/nanopb/pb_decode.c:1391-1461 | bytes and strings leave what the buffer held behind the bytes and the terminator as it was |
| PbMeaning.PackedExactly | iOS/Pods/nanopb/pb_decode.c:417-449 | the packed loop puts every value in its place, in order, exactly when all fit the member and the array |
| PbMeaning.StaticExactly | iOS/Pods/nanopb/pb_decode.c:401-475 | on content of the member's layout: the value and has_, the next entry or entries and the count, the tag and the value of a union; refused exactly for lack of room or range |
| PbMeaning.FoundExactly | iOS/Pods/nanopb/pb_decode.c:964-996 | a known field goes to its slot and no other and marks its required index; a run of a fixed-count array is counted in the loop, and another begins only when it is complete |
| PbReading.StepExactly | iOS/Pods/nanopb/pb_decode.c:919-997 | a field on the wire, whatever follows it: unknown, it changes nothing; known, it is taken exactly when its slot has room for it and no other fixed-count array is incomplete |
| PbReading.DecodesList | iOS/Pods/nanopb/pb_decode.c:901-1049 | a list of fields is accepted exactly when each is taken in turn, the last run is complete and the required fields came |
| PbReading.LastWins | iOS/Pods/nanopb/pb_decode.c:409-415 | after decoding a member holds what the last field for it said and has_ is set; a union is of the member that came last |
| PbReading.ArrayReads | iOS/Pods/nanopb/pb_decode.c:417-461 | after decoding an array holds the values on the wire in order, packed, unpacked or mixed, and its count is their number |
| PbReading.FixedArrayReads | iOS/Pods/nanopb/pb_decode.c:964-986 | after decoding a fixed-count array holds the last full run of values, in order |
| PbReading.SubmessageReads | iOS/Pods/nanopb/pb_decode.c:1463-1485 | after decoding a submessage holds the messages on the wire for it, each decoded on top of the ones before, beginning with the defaults |
| PbBlank.SetDefaultsDefaulted | iOS/Pods/nanopb/pb_decode.c:812-895 | whatever was in memory: explicit defaults or zeros, nothing present, no entries, no union member, at every depth |
| PbBlank.UnmentionedIsDefault | iOS/Pods/nanopb/pb_decode.c:812-895 | after decoding any bytes a member at any depth that no field was for is not present and holds its explicit default, or zero without one |
| PbWriting.ValueWritten | iOS/Pods/nanopb/pb_encode.c:734-868 | the value on the wire, in the shortest form: a negative number sign-extended to 64 bits, a zigzag number doubled, low bytes first, the text up to its terminator, the bytes in use |
| PbWriting.NothingExactly | iOS/Pods/nanopb/pb_encode.c:215-303 | a member without has_ is left out exactly when it is zero: the number, no bytes, an empty text, a submessage nothing would be written of |
| PbWriting.MessageWritten | iOS/Pods/nanopb/pb_encode.c:494-516 | the encoding is, in table order, for each member the fields that say what it holds: one key and value, one key for a packed array, a key for each other entry, none for what is absent or nothing |
| PbWriting.EncodingIsList | iOS/Pods/nanopb/pb_encode.c:494-516 | every encoding is a list of fields with the layouts of its table, so all that is said about such lists holds of it |
| PbWriting.RefusedExactly | iOS/Pods/nanopb/pb_encode.c:126-208 | pb_encode refuses a struct exactly when a count is above the size of its array or a number of bytes above the size of its buffer |
| PbValid.SetDefaultsFresh | iOS/Pods/nanopb/pb_decode.c:884-895 | whatever memory held before, a defaulted struct is empty: nothing present, no entries, members without has_ at their default |
| PbValid.SurvivesExactly | iOS/Pods/nanopb/pb_encode.c:321-325 | what a decoded struct carries is the message that was encoded exactly when no explicit default took the place of a zero that was left out |
| PbRoundTrip.ValueRoundTrip | iOS/Pods/nanopb/pb_decode.c:1289-1508 | every value of every type decodes from its encoding, whatever follows it and whatever the member held |
| PbRoundTrip.PackedRoundTrip | iOS/Pods/nanopb/pb_decode.c:417-449 | a packed array comes back entry by entry |
| PbRoundTrip.FieldRoundTrip | iOS/Pods/nanopb/pb_decode.c:919-997 | decoding the encoding of field k moves the loop past field k with its slot right and all others as they were |
| PbRoundTrip.MessageRoundTrip | iOS/Pods/nanopb/pb_decode.c:901-1049 | the encoding of a valid struct decodes into any fresh struct as that message, with defaults where a zero was left out |
| PbTheorems.RoundTrip | iOS/Pods/nanopb/pb_decode.c:1051-1063 | a valid struct of a well-formed descriptor encodes, and an encoding below 2^32 bytes decodes, into any memory, with nothing left over; the message is the same exactly when no explicit default takes the place of a zero without has_ |
| PbDefaults.EncoderIgnoresDefaults | iOS/Pods/nanopb/pb_encode.c:494-516 | the encoding does not depend on the defaults in the table |
| PbTheorems.EncodingIdentifiesMessage | iOS/Pods/nanopb/pb_encode.c:494-516 | two valid structs have equal encodings exactly when they carry the same message |
| PbTheorems.ValidIsShaped | iOS/Pods/nanopb/pb_encode.c:494-516 | every valid struct meets what the encoder asks of its caller |
| PbTheorems.StringRoundTripIff | iOS/Pods/nanopb/pb_encode.c:831-855 | any string member encodes, and comes back exactly when its buffer holds a terminator |
| PbTheorems.UnterminatedStringExample | iOS/Pods/nanopb/pb_decode.c:1428-1461 | two letters in a two-byte member: encoded, then refused |
| PbTheorems.HasLessDefaultIff | iOS/Pods/nanopb/pb_encode.c:321-325 | a member without has_ but with an explicit default, of any type but a submessage, comes back exactly when it is not zero or the default means the same as its value |
| PbTheorems.HasLessIntegerIff | iOS/Pods/nanopb/pb_encode.c:321-325 | for integers: exactly when the value is not zero or the default is |
| PbTheorems.HasLessStringExample | iOS/Pods/nanopb/pb_decode.c:812-882 | an empty string in a member whose default is one letter is encoded as nothing and decoded as that letter |
| PbOrder.UnknownFieldIgnored | iOS/Pods/nanopb/pb_decode.c:919-962 | a field of any of the four layouts with a tag not in the table, at a field boundary, changes nothing of the result, success or failure |
| PbOrder.ForeignValueIgnored | iOS/Pods/nanopb/pb_decode.c:919-962 | in particular a value that another table's encoder wrote, key and all |
| PbReading.OnlyKnownCount | iOS/Pods/nanopb/pb_decode.c:919-962 | unknown fields, however many and wherever they stand, change neither whether a message is accepted nor what is stored |
| PbOrder.ZeroKeyEnds | iOS/Pods/nanopb/pb_decode.c:302-306 | a zero key ends the message like the end of the bytes and leaves what stands behind it unread |
| PbOrder.TagZeroExactly | iOS/Pods/nanopb/pb_common.c:78-95 | a field with tag 0 and a wire type other than 0 is skipped, but refused by the empty table |
| PbOrder.MergeIsConcatenation | iOS/Pods/nanopb/pb_decode.c:1463-1485 | in tables without fixed-count arrays two messages decoded one on top of the other are their concatenation decoded |
| PbOrder.RunFromAnywhere | iOS/Pods/nanopb/pb_common.c:78-95 | with distinct tags the outcome of the loop does not depend on where the iterator stands |
| PbOrder.AdjacentFieldsCommute | iOS/Pods/nanopb/pb_decode.c:919-997 | swapping two adjacent fields of different tags, neither oneof nor fixed-count, leaves the result unchanged |
| PbOrder.RequiredExact | iOS/Pods/nanopb/pb_decode.c:988-1045 | the bitmap passes exactly when each of the first 64 required fields was on the wire |
| PbOrder.TrackedExactly | iOS/Pods/nanopb/pb_decode.c:988-993 | of the required fields of a table exactly the first sixty-four are marked |
| PbOrder.RunsAreCounted | iOS/Pods/nanopb/pb_decode.c:964-1004 | the running counter is full at the end exactly when every run of a fixed-count array, ended only by another fixed-count field, was complete |
| PbOrder.PresenceExact | iOS/Pods/nanopb/pb_decode.c:999-1045 | once the loop has passed, decoding succeeds exactly when all runs are complete and all tracked required fields came |
| DtlsCodec.FragmentRoundTrip | iOS/Pods/BoringSSL/ssl/d1_both.cc:459-473 | parsing finds the handshake fragment that was written and leaves what follows |
| DtlsCodec.RecordRoundTrip | iOS/Pods/BoringSSL/ssl/dtls_record.cc:193-223 | parsing finds the record that was written and leaves what follows |
| DtlsCodec.HeaderLayout | iOS/Pods/BoringSSL/ssl/d1_both.cc:459-473 | the twelve bytes of a fragment header one by one |
| DtlsCodec.RecordLayout | iOS/Pods/BoringSSL/ssl/dtls_record.cc:320-343 | the thirteen bytes of a record header one by one, and the body |
| DtlsCodec.SequenceBytes | iOS/Pods/BoringSSL/ssl/dtls_record.cc:126-136 | the eight sequence bytes read as one number are the epoch above the 48-bit record number |
| DtlsFragment.BitRangeBit | iOS/Pods/BoringSSL/ssl/d1_both.cc:200-205 | bit i of the mask byte is set exactly for start <= i < end, at any word width the expression is computed in |
| DtlsFragment.HmFragment.constructor | iOS/Pods/BoringSSL/ssl/d1_both.cc:152-198 | a new message holds its header and no bytes; an empty one is complete at once |
| DtlsFragment.HmFragment.SetBits | iOS/Pods/BoringSSL/ssl/d1_both.cc:226-236 | sets exactly the bits of the range, all in bounds |
| DtlsFragment.HmFragment.AllReceived | iOS/Pods/BoringSSL/ssl/d1_both.cc:238-247 | the byte-wise test says exactly whether every byte of the message arrived |
| DtlsFragment.HmFragment.Mark | iOS/Pods/BoringSSL/ssl/d1_both.cc:207-251 | adds the range to what is covered; the mask is freed exactly when the cover is complete |
| DtlsFragment.HmFragment.Store | iOS/Pods/BoringSSL/ssl/d1_both.cc:393-402 | copies the body in and marks it, unless the message is complete already |
| DtlsFragment.AbsorbAllCovers | iOS/Pods/BoringSSL/ssl/d1_both.cc:207-251 | after any sequence of fragments a byte is marked exactly when one carried it, and the message is complete exactly when all were |
| DtlsReplay.TestBit | iOS/Pods/BoringSSL/ssl/dtls_record.cc:140-150 | testing the map against 1 << b tests bit b |
| DtlsReplay.DiscardExact | iOS/Pods/BoringSSL/ssl/dtls_record.cc:138-150 | a number is discarded exactly when it was accepted in this epoch or is 64 or more below the highest |
| DtlsReplay.FreshNumberPasses | iOS/Pods/BoringSSL/ssl/dtls_record.cc:138-150 | no number passes twice, and a new one above the highest or within the last 64 passes |
| DtlsReplay.RecordAgrees | iOS/Pods/BoringSSL/ssl/dtls_record.cc:152-175 | recording a number keeps the shifted map equal to the set accepted |
| DtlsReplay.ReadState.OpenRecord | iOS/Pods/BoringSSL/ssl/dtls_record.cc:177-272 | a discarded packet leaves the window alone; an accepted number is new and is remembered, as in the runs; a fresh authentic record of the epoch is accepted; an error only for a plaintext above 16384 bytes |
| DtlsReplay.ReadState.NextEpoch | iOS/Pods/BoringSSL/ssl/dtls_method.cc:81-95 | the epoch and the record version move on and nothing of the epoch is accepted yet |
| DtlsWindow.SlotNumber | iOS/Pods/BoringSSL/ssl/d1_both.cc:274-280 | helper: the message found in a slot has the number looked up, so the assertion never fails |
| DtlsWindow.NeverAliases | iOS/Pods/BoringSSL/ssl/d1_both.cc:261-295 | helper: a fragment changes no slot but that of the message with its own number, and no complete message |
| DtlsWindow.RefusedExactly | iOS/Pods/BoringSSL/ssl/d1_both.cc:362-390 | a fragment ends the connection exactly when it reaches beyond its message, the message is too long, it is another than the next in the encrypted epoch, its number is seven ahead, or its type or length differs from the buffered message |
| DtlsWindow.TakenExactly | iOS/Pods/BoringSSL/ssl/d1_both.cc:379-402 | a fragment of the window goes into its message, marks exactly its bytes and fills them in unless the message is complete; another changes nothing |
| DtlsWindow.FragmentsExactly | iOS/Pods/BoringSSL/ssl/d1_both.cc:350-406 | all fragments of a record are taken in turn, up to the first that is refused; bytes that make no fragment refuse the record |
| DtlsWindow.OpenExactly | iOS/Pods/BoringSSL/ssl/d1_both.cc:297-348 | refused exactly for unencrypted application data, a ChangeCipherSpec that is encrypted or not one byte 1, an unknown type or a refused fragment; remembered exactly for a proper ChangeCipherSpec; only handshake records change messages |
| DtlsWindow.CcsExactly | iOS/Pods/BoringSSL/ssl/d1_both.cc:475-491 | a ChangeCipherSpec is used exactly if one was remembered or this record is one, and none is remembered afterwards |
| DtlsWindow.UsedOnceEach | iOS/Pods/BoringSSL/ssl/d1_both.cc:475-491 | over any records, read for either purpose, each ChangeCipherSpec that came in while none waited is used once or still waits |
| DtlsWindow.CcsWaits | iOS/Pods/BoringSSL/ssl/d1_both.cc:440-457 | while one waits there is unprocessed data, whatever else is read or taken |
| DtlsWindow.GetThenNext | iOS/Pods/BoringSSL/ssl/d1_both.cc:408-438 | a message is handed out exactly when all its bytes have come; then what is unprocessed is a ChangeCipherSpec or another slot; taking it frees its slot, moves the window on by one and touches nothing else |
| DtlsReceiver.Receiver.GetIncoming | iOS/Pods/BoringSSL/ssl/d1_both.cc:261-295 | the message for the header, made if the slot is empty; null exactly when the window or the message refuses it |
| DtlsReceiver.Receiver.TakeOne | iOS/Pods/BoringSSL/ssl/d1_both.cc:350-403 | one round of the fragment loop on the ring in place is the window's step |
| DtlsReceiver.Receiver.OpenHandshake | iOS/Pods/BoringSSL/ssl/d1_both.cc:297-406 | a whole record: a ChangeCipherSpec in the clear is remembered; all fragments in turn; refused exactly for unencrypted application data, a bad ChangeCipherSpec, an unknown type or a refused fragment |
| DtlsReceiver.Receiver.CurrentIsComplete | iOS/Pods/BoringSSL/ssl/d1_both.cc:253-259 | says exactly whether the next message in order has arrived whole |
| DtlsReceiver.Receiver.GetMessage | iOS/Pods/BoringSSL/ssl/d1_both.cc:408-424 | hands out the next message exactly when it is complete: rebuilt header and body |
| DtlsReceiver.Receiver.NextMessage | iOS/Pods/BoringSSL/ssl/d1_both.cc:426-438 | drops that message and moves the window by one, keeping every slot in it; a complete flight of ours has now been answered |
| DtlsReceiver.Receiver.HasUnprocessedData | iOS/Pods/BoringSSL/ssl/d1_both.cc:440-457 | true exactly if anything but the current message is buffered |
| DtlsReceiver.Receiver.OpenChangeCipherSpec | iOS/Pods/BoringSSL/ssl/d1_both.cc:475-491 | used exactly if one was remembered or this record is one, and none is remembered afterwards; another record is processed and discarded, or refused |
| DtlsReceiver.Receiver.SetReadState | iOS/Pods/BoringSSL/ssl/dtls_method.cc:81-95 | refused exactly when anything else is buffered; otherwise the epoch changes, the replay map is cleared and the record version is that of the new cipher |
| DtlsFlight.SealRecord | iOS/Pods/BoringSSL/ssl/dtls_record.cc:294-351 | a sealed record carries the epoch and number of the chosen write state, fits the output, and uses the number up |
| DtlsFlight.MessageLayout | iOS/Pods/BoringSSL/ssl/d1_both.cc:511-537 | the bytes a message is kept as: type, length, number, offset 0, the length again, the body |
| DtlsFlight.AddedExactly | iOS/Pods/BoringSSL/ssl/d1_both.cc:553-594 | a complete flight makes way, also for a message that is refused; refused exactly above seven messages or 2^32 bytes; only handshake messages take a number and go to the transcript |
| DtlsFlight.FragmentFills | iOS/Pods/BoringSSL/ssl/d1_both.cc:658-734 | a fragment that does not finish its message leaves no room, up to the overhead of its cipher |
| DtlsFlight.SealsWhatLeaves | iOS/Pods/BoringSSL/ssl/dtls_record.cc:330-345 | the cipher is given the epoch, number, type and plaintext of the record that leaves, and the record is as long as its header and what the cipher made |
| DtlsTheorems.NumbersRepeat | iOS/Pods/BoringSSL/ssl/tls_record.cc:154-163 | a run from the start: after the change of keys, 2^48 application records and one more, the first and the last record that left have the same epoch and number |
| DtlsFlight.SealNextTiles | iOS/Pods/BoringSSL/ssl/d1_both.cc:641-734 | a sealed fragment starts exactly where the last one ended, and says rightly whether the message is done |
| DtlsFlight.SealNextSucceeds | iOS/Pods/BoringSSL/ssl/d1_both.cc:641-734 | with a cipher within its declared overhead and numbers left, sealing never fails, and with room for one body byte and the overhead it writes a record |
| DtlsFlight.NoProgressExact | iOS/Pods/BoringSSL/ssl/d1_both.cc:658-696 | nothing is written exactly when there is less room than that |
| DtlsFlight.EachByteOnce | iOS/Pods/BoringSSL/ssl/d1_both.cc:641-734 | records that tile the flight carry each body byte between the two positions exactly once, and no other |
| DtlsFlight.GapExactly | iOS/Pods/BoringSSL/ssl/d1_both.cc:797-815 | after records that tile the flight, records lost behind them leave a gap exactly if there are any |
| DtlsFlight.AfterDecreases | iOS/Pods/BoringSSL/ssl/d1_both.cc:797-815 | every record brings down messages left and bytes left, lexicographically |
| DtlsSender.Sender.AddOutgoing | iOS/Pods/BoringSSL/ssl/d1_both.cc:553-594 | appends to the flight, or begins a new one after a complete flight and stops the timer; a handshake message goes to the transcript and takes a number |
| DtlsSender.Sender.Clear | iOS/Pods/BoringSSL/ssl/d1_both.cc:500-509 | the flight is empty and nothing of it is marked sent, complete or answered |
| DtlsSender.Sender.SetWriteState | iOS/Pods/BoringSSL/ssl/dtls_method.cc:97-107 | the epoch moves on, its counter starts at zero, the old cipher and counter stay as the previous ones |
| DtlsSender.Sender.OnHandshakeComplete | iOS/Pods/BoringSSL/ssl/dtls_method.cc:71-79 | the timer stops; a flight that has been answered is dropped, another kept |
| DtlsSender.Sender.Seal | iOS/Pods/BoringSSL/ssl/dtls_record.cc:294-351 | does to the counters, and returns, what SealRecord says |
| DtlsSender.Sender.SealNextMessage | iOS/Pods/BoringSSL/ssl/d1_both.cc:641-734 | does to the sender what SealNext says, for every room and cipher result |
| DtlsSender.Sender.SealNextPacket | iOS/Pods/BoringSSL/ssl/d1_both.cc:736-780 | a packet fits the size and tiles the flight from the old position to the new, also when sealing fails and its records are lost; it ends with the flight, inside a message, or when there is no room for one more body byte; success with room and a good cipher |
| DtlsSender.Sender.UpdateMtu | iOS/Pods/BoringSSL/ssl/d1_both.cc:615-633 | a usable MTU stays; otherwise, when asked, the answer is taken if usable and else the default |
| DtlsSender.Sender.SendPacket | iOS/Pods/BoringSSL/ssl/d1_both.cc:797-815 | a failed write leaves the position at the same message and offset; a failed seal moves it past the records lost |
| DtlsSender.Sender.SendFlight | iOS/Pods/BoringSSL/ssl/d1_both.cc:782-827 | what reached the wire, then what a failed seal lost, tiles the flight from the old position to the new, all of it on success, each packet within the MTU; with room, a good cipher and numbers left only a failed write stops it |
| DtlsSender.Sender.SendPackets | iOS/Pods/BoringSSL/ssl/d1_both.cc:797-815 | the loop: the same, from any position a failed write left |
| DtlsSender.Sender.FlushFlight | iOS/Pods/BoringSSL/ssl/d1_both.cc:829-834 | completes the flight, starts the timer and sends the rest of it, resumable at the byte it stopped at |
| DtlsSender.Sender.Retransmit | iOS/Pods/BoringSSL/ssl/d1_both.cc:836-845 | sends the flight again from its first byte, resumable likewise |
| DtlsSender.Sender.HandleTimeout | iOS/Pods/BoringSSL/ssl/d1_lib.cc:247-267 | an expired timer, and no other, counts once; within the budget the whole flight is sent again, cut for the MTU fallen back to, and nothing else is sent |
| DtlsTheorems.PassIsRun | iOS/Pods/BoringSSL/ssl/d1_both.cc:782-845 | what one call of send_flight, flush or retransmit did to the sender a run can do from any of its states, with the same records in its log |
| DtlsTheorems.DeliverySafety | iOS/Pods/BoringSSL/ssl/d1_both.cc:408-438 | in every run that adds fewer than 2^16 messages those taken are a prefix of those added and their bytes a prefix of the sender's transcript |
| DtlsTheorems.DeliveredWasAdded | iOS/Pods/BoringSSL/ssl/d1_both.cc:511-594 | message i delivered is what the i-th accepted request for a message gave: its type and body behind a header with that length and number |
| DtlsTheorems.RequestsExactly | iOS/Pods/BoringSSL/ssl/d1_both.cc:553-594 | a message of up to 2^24 - 1 bytes is added exactly if the flight is complete or holds fewer than seven; only a complete flight is answered, and only an answered one dropped |
| DtlsTheorems.WholeIsDelivered | iOS/Pods/BoringSSL/ssl/d1_both.cc:408-438 | in every reachable state a next message that is whole can be taken, and its bytes are delivered |
| DtlsTheorems.KeysWaitForCcs | iOS/Pods/BoringSSL/ssl/d1_both.cc:440-457 | a ChangeCipherSpec that was received stays remembered, and the read keys stay as they are, until it is taken |
| DtlsTheorems.RecordNumbersUnique | iOS/Pods/BoringSSL/ssl/dtls_record.cc:294-351 | in every run with fewer than 2^16 epoch changes and at most 2^48 sealing steps for each write state no two records share epoch and number |
| DtlsTheorems.RecordNumbersExactly | iOS/Pods/BoringSSL/ssl/dtls_record.cc:294-351 | the numbers a run takes are all different exactly when no write state takes more than 2^48 and no epoch comes round |
| DtlsTheorems.AcceptedOnce | iOS/Pods/BoringSSL/ssl/dtls_record.cc:225-259 | in every reachable state a record is accepted exactly when it opens, has the read epoch and is neither accepted before nor too old; then it is remembered, and a discarded one changes nothing |
| DtlsTheorems.ReceivedExactly | iOS/Pods/BoringSSL/ssl/dtls_record.cc:225-272 | in every reachable state a record that is old, known, of another epoch or does not open changes nothing, one above 16384 bytes ends the connection, and any other is remembered and given to the handshake unless it is an alert |
| DtlsTheorems.NewMessageOneEpoch | iOS/Pods/BoringSSL/ssl/dtls_method.cc:81-95 | in every reachable state a message handed out for the first time was begun and received in the present epoch alone |
| DtlsRun.NextInv | iOS/Pods/BoringSSL/ssl/d1_both.cc:297-845 | every step of sender, network and receiver keeps the invariant of runs |
| DtlsDelivery.FullPassDelivers | iOS/Pods/BoringSSL/ssl/d1_both.cc:297-424 | exactly which messages are complete after the records of one pass arrived in any order, repeated or lost: those of the read epoch whose every record came less than 64 below the highest number until then or brought nothing new |
| DtlsDelivery.ShortPassDelivers | iOS/Pods/BoringSSL/ssl/d1_both.cc:297-424 | if all records of the pass arrive and their numbers lie within 64 of each other and of the highest accepted, every message of the read epoch is complete |
| DtlsDelivery.UnionDelivers | iOS/Pods/BoringSSL/ssl/d1_both.cc:297-424 | after records of any number of passes, cut for any sizes, arrived in any order, repeated or lost, an awaited message is complete exactly when those in time together with what was there cover it |
| DtlsDelivery.InTimeExactly | iOS/Pods/BoringSSL/ssl/dtls_record.cc:138-175 | a record is among those accepted exactly when at some arrival it is less than 64 below the highest number until then |
| DtlsTimer.BackoffExactly | iOS/Pods/BoringSSL/ssl/d1_lib.cc:155-160 | after every number k of timeouts the duration is min(60000, initial * 2^k), exactly for initial durations of at most 60000 ms |
| DtlsTimer.DoubledExactly | iOS/Pods/BoringSSL/ssl/d1_lib.cc:155-160 | the duration doubles up to 60000 ms; above 2^31 ms the 32-bit product loses its top bit |
| DtlsTimer.RetryBudgetExactly | iOS/Pods/BoringSSL/ssl/d1_lib.cc:168-187 | at most twelve retransmissions are allowed between two stops, exactly as long as fewer than 2^32 were asked for |
| DtlsTimer.Shown | iOS/Pods/BoringSSL/ssl/d1_lib.cc:229-244 | below 15 ms reads as zero, otherwise the time is exact and its microseconds are below a million |
| DtlsTimer.Timer.Start | iOS/Pods/BoringSSL/ssl/d1_lib.cc:120-136 | the timer runs out exactly one duration from now; a stopped timer begins with the initial duration |
| DtlsTimer.Timer.Stop | iOS/Pods/BoringSSL/ssl/d1_lib.cc:162-166 | no timer runs and the counts start afresh |
| DtlsTimer.Timer.GetTimeout | iOS/Pods/BoringSSL/ssl/d1_lib.cc:197-245 | shows the time left, none if it has passed |
| DtlsTimer.Timer.IsExpired | iOS/Pods/BoringSSL/ssl/d1_lib.cc:138-153 | expired exactly when a timer runs and less than 15 ms are left |
| DtlsTimer.Timer.CheckTimeoutNum | iOS/Pods/BoringSSL/ssl/d1_lib.cc:168-187 | allows the first twelve; after more than two a usable answer becomes the MTU, and nothing else changes it |
| DtlsTimer.Timer.HandleTimeout | iOS/Pods/BoringSSL/ssl/d1_lib.cc:247-267 | does nothing exactly when no timer runs or 15 ms or more are left; otherwise counts once, doubles its duration and starts again, or gives up after twelve |
| DtlsTimer.Timer.RepeatedFinished | iOS/Pods/BoringSSL/ssl/d1_pkt.cc:143-174 | only the first fragment of the previous message, if a Finished, causes a retransmission, out of the same budget; its later fragments are discarded |
| TlsFraming.ParseMessage | iOS/Pods/BoringSSL/ssl/s3_both.cc:399-425 | finds the whole message in front of the buffer, or how many bytes more it takes |
| TlsFraming.ParseExactly | iOS/Pods/BoringSSL/ssl/s3_both.cc:399-425 | the length of a message is four and the number in its second to fourth byte |
| TlsFraming.RecordLayout | iOS/Pods/BoringSSL/ssl/tls_record.cc:376-420 | the five bytes of a record header one by one, and the body |
| TlsFraming.StrippedExactly | iOS/Pods/BoringSSL/ssl/tls_record.cc:325-341 | a padded plaintext splits in exactly one way into content, a type that is not zero, and zeros; there is none exactly when it is all zeros |
| TlsReader.AcceptsExactly | iOS/Pods/BoringSSL/ssl/s3_both.cc:441-459 | more data is accepted exactly while the message in front is incomplete and not longer than allowed |
| TlsReader.PartialExactly | iOS/Pods/BoringSSL/ssl/tls_record.cc:220-261 | more bytes are asked for exactly when a header or the record it announces is not there yet, and how many |
| TlsReader.RefusesFront | iOS/Pods/BoringSSL/ssl/tls_record.cc:213-254 | nothing is opened while a whole message waits, or with a bad version or more than 16704 bytes announced |
| TlsReader.BrokenExactly | iOS/Pods/BoringSSL/ssl/tls_record.cc:286-374 | a whole record is refused exactly when it does not decrypt, is too long, hides no type or in another record than application data, is the 33rd in a row without content, or is neither handshake data nor an alert while handshake data is left over |
| TlsReader.OpenedExactly | iOS/Pods/BoringSSL/ssl/s3_both.cc:529-560 | a handshake record and no other is appended; a ChangeCipherSpec is one byte 1 |
| TlsReader.HandedOut | iOS/Pods/BoringSSL/ssl/s3_both.cc:427-472 | a whole message in front is handed out; then what is left over is what stands behind it, and going on keeps exactly that |
| TlsFraming.TakenArePrefix | iOS/Pods/BoringSSL/ssl/s3_both.cc:562-583 | messages cut from the front of a stream of messages are those messages, in order |
| TlsFraming.AllTaken | iOS/Pods/BoringSSL/ssl/s3_both.cc:562-583 | when everything arrived and no whole message is buffered, all were taken and nothing is left |
| TlsFraming.RecordsRoundTripIff | iOS/Pods/BoringSSL/ssl/tls_record.cc:220-264 | the bytes of a list of records come apart into the same records exactly when all versions and lengths fit sixteen bits |
| TlsFraming.MessageFitsExactly | iOS/Pods/BoringSSL/ssl/tls_record.cc:376-420 | the records of a message fit their length fields exactly when the first of them does |
| TlsFraming.ChunksExactly | iOS/Pods/BoringSSL/ssl/s3_both.cc:184-205 | the pieces a message is cut into are the message; all but the last are full and none is empty unless the message is |
| TlsHandshake.TlsSender.AddRecord | iOS/Pods/BoringSSL/ssl/s3_both.cc:135-165 | appends exactly one sealed record to the flight, whatever its length, or fails with sealing and changes nothing |
| TlsHandshake.TlsSender.AddMessage | iOS/Pods/BoringSSL/ssl/s3_both.cc:184-205 | one record for each piece of at most max_send_fragment bytes, in order; the flight's handshake plaintext and the transcript grow by the message; when sealing fails, exactly the pieces before stay in the flight |
| TlsHandshake.TlsSender.AddChangeCipherSpec | iOS/Pods/BoringSSL/ssl/s3_both.cc:207-218 | adds one ChangeCipherSpec record, between messages, or fails with sealing |
| TlsHandshake.TlsSender.SetWriteState | iOS/Pods/BoringSSL/ssl/tls_method.cc:97-101 | later records are sealed under the new cipher; the flight stays that of its messages |
| TlsHandshake.TlsSender.Flush | iOS/Pods/BoringSSL/ssl/s3_both.cc:231-279 | under every pattern of short writes and resumptions the bytes leave in order, none lost or repeated; once flushed all have left |
| TlsHandshake.TlsReceiver.CanAccept | iOS/Pods/BoringSSL/ssl/s3_both.cc:441-459 | more data is accepted exactly when no whole message waits and the one in front is not too long |
| TlsHandshake.TlsReceiver.HasUnprocessed | iOS/Pods/BoringSSL/ssl/s3_both.cc:461-472 | true exactly if bytes remain beyond the current message |
| TlsHandshake.TlsReceiver.OpenRecord | iOS/Pods/BoringSSL/ssl/tls_record.cc:206-374 | an error, more bytes needed, an alert or the type and plaintext of the record in front, as TlsReader.OpenTls says |
| TlsHandshake.TlsReceiver.OpenHandshake | iOS/Pods/BoringSSL/ssl/s3_both.cc:529-560 | a handshake record is appended whole; anything else leaves the buffered bytes alone |
| TlsHandshake.TlsReceiver.OpenChangeCipherSpec | iOS/Pods/BoringSSL/ssl/s3_pkt.cc:351-375 | only a ChangeCipherSpec passes, and only between messages |
| TlsHandshake.TlsReceiver.FindType | iOS/Pods/BoringSSL/ssl/tls_record.cc:325-341 | the padding loop finds the last byte that is not zero as the type, and what is before it |
| TlsHandshake.TlsReceiver.SetReadState | iOS/Pods/BoringSSL/ssl/tls_method.cc:84-95 | the keys change exactly when nothing but the current message is buffered |
| TlsHandshake.TlsReceiver.GetMessage | iOS/Pods/BoringSSL/ssl/s3_both.cc:427-439 | hands out the message in front exactly when it is whole |
| TlsHandshake.TlsReceiver.NextMessage | iOS/Pods/BoringSSL/ssl/s3_both.cc:562-583 | consumes exactly that message and keeps the bytes behind it |
| TlsRun.DeliversInOrder | iOS/Pods/BoringSSL/ssl/s3_both.cc:427-583 | in every run over the bytes a sender has written, in any pieces, with records opened and messages taken in any order and keys changed where the sender did, the messages taken are a prefix of those added, and all of them once all records are opened and no whole message is left |
| TlsRun.RefusedOnlyIfCareless | iOS/Pods/BoringSSL/ssl/tls_record.cc:206-374 | with sizes within the limits a run fails exactly if a record is opened while a whole message waits, or asked for as the wrong type, or keys are changed over leftover bytes |
| TlsRun.DeliversAll | iOS/Pods/BoringSSL/ssl/s3_both.cc:427-583 | every careful run over a flushed wire can go on, through every change of keys, until all messages are delivered, and has delivered them once nothing is left to do |
| TlsRun.NothingAcrossKeys | iOS/Pods/BoringSSL/ssl/tls_method.cc:84-95 | where the sender changed keys the receiver is not refused once it took the messages before; and when the keys may change, the records opened are exactly the messages taken and the one being looked at |
| TlsRun.WireCarriesMessages | iOS/Pods/BoringSSL/ssl/s3_both.cc:184-279 | a flushed flight comes apart into the records sealed exactly when their lengths fit, and then their handshake plaintext is the messages added, and the transcript |
| RefCount.Locked.Increment | iOS/Pods/BoringSSL/crypto/refcount_lock.c:29-35 | adds one, or leaves a saturated count |
| RefCount.Locked.DecrementAndTest | iOS/Pods/BoringSSL/crypto/refcount_lock.c:37-51 | takes one away unless saturated, reports whether none is left, aborts at zero |
| RefCount.RunRefines | iOS/Pods/BoringSSL/crypto/refcount_c11.c:37-65 | under every interleaving, spurious failures included, the loops give the results of the locked counter |
| RefCount.Step | iOS/Pods/BoringSSL/crypto/refcount_c11.c:37-65 | every step is one atomic operation of the locked counter or changes nothing it can see |
| RefCount.LastOwnerFrees | iOS/Pods/BoringSSL/crypto/refcount_c11.c:49-65 | with paired references no thread aborts, at most one decrement returns 1 and only when no reference is left, without saturation one does, and a saturated count never does |
| RefCount.NothingAfterLast | iOS/Pods/BoringSSL/crypto/refcount_c11.c:49-65 | the decrement that returned 1 is the last operation |

## Left out

nanopb

- Callback, extension and pointer fields, `PB_WITHOUT_64BIT`, `PB_BUFFER_ONLY`,
  `PB_FIELD_32BIT` and `PB_OLD_CALLBACK_STYLE`: user code or other builds. `pb_size_t` has
  its default eight bits.
- The struct is a value that the decoder returns instead of memory it fills: aliasing is
  not captured, nor what a failed decode leaves in the struct. Memory shared by the
  members of a union is not reinterpreted: a new member starts from zero.
- A slot whose form does not fit its descriptor is an error here; C would misread it.
- PbDecoder.SetToDefault: the zero that C writes as the count of a fixed-count array, over
  the array's own memory, is not stored: those entries are overwritten or the decode fails.
- PbEncoder.CheckDefault: requires that the member is not a fixed-count array, whose own
  data the C code reads as its count.
- PbTheorems.RoundTrip: excludes fixed-count arrays inside a submessage without has_, for
  the same reason; an encoding of 2^32 bytes or more has lengths that do not fit the
  wire's 32 bits as the decoder reads them.
- PbOrder.AdjacentFieldsCommute: is about decodes that accept both fields; which error
  comes first is not compared.
- PbReading.StepExactly: is about known fields laid out as their table entry says. The decoder
  does not look at the wire type of an unpacked value, so it reads other content by the type
  of the member; that is covered by PbDecoder.DecodeOne alone.
- PbWriting.MessageWritten: as the round trip, for encodings below 2^32 bytes.
- size_t overflow, which would take messages larger than memory, and the error texts.
- `pb_decode_delimited`, `pb_encode_delimited`, `pb_release` and streams over callbacks.

DTLS and TLS

- Ciphers: a record opens to what was sealed or not at all, and sealing has a length and
  may fail. Forged and corrupted records appear only as records that do not open; the
  network of `DtlsRun` does not make records of its own in the unencrypted epoch.
- DtlsTheorems.DeliverySafety: for runs that add fewer than 2^16 messages, since the numbers
  of messages have sixteen bits.
- DtlsReceiver.Receiver.OpenHandshake: the alert sent with a refusal is not modelled.
- Allocation succeeds and new message buffers are zero, which no result depends on.
- Alerts, message and info callbacks, error queues, handoff, and the state machine that
  drives get and next. The transcript is always present and is a log of bytes.
- The clock, the MTU the transport reports and the outcome of writes are arbitrary.
- TlsHandshake.TlsReceiver.OpenRecord: leaves out close_notify, what an alert does, skipped
  early data, the ChangeCipherSpec that TLS 1.3 ignores, and the 64-bit sequence number.
- TLS: V2ClientHello, detection of HTTP, and record splitting of application data.
- TlsHandshake.TlsSender.Seal: every cipher adds a nonce and a tag of fixed lengths.
- TlsRun.DeliversInOrder: that a record does not open under other keys than its own is not
  modelled; runs open every record under the cipher it was sealed with.

Reference counts

- Atomics are sequentially consistent, as the C11 defaults the source uses are.

Elsewhere

- The JavaScript app, the Firebase and Facebook headers, generated tables, CPU detection
  and thread wrappers: interface code or platform calls.
