# Verified models of nanopb and of the concurrent parts of Alamofire

The TWTW repository vendors two libraries with hard promises: nanopb, a table-driven Protocol Buffers codec for
static C structs, and Alamofire, an HTTP client whose requests are shared between threads. This project models their
cores in Dafny and proves what they are for. `dafny verify dfyconfig.toml` checks all of it.

## How it is built

**nanopb.** `Descriptor` holds field descriptors and the structs they describe; a struct is a sequence of slots with
buffers of their full size, and the members of a oneof share one slot. `Serialize` and `Deserialize` are the pure
encoder and decoder. `InputStream`, `FieldIterator`, `RequiredFields` and `Decoder`, and `OutputStream` and
`Encoder`, are the imperative code, method by method, proved against those functions. The laws are then proved about
the functions, in `RoundTrip`, `Packing`, `Unterminated`, `Canonical`, `SameBytes`, `Omission`, `WireFormat`,
`ItemOutcomes`, `Extend`, `Turns`, `Merging`, `LastOneWins`, `Framing`, `Freshness`, `Shapes`, `Bounds` and
`Unsent`; `Varints` and `Bits` are the integer formats below them. Words are natural numbers with shifts, `|` and
bit tests written out, and every truncation to 32 or 64 bits is explicit. The build modelled has 64-bit varints and,
as the Pods project configures it, `PB_FIELD_32BIT` (a 32-bit `pb_size_t`, a byte-array header of 4 bytes). It has
static allocation only: the Pods project also sets `PB_ENABLE_MALLOC`, which adds pointer fields and the release of
union members.

`Equivalence.Same` says when two structs stand for the same message: it ignores the data of absent optionals, bytes
behind a terminator or a byte count, array slots past the count, and the data of an unset union. That it ignores
neither too much nor too little is a theorem, for structs whose `which_` words are in order
(`Canonical.EncodingIsInjective`); `SameBytes` has the condition for all others.

**Alamofire.** `Authentication`, `SerializerPipeline` and `StreamCompletion` are transition systems in which each
critical section and each step of a dispatched block is one atomic step and everything else interleaves; the laws
about their runs are in `AuthenticationLaws`, `RefreshCredentials`, `RefreshDecisions`, `AuthenticationAnswers`,
`SerializerPipelineLaws`, `SerializerRounds`, `SerializerLosses` and `RequestFinishes`. The classes beside them
(`AuthenticationInterceptorClass`, `RequestClass`, `DataStreamRequestClass`) hold the critical sections as methods
on mutable fields, proved to be those steps and to keep the part of the systems' invariants that speaks of those
fields. `Multipart`, `MultipartReading` and `ContentDisposition` are the multipart format and readers for it;
`MultipartFormDataClass` is the encoder over streams that deliver and accept any positive number of bytes.

## What turned out not to hold

- The 32-bit varint decoder accepts more than 32-bit and sign-extended values: it ignores bits 32 to 34 of the fifth
  byte when more bytes follow. `Varints.Dec32Enc` says exactly which encoded values it accepts; `AcceptedBeyond32`
  is one of the others.
- Decoding into the same struct does not always merge, as `pb_decode_noinit` is documented to: an input that begins
  its fixed-count arrays with the one the input before it filled last is refused behind it, and only such an input
  (`Merging.MergeExactly`).
- The encoder accepts a string that fills its buffer without a terminator, and the decoder then refuses it
  (`Unterminated.DecodesExactlyTerminated`; `FullBufferRefused` is the smallest case).
- A decoded struct is not always one the encoder accepts: items of a fixed-count array that was never sent stay as
  they were (`Bounds.UnsentItemsStay`), and only those matter (`Unsent.ReadableExactly`, `Bounds.DecodedReadsBack`).
- Two structs that the decoder takes for the same message may encode differently: a proto3 submessage with a
  `which_` word that names no member is put out, though empty (`SameBytes.StrayWhichIsEncoded`; `SameBytesExactly`
  is the exact law).
- A refresh may be dispatched from a credential that is no longer the current one, exactly when a retry read it
  before it was replaced (`RefreshCredentials.StaleExactly`, with a run in `RefreshFromReplacedCredential`). A
  dispatched one may also go stale before it starts, behind an adapt too, exactly when another credential is the
  last one set in between (`RefreshCredentials.WaitingSince`, with a run in `QueuedRefreshGoesStale`).
- A response serializer may be dropped for good, exactly when the list is cleared, in any round, with it in there
  unstarted (`SerializerLosses.LostExactly`, `LostForever`). It may have been appended between the check that none
  is left and the clearing (`LostBetween`), but also before the check, with no race at all, when a serializer was
  started twice (`LostWithoutRace`): `LostByClearing`. After the first round one may be started twice, exactly when
  processing comes to it while its completion is still to come (`SerializerRounds.StartedTwiceExactly`, with a run
  in `StartedTwice`), and its completion is then called twice (`SerializerLosses.CalledAsStarted`).
- Part headers do not always tell the name and the file name: a quote in either is not escaped
  (`ContentDisposition.HeadersReadBack`, with a pair in `QuoteIsAmbiguous`).
- A multipart body that starts with a boundary line is lost although the delimiter occurs neither in the headers nor
  in the body (`MultipartReading.BoundaryLineInBody`); a form without parts encodes to no bytes at all, which no
  reader takes for a multipart body; and writing through a stream does not check the lengths that encoding into
  memory checks (`MultipartLaws.WritesWholeBodies`).

## Model

| member | source | states |
|---|---|---|
| `RoundTrip.DecodeInvertsEncode` | TWTW/Pods/nanopb/pb_decode.c:1084-1096 | for every descriptor tree and every well-formed message, decoding what the encoder wrote succeeds into any struct, reads every byte and gives a struct that stands for the same message |
| `RoundTrip.MessageRoundTrip` | TWTW/Pods/nanopb/pb_decode.c:934-1082 | the same for decoding without initialisation into any struct in which no optional is present, no item counted, no union member set, every proto3 singular field zero, and every submessage that is not in an array of that kind again; other data, and what fixed-count arrays hold, may be anything |
| `Unterminated.DecodesExactlyTerminated` | TWTW/Pods/nanopb/pb_decode.c:1487-1523 | of all messages the encoder accepts (with lengths of 32 bits) the decoder takes back exactly those in which every encoded string, however deeply nested, is terminated |
| `Unterminated.MessageRejected` | TWTW/Pods/nanopb/pb_decode.c:934-1082 | one unterminated string anywhere in the encoded part of a message makes the decoder fail |
| `Unterminated.ReadBackExactly` | TWTW/Pods/nanopb/pb_decode.c:1084-1096 | for any descriptor and input, when the encoder accepts the decoded struct (with lengths of 32 bits) its encoding decodes to the same message again exactly if the encoded strings are terminated, and is refused otherwise; `Bounds.DecodedReadsBack` says when both are so |
| `Bounds.DecodedFits` | TWTW/Pods/nanopb/pb_decode.c:1084-1096 | whatever the bytes and the destination, decoding leaves every count within its array and every byte count within its buffer, down through submessages, arrays and selected union members; and, when so demanded, every string terminated. Asked for is only that default values are so, and the items of fixed-count arrays in the destination, which setting to defaults leaves alone |
| `Bounds.DecodeKept` | TWTW/Pods/nanopb/pb_decode.c:934-1082 | the same for decoding without initialisation into any struct that is so |
| `Bounds.DecodedReadsBack` | TWTW/Pods/nanopb/pb_decode.c:1084-1096 | whatever was decoded, from any bytes, the encoder accepts, its strings are terminated, and its encoding (with lengths of 32 bits) decodes to the same message again |
| `Bounds.DecodedReadsBackAlways` | TWTW/Pods/nanopb/pb_decode.c:1084-1096 | without fixed-count arrays anywhere in the descriptor this holds for every destination, whatever it held |
| `Bounds.FitsAreEncodable` | TWTW/Pods/nanopb/pb_encode.c:528-550 | a struct so bounded passes every check of the encoder and of the decoder's strings |
| `Bounds.UnsentItemsStay` | TWTW/Pods/nanopb/pb_decode.c:872-878 | with a fixed-count array that is never sent it fails: an item out of bounds in the destination stays so, and the encoder refuses the result |
| `Unsent.ReadableExactly` | TWTW/Pods/nanopb/pb_decode.c:1084-1096 | whatever the bytes and the destination, the encoder accepts what was decoded, with its strings terminated, exactly when the destination held such items in each of its fixed-count arrays whose tag is not among those read; asked for is only that the arrays inside submessages and items are in order |
| `Unsent.SlotAtEnd` | TWTW/Pods/nanopb/pb_decode.c:997-1037 | at the end of a successful decoding every slot is in bounds, those of fixed-count arrays that were sent too, whatever they held before; one that was not sent is as it was |
| `Unterminated.FullBufferRefused` | TWTW/Pods/nanopb/pb_decode.c:1487-1523 | the smallest case: one character that fills a buffer of one |
| `SameBytes.SameBytesExactly` | TWTW/Pods/nanopb/pb_encode.c:341-426 | any two structs the encoder accepts encode to the same bytes if and only if every field puts out as many items in one as in the other and these are alike in turn, down through submessages |
| `SameBytes.AlikeIsSame` | TWTW/Pods/nanopb/pb_encode.c:240-337 | where live which_ words are 0 or name a member, this is standing for the same message |
| `SameBytes.StrayWhichIsEncoded` | TWTW/Pods/nanopb/pb_encode.c:266-270 | where they are not it need not be: two well-formed structs for the same message, of which one encodes to nothing and the other does not |
| `Canonical.EncodingIsInjective` | TWTW/Pods/nanopb/pb_encode.c:528-550 | two well-formed structs whose live which_ words are 0 or name a member of their union encode to the same bytes if and only if they stand for the same message |
| `Canonical.ReencodeIsIdentity` | TWTW/Pods/nanopb/pb_encode.c:341-426 | for such a struct, encoding again what its encoding decodes to gives back the same bytes |
| `Canonical.MessageBytes` | TWTW/Pods/nanopb/pb_encode.c:240-337 | structs that stand for the same message, the first of that kind, are encoded alike, accepted alike, and alike found to be default, field by field |
| `RoundTrip.RunRoundTrip` | TWTW/Pods/nanopb/pb_decode.c:950-1031 | the message loop, run over the encoding of the entries from any position on and then any further bytes, is where it should be behind them: required fields seen, fixed-count run complete, struct as the message says |
| `RoundTrip.ValueRoundTrip` | TWTW/Pods/nanopb/pb_decode.c:1334-1570 | every item decoder inverts its encoder in front of any further bytes, and leaves those |
| `ItemOutcomes.UVarintOutcome` | TWTW/Pods/nanopb/pb_decode.c:1379-1405 | whatever the input, an unsigned field takes exactly the values below 256 to the power of its size, and refuses others instead of cutting them |
| `ItemOutcomes.Varint64Outcome` | TWTW/Pods/nanopb/pb_decode.c:1345-1377 | a signed field of 8 bytes gets the 64-bit number congruent to the varint |
| `ItemOutcomes.VarintOutcome` | TWTW/Pods/nanopb/pb_decode.c:1345-1377 | a smaller one gets the 32-bit number congruent to it, exactly when that lies in its range |
| `ItemOutcomes.SVarintOutcome` | TWTW/Pods/nanopb/pb_decode.c:1407-1428 | a zigzag field takes exactly the numbers in its range |
| `ItemOutcomes.BoolOutcome` | TWTW/Pods/nanopb/pb_decode.c:1345-1377 | a bool is true exactly for values other than 0 |
| `ItemOutcomes.FixedOutcome` | TWTW/Pods/nanopb/pb_decode.c:1430-1445 | 4 or 8 bytes are read when they are there |
| `ItemOutcomes.BytesOutcome` | TWTW/Pods/nanopb/pb_decode.c:1447-1485 | bytes are taken exactly when they and the count of 4 bytes fit, and replace the front of the buffer |
| `ItemOutcomes.StringOutcome` | TWTW/Pods/nanopb/pb_decode.c:1487-1523 | a string is taken exactly when it and a terminator fit, and replaces the front of the buffer |
| `ItemOutcomes.FixedLengthOutcome` | TWTW/Pods/nanopb/pb_decode.c:1549-1570 | fixed-length bytes: zeroed for length 0, taken in full for their own length, refused otherwise |
| `ItemOutcomes.SubmessageOutcome` | TWTW/Pods/nanopb/pb_decode.c:1525-1547 | a submessage is what decoding its payload alone gives, from defaults when repeated |
| `ItemOutcomes.ItemOutcome` | TWTW/Pods/nanopb/pb_decode.c:436-464 | an array takes another item exactly when it is not full |
| `ItemOutcomes.StopExactly` | TWTW/Pods/nanopb/pb_decode.c:952-964 | only a key of 0 ends the loop early |
| `ItemOutcomes.UnknownTurn` | TWTW/Pods/nanopb/pb_decode.c:966-995 | a tag that no entry has is skipped by its wire type |
| `ItemOutcomes.KnownTurn` | TWTW/Pods/nanopb/pb_decode.c:966-1030 | a tag of an entry is decoded into its slot, refused when it begins a fixed-count array while another lacks items, and marks its required index below 64 |
| `ItemOutcomes.RefusedExactly` | TWTW/Pods/nanopb/pb_encode.c:147-236 | the encoder refuses a field exactly for integers of other sizes than 1, 2, 4 and 8 bytes and for counts of bytes or items out of bounds, through submessages |
| `RoundTrip.PackedRoundTrip` | TWTW/Pods/nanopb/pb_decode.c:436-445 | the loop over a packed block decodes the items that were encoded and ends exactly at the block's end |
| `RoundTrip.KeyedRoundTrip` | TWTW/Pods/nanopb/pb_decode.c:454-464 | the turns of the message loop over keys and items of an array of any item type store them one after the other, with the count in the struct or, for fixed-count arrays, outside it |
| `Packing.PackedAndKeyedAlike` | TWTW/Pods/nanopb/pb_decode.c:424-464 | items of a packable type take the message loop from any state, with any bytes behind them, to the same outcome whether they come packed or each behind its own key, also when they do not fit (packed blocks below 2^32 bytes) |
| `Packing.PackedStores` | TWTW/Pods/nanopb/pb_decode.c:436-445 | a packed block stores its items unchanged behind those already there, and fails exactly when they do not fit |
| `Packing.KeyedStores` | TWTW/Pods/nanopb/pb_decode.c:454-464 | so do the same items behind keys of their own |
| `RoundTrip.VarintRoundTrip` | TWTW/Pods/nanopb/pb_encode.c:776-797 | signed 1, 2, 4 and 8 byte fields come back, through the 64-bit sign extension on the wire and the narrowing casts |
| `RoundTrip.UVarintRoundTrip` | TWTW/Pods/nanopb/pb_encode.c:799-815 | unsigned 1, 2, 4 and 8 byte fields come back |
| `RoundTrip.SVarintRoundTrip` | TWTW/Pods/nanopb/pb_encode.c:817-833 | zigzag coded 1, 2, 4 and 8 byte fields come back |
| `RoundTrip.FixedRoundTrip` | TWTW/Pods/nanopb/pb_decode.c:1299-1331 | fixed-width little-endian fields come back |
| `RoundTrip.WindowOfPrefixed` | TWTW/Pods/nanopb/pb_decode.c:372-385 | the substream opened on a length-prefixed string is that string, and the parent continues behind it |
| `RoundTrip.KeyRoundTrip` | TWTW/Pods/nanopb/pb_decode.c:298-319 | a key splits into the tag and wire type it was made from |
| `Varints.EncAtMostTen` | TWTW/Pods/nanopb/pb_encode.c:608-628 | no 64-bit value takes more than ten bytes, so the local buffer is large enough |
| `Varints.Dec64Enc` | TWTW/Pods/nanopb/pb_decode.c:255-275 | the shift-and-or loop of the 64-bit decoder inverts the varint encoder for every 64-bit value and stops behind it |
| `Varints.Dec32Enc` | TWTW/Pods/nanopb/pb_decode.c:187-252 | what the 32-bit decoder makes of every encoded 64-bit value: the value modulo 2^32 exactly when the value is accepted, failure otherwise |
| `Varints.AcceptedBeyond32` | TWTW/Pods/nanopb/pb_decode.c:221-247 | a value of 64 bits that is accepted although it is neither a 32-bit one nor the sign extension of one |
| `Varints.Dec32Word` | TWTW/Pods/nanopb/pb_decode.c:187-247 | every encoded 32-bit value is accepted and comes back |
| `Varints.SignExtendedAccepted` | TWTW/Pods/nanopb/pb_decode.c:221-235 | every sign-extended negative 32-bit value is accepted |
| `Varints.DecodersAgree` | TWTW/Pods/nanopb/pb_decode.c:187-275 | on any bytes on which both decoders succeed they consume the same bytes and agree modulo 2^32 |
| `Varints.ZigZagRoundTrip` | TWTW/Pods/nanopb/pb_decode.c:1285-1297 | zigzag decoding inverts zigzag encoding for every signed 64-bit value, and small magnitudes get small codes |
| `Varints.LittleEndianRoundTrip` | TWTW/Pods/nanopb/pb_encode.c:641-666 | reading little-endian bytes inverts writing them |
| `WireFormat.EncIsShortest` | TWTW/Pods/nanopb/pb_encode.c:608-628 | a varint is the shortest group of bytes, seven bits each and least significant first, that has its value |
| `WireFormat.Dec64OfGroup` | TWTW/Pods/nanopb/pb_decode.c:255-275 | whatever wrote it, a group of up to ten bytes is read as its value modulo 2^64, and a longer one is refused |
| `WireFormat.Dec32OfGroup` | TWTW/Pods/nanopb/pb_decode.c:187-247 | which groups of up to ten bytes the 32-bit decoder reads, also those that are not shortest, and as what: their value modulo 2^32 |
| `WireFormat.Unended` | TWTW/Pods/nanopb/pb_decode.c:255-287 | bytes that all announce another one are neither read nor skipped as a varint |
| `WireFormat.WordBytes` | TWTW/Pods/nanopb/pb_decode.c:1299-1331 | words are written and read with the least significant byte first |
| `WireFormat.FieldBytes` | TWTW/Pods/nanopb/pb_encode.c:669-707 | every byte of a field: nothing for no items; a key of wire type 2, a length and the items for a packable array; otherwise each item behind a key with wire type 0, 1, 2 or 5 by its type |
| `WireFormat.ItemBytes` | TWTW/Pods/nanopb/pb_encode.c:776-910 | every byte of an item, type by type |
| `WireFormat.SkipNumbers` | TWTW/Pods/nanopb/pb_decode.c:321-331 | what is skipped for each of the wire types 0 to 7 |
| `WireFormat.BlockExactly` | TWTW/Pods/nanopb/pb_decode.c:424-464 | an array is read as a packed block exactly for wire type 2 and a packable type |
| `WireFormat.WireTypeIgnored` | TWTW/Pods/nanopb/pb_decode.c:406-483 | the wire type of a field that is not repeated is not looked at |
| `Extend.StepExtend` | TWTW/Pods/nanopb/pb_decode.c:952-1030 | a turn of the loop does not depend on the bytes behind the field it consumes |
| `Extend.RunExtend` | TWTW/Pods/nanopb/pb_decode.c:950-1031 | running over a concatenation is running over the first part and then, from the state reached, over the second |
| `Extend.SlotExtend` | TWTW/Pods/nanopb/pb_decode.c:406-483 | neither does decoding a single field |
| `Merging.MergeExactly` | TWTW/Pods/nanopb/pb_decode.h:70-80 | for every descriptor, two inputs that decode one after the other into the same struct decode to the same when concatenated, unless the first fixed-count array of the second input is the last one of the first and has room for an item; then the concatenation is refused |
| `Turns.Clash` | TWTW/Pods/nanopb/pb_decode.c:997-1019 | behind a full fixed-count array, any further bytes that would complete it when empty are refused |
| `Turns.NoClash` | TWTW/Pods/nanopb/pb_decode.c:997-1037 | behind a complete fixed-count array, bytes whose first fixed-count array is another one end as they do in a fresh run |
| `Turns.LastEntered` | TWTW/Pods/nanopb/pb_decode.c:1003-1016 | a run ends in the fixed-count run of the last such field it read |
| `Merging.MergeWithoutFixedCount` | TWTW/Pods/nanopb/pb_decode.h:70-80 | without fixed-count fields in the descriptor, decoding the concatenation of two inputs is decoding one and then the other into the same struct |
| `Merging.FixedCountDoesNotMerge` | TWTW/Pods/nanopb/pb_decode.c:997-1037 | a concrete clash: an input that decodes alone, but not twice in a row |
| `LastOneWins.EmbeddedMerge` | TWTW/Pods/nanopb/pb_decode.c:1525-1547 | in the middle of any message, a field with an embedded message that comes twice has the effect of one with both payloads in one, or that one is refused, exactly when the payloads' fixed-count arrays clash |
| `LastOneWins.PayloadsMerge` | TWTW/Pods/nanopb/pb_decode.c:1525-1547 | the same for the item decoder, with any bytes behind |
| `LastOneWins.LastValueWins` | TWTW/Pods/nanopb/pb_decode.c:1334-1570 | apart from submessages, whether an item decodes, what it stands for and what is left of the input do not depend on what the item held before |
| `LastOneWins.LastScalarWins` | TWTW/Pods/nanopb/pb_decode.c:406-423 | of two integers, bools or fixed-length items for one field only the later one counts, wherever they come |
| `LastOneWins.LastMemberWins` | TWTW/Pods/nanopb/pb_decode.c:466-478 | of two members of a union only the later one counts, whatever their types |
| `Merging.UnknownTransparent` | TWTW/Pods/nanopb/pb_decode.c:966-995 | a complete field with an unknown tag, put at any boundary between fields and also inside a fixed-count run, changes neither the outcome nor the decoded struct |
| `Merging.UnknownForms` | TWTW/Pods/nanopb/pb_decode.c:321-331 | fields of wire types 0, 1, 2 and 5 as any encoder prints them are such fields |
| `Framing.DelimitedRoundTrip` | TWTW/Pods/nanopb/pb_decode.c:1113-1126 | a length-delimited message is recovered and the cursor left exactly behind it |
| `Framing.DelimitedExactly` | TWTW/Pods/nanopb/pb_decode.c:1113-1126 | whatever the payload, a delimited message is what decoding the payload alone gives, with the cursor behind it |
| `Framing.NullTerminatedRoundTrip` | TWTW/Pods/nanopb/pb_decode.c:1128-1132 | so is a null-terminated one |
| `Framing.FramesRoundTrip` | TWTW/Pods/nanopb/pb_encode.c:552-555 | a concatenated list of frames of either kind decodes one by one to the list that was encoded |
| `Freshness.DefaultMessage` | TWTW/Pods/nanopb/pb_encode.c:240-337 | when every field of a struct is found to be default, recursively, the struct stands for the same message as one set to defaults: leaving it out loses nothing |
| `Freshness.DefaultSingular` | TWTW/Pods/nanopb/pb_encode.c:269-336 | the same for one proto3 singular field |
| `Omission.DefaultExactly` | TWTW/Pods/nanopb/pb_encode.c:240-337 | a field is found to be default exactly when nothing is in it: no required field, present optional, counted item, fixed-count array, set union, or proto3 value other than zero, recursively |
| `Omission.LeftOutExactly` | TWTW/Pods/nanopb/pb_encode.c:341-426 | a field puts out no bytes exactly when nothing is in it, it is an empty array or its union holds another member |
| `Omission.SingularLeftOut` | TWTW/Pods/nanopb/pb_encode.c:269-336 | a proto3 field that is no submessage is left out exactly when it stands for zero; fixed-length bytes are always put out, unless of length 0 |
| `Freshness.DefaultsAreFresh` | TWTW/Pods/nanopb/pb_decode.c:845-928 | setting to defaults leaves no optional present, no item counted and no union member set, in any struct |
| `Freshness.FreshMemberIsFresh` | TWTW/Pods/nanopb/pb_decode.c:466-478 | a union member that was not set before is decoded into a struct as fresh as that |
| `Shapes.DecodeShaped` | TWTW/Pods/nanopb/pb_decode.c:934-1082 | whatever the bytes, successful decoding leaves a struct of the descriptor's C types: buffer sizes and integer ranges (the bounds of counts and lengths are in `Bounds`) |
| `Shapes.ValueShaped` | TWTW/Pods/nanopb/pb_decode.c:1334-1570 | so does every item decoder |
| `FieldIterator.FieldIter.constructor` | TWTW/Pods/nanopb/pb_common.c:8-27 | a new iterator is at entry 0 with the offsets and required index of entry 0 |
| `FieldIterator.FieldIter.Begin` | TWTW/Pods/nanopb/pb_common.c:8-27 | the same for a restarted one, on any descriptor |
| `FieldIterator.FieldIter.Next` | TWTW/Pods/nanopb/pb_common.c:29-85 | the running data offset, size offset and required index stay equal to the fold over the entries before the new position, through wraps, unions and static arrays |
| `FieldIterator.FieldIter.Find` | TWTW/Pods/nanopb/pb_common.c:87-104 | the wrapping search ends; it succeeds exactly when an entry has the tag, is then at such an entry, and otherwise is back where it started; on an empty descriptor it finds the terminator for tag 0 |
| `FieldIterator.FoundIsFindTag` | TWTW/Pods/nanopb/pb_common.c:87-104 | with distinct tags the entry found does not depend on where the search began |
| `FieldIterator.UnionShares` | TWTW/Pods/nanopb/pb_common.c:53-59 | all members of a union get the data and size offsets of its first member |
| `FieldIterator.LayoutFound` | TWTW/Pods/nanopb/pb.h:395-409 | from the offsets the descriptor macros make of a struct the iterator finds the address of every member and of its count, has_ or which_ word |
| `FieldIterator.Ordered` | TWTW/Pods/nanopb/pb_common.c:49-84 | data of different slots do not overlap, an entry's whole footprint ending before a later slot begins; for a union member, when the entry behind the union leaves room for it |
| `FieldIterator.ZeroCountStore` | TWTW/Pods/nanopb/pb_decode.c:872-878 | the zero count stored over a fixed-count array stays inside its items exactly when they take up 4 bytes, and reaches no later entry of the struct exactly when there is padding enough behind them |
| `RequiredFields.Record` | TWTW/Pods/nanopb/pb_decode.c:1021-1026 | setting one bit in the 32-bit words adds exactly that required field to the set recorded |
| `RequiredFields.TestIsExact` | TWTW/Pods/nanopb/pb_decode.c:1060-1078 | the whole-word and partial-word tests pass if and only if every required field below the count is recorded |
| `RequiredFields.LowMaskIsOnes` | TWTW/Pods/nanopb/pb_decode.c:1069-1077 | the mask for the last word, all ones shifted right, has exactly the low bits set |
| `RequiredFields.CheckRequired` | TWTW/Pods/nanopb/pb_decode.c:1039-1079 | from whatever position the iterator ended at, the check after the loop passes if and only if each of the first 64 required fields was seen |
| `Turns.RequiredExactly` | TWTW/Pods/nanopb/pb_decode.c:1021-1079 | of the inputs that can be read and whose last fixed-count array is complete, exactly those decode in which the tag of each required field with fewer than 64 before it is the tag of some field read |
| `Turns.SeenInRun` | TWTW/Pods/nanopb/pb_decode.c:1021-1026 | after any run, the bit of a required entry is set exactly if it was before or the run read a field with its tag |
| `InputStream.IStream.FromBuffer` | TWTW/Pods/nanopb/pb_decode.c:159-181 | the window is the first bytes of the buffer |
| `InputStream.IStream.BufRead` | TWTW/Pods/nanopb/pb_decode.c:87-100 | the cursor moves by the count and the bytes are copied, no others |
| `InputStream.IStream.Read` | TWTW/Pods/nanopb/pb_decode.c:102-137 | succeeds exactly when the window holds enough bytes, delivers those, and keeps cursor plus bytes left at the window's end |
| `InputStream.IStream.ReadByte` | TWTW/Pods/nanopb/pb_decode.c:141-157 | takes the first byte of the window, or fails on an empty one and changes nothing |
| `InputStream.IStream.DecodeVarint` | TWTW/Pods/nanopb/pb_decode.c:255-275 | computes the 64-bit varint function of the window, moves exactly behind what it consumed, and never leaves the window, on failure neither |
| `InputStream.IStream.DecodeVarint32Eof` | TWTW/Pods/nanopb/pb_decode.c:187-247 | the same for the 32-bit varint, with an 8-bit shift counter; end of input is reported exactly for an empty window |
| `InputStream.IStream.SkipVarintBytes` | TWTW/Pods/nanopb/pb_decode.c:278-287 | skips one varint, or fails at the end of the window |
| `InputStream.IStream.SkipString` | TWTW/Pods/nanopb/pb_decode.c:289-296 | skips a length and as many bytes |
| `InputStream.IStream.DecodeTag` | TWTW/Pods/nanopb/pb_decode.c:298-319 | reads a key; a zero key is reported as end of input |
| `InputStream.IStream.SkipField` | TWTW/Pods/nanopb/pb_decode.c:321-331 | skips the payload of the wire types 0, 1, 2 and 5 and fails for others |
| `InputStream.IStream.MakeSubstream` | TWTW/Pods/nanopb/pb_decode.c:372-385 | the substream's window is the announced bytes; the parent gives up exactly so many |
| `InputStream.IStream.CloseSubstream` | TWTW/Pods/nanopb/pb_decode.c:387-400 | whatever the substream has left is passed over, and the parent resumes at the substream's end |
| `InputStream.ClosedWindow` | TWTW/Pods/nanopb/pb_decode.c:372-400 | opening and closing a substream advances the parent by exactly the prefix and the announced length |
| `Decoder.DecInt` | TWTW/Pods/nanopb/pb_decode.c:1345-1428 | the three varint item decoders compute the item function, with failure exactly when a value does not survive the cast to the field's size |
| `Decoder.DecFixed` | TWTW/Pods/nanopb/pb_decode.c:1430-1445 | the fixed-width item decoders |
| `Decoder.DecBytes` | TWTW/Pods/nanopb/pb_decode.c:1447-1485 | byte arrays: failure exactly when the data and its header do not fit the field |
| `Decoder.DecString` | TWTW/Pods/nanopb/pb_decode.c:1487-1523 | strings: failure exactly when the data and a terminator do not fit, including the 32-bit overflow of the size |
| `Decoder.DecFixedLengthBytes` | TWTW/Pods/nanopb/pb_decode.c:1549-1570 | fixed-length bytes: zeroed for an empty payload, otherwise of exactly the field's size |
| `Decoder.DecSubmessage` | TWTW/Pods/nanopb/pb_decode.c:1525-1547 | a submessage decodes its window only, into fresh slots exactly when repeated, and the parent ends behind it |
| `Decoder.DecodeValue` | TWTW/Pods/nanopb/pb_decode.c:740-766 | every item type is sent to its own decoder |
| `Decoder.DecodeRepeated` | TWTW/Pods/nanopb/pb_decode.c:424-464 | packed and unpacked items, with overflow of the array refused |
| `Decoder.DecodePackedBlock` | TWTW/Pods/nanopb/pb_decode.c:425-453 | a packed block decodes only if its substream is used up |
| `Decoder.DecodePacked` | TWTW/Pods/nanopb/pb_decode.c:436-445 | the loop over a packed block fills items from the count on until the block or the array ends |
| `Decoder.DecodeStaticField` | TWTW/Pods/nanopb/pb_decode.c:406-483 | required, optional, repeated and oneof fields update their slot, presence flag, count or which word |
| `Decoder.EnterFixedCount` | TWTW/Pods/nanopb/pb_decode.c:997-1019 | a fixed-count run starts only when the run before it is complete |
| `Decoder.RecordRequired` | TWTW/Pods/nanopb/pb_decode.c:1021-1026 | a required field sets its own bit, and only if it is among the first 64 |
| `Decoder.DecodeTurn` | TWTW/Pods/nanopb/pb_decode.c:952-1030 | one turn of the loop is one step of the decoder function: unknown field skipped, zero tag ends, known field stored |
| `Decoder.DecodeLoop` | TWTW/Pods/nanopb/pb_decode.c:950-1031 | the loop computes the run of the decoder function; every turn lowers the bytes left |
| `Decoder.CheckComplete` | TWTW/Pods/nanopb/pb_decode.c:1033-1079 | success needs the last fixed-count run complete and every tracked required field seen |
| `Decoder.DecodeInto` | TWTW/Pods/nanopb/pb_decode.c:934-1082 | decoding without initialisation computes the decoder function of the window, and succeeds exactly when it does |
| `Decoder.DecodeMessage` | TWTW/Pods/nanopb/pb_decode.c:1084-1096 | so does decoding with defaults |
| `Decoder.DecodeDelimitedMessage` | TWTW/Pods/nanopb/pb_decode.c:1113-1126 | and decoding a length-delimited message |
| `OutputStream.OStream.FromBuffer` | TWTW/Pods/nanopb/pb_encode.c:86-101 | an output stream over a buffer starts empty, with the buffer's size as limit |
| `OutputStream.OStream.BufWrite` | TWTW/Pods/nanopb/pb_encode.c:74-84 | the bytes are stored at the cursor and nowhere else |
| `OutputStream.OStream.Write` | TWTW/Pods/nanopb/pb_encode.c:103-124 | succeeds exactly when there is room, and puts out nothing otherwise; a sizing stream only counts; the buffer is otherwise as it was |
| `OutputStream.OStream.EncodeVarint` | TWTW/Pods/nanopb/pb_encode.c:608-628 | puts out the varint of the value, all or nothing |
| `OutputStream.OStream.VarintBytes` | TWTW/Pods/nanopb/pb_encode.c:619-627 | the loop over a ten byte buffer, with the top bit of the last byte cleared, makes the varint |
| `OutputStream.OStream.EncodeSvarint` | TWTW/Pods/nanopb/pb_encode.c:630-639 | puts out the zigzag varint |
| `OutputStream.OStream.EncodeFixed` | TWTW/Pods/nanopb/pb_encode.c:641-666 | puts out 4 or 8 bytes, least significant first |
| `OutputStream.OStream.EncodeTag` | TWTW/Pods/nanopb/pb_encode.c:669-673 | puts out a key |
| `OutputStream.OStream.EncodeString` | TWTW/Pods/nanopb/pb_encode.c:709-715 | puts out a length and the bytes |
| `OutputStream.OStream.Resume` | TWTW/Pods/nanopb/pb_encode.c:743-756 | the parent takes over exactly what the substream wrote |
| `Encoder.CheckProto3Default` | TWTW/Pods/nanopb/pb_encode.c:240-337 | the test for a default value, recursive through submessages, computes the predicate that the omission law is about |
| `Encoder.CheckSubmessageDefault` | TWTW/Pods/nanopb/pb_encode.c:289-308 | a submessage is default exactly when each of its fields is |
| `Encoder.EncInt` | TWTW/Pods/nanopb/pb_encode.c:776-833 | integers of any supported size are sign extended or zigzagged; other sizes fail |
| `Encoder.EncFixed` | TWTW/Pods/nanopb/pb_encode.c:835-850 | fixed-width items |
| `Encoder.EncString` | TWTW/Pods/nanopb/pb_encode.c:852-910 | byte arrays, strings up to their terminator, and fixed-length bytes; an oversized byte count fails |
| `Encoder.StringLength` | TWTW/Pods/nanopb/pb_encode.c:873-897 | the bounded search for the terminator finds the string's length |
| `Encoder.EncodeSubmessage` | TWTW/Pods/nanopb/pb_encode.c:717-765 | sizing pass, length and writing pass put out the prefixed encoding |
| `Encoder.EncodeSecondPass` | TWTW/Pods/nanopb/pb_encode.c:740-764 | the writing pass puts out exactly the number of bytes the sizing pass counted: a changed size is impossible |
| `Encoder.PackedSize` | TWTW/Pods/nanopb/pb_encode.c:169-189 | the multiplication shortcuts and the sizing pass give the length of the packed body |
| `Encoder.FixedWidth` | TWTW/Pods/nanopb/pb_encode.c:170-177 | fixed-width items take 4 or 8 bytes each |
| `Encoder.EncodeItems` | TWTW/Pods/nanopb/pb_encode.c:197-204 | the packed loop puts out the items one after the other |
| `Encoder.EncodeKeyedItems` | TWTW/Pods/nanopb/pb_encode.c:208-233 | the unpacked loop puts out a key before each |
| `Encoder.EncodePackedBody` | TWTW/Pods/nanopb/pb_encode.c:191-204 | length and items of a packed array; a sizing stream is only told the length |
| `Encoder.EncodeArray` | TWTW/Pods/nanopb/pb_encode.c:147-236 | an array of either kind, nothing at all for an empty one |
| `Encoder.EncodeField` | TWTW/Pods/nanopb/pb_encode.c:341-426 | a field is put out exactly when it is required, present, selected, non-default or has items |
| `Encoder.EncodeMessage` | TWTW/Pods/nanopb/pb_encode.c:528-550 | encoding succeeds if and only if every check holds and the bytes fit the room left, and then puts out exactly the encoding |
| `Encoder.GetEncodedSize` | TWTW/Pods/nanopb/pb_encode.c:567-576 | the sizing pass reports exactly the number of bytes the writing pass puts out |
| `Encoder.EncodeNullTerminated` | TWTW/Pods/nanopb/pb_encode.c:557-565 | the encoding and a zero byte |
| `AuthenticationLaws.SlidingWindow` | TWTW/Pods/Alamofire/Source/AuthenticationInterceptor.swift:329-367 | in no run do more than the maximum of refreshes start within any closed interval of the window's length, and none at all for a maximum that is not positive |
| `RefreshDecisions.RefusedExactly` | TWTW/Pods/Alamofire/Source/AuthenticationInterceptor.swift:329-367 | in every run a step that comes to a refresh is refused exactly when a window is set and as many starts as it allows lie in the closed interval of its length that ends then, and then fails just the completion that waits; otherwise the refresh is dispatched and its start noted |
| `RefreshDecisions.NothingElseDecided` | TWTW/Pods/Alamofire/Source/AuthenticationInterceptor.swift:329-352 | no other step dispatches a refresh, notes a start or fails a completion for too many |
| `AuthenticationAnswers.SettledExactly` | TWTW/Pods/Alamofire/Source/AuthenticationInterceptor.swift:249-401 | in every run the answers given or on their way are exactly those some step had the reason for: the current credential when none is being refreshed and none needs to be, no credential, the error of the refresh waited for, too many refreshes, a refresh that succeeded, a request not made with the current credential, or a retry declined |
| `AuthenticationAnswers.StepSettles` | TWTW/Pods/Alamofire/Source/AuthenticationInterceptor.swift:249-401 | the same for each step: what it settles, and that nothing settled is taken back |
| `AuthenticationAnswers.CredentialAfter` | TWTW/Pods/Alamofire/Source/AuthenticationInterceptor.swift:369-370 | only a refresh that succeeds and setting one from outside replace the credential, with the one they bring |
| `AuthenticationLaws.AlwaysSingleFlight` | TWTW/Pods/Alamofire/Source/AuthenticationInterceptor.swift:250-273 | in every run a refresh is marked as under way exactly when one is outstanding, never more than one, and nothing waits while none is |
| `AuthenticationLaws.CompletionsConserved` | TWTW/Pods/Alamofire/Source/AuthenticationInterceptor.swift:249-325 | in every run each completion handed in is in exactly one place, is never answered twice and only in its own way, and has been answered once the system is quiet |
| `AuthenticationLaws.EveryRun` | TWTW/Pods/Alamofire/Source/AuthenticationInterceptor.swift:369-401 | the invariant behind these holds after every run |
| `AuthenticationLaws.StepPlaces` | TWTW/Pods/Alamofire/Source/AuthenticationInterceptor.swift:369-401 | every step only moves completions, also when adapts run again from a success block are queued for another refresh |
| `AuthenticationLaws.StepSingle` | TWTW/Pods/Alamofire/Source/AuthenticationInterceptor.swift:318-352 | every step keeps the single refresh |
| `AuthenticationLaws.StepWindow` | TWTW/Pods/Alamofire/Source/AuthenticationInterceptor.swift:354-367 | every step keeps refreshes spaced, with the two readings of the clock the code makes |
| `AuthenticationLaws.SpacedLimits` | TWTW/Pods/Alamofire/Source/AuthenticationInterceptor.swift:354-367 | start times spaced that way never exceed the maximum in a closed interval |
| `RefreshCredentials.StaleExactly` | TWTW/Pods/Alamofire/Source/AuthenticationInterceptor.swift:306-324 | a step dispatches a refresh from another credential than the current one exactly when it is the critical section of a retry whose credential has been replaced since it was read |
| `RefreshCredentials.DispatchedFrom` | TWTW/Pods/Alamofire/Source/AuthenticationInterceptor.swift:329-352 | every refresh starts from the current credential or, out of a retry, from the one that retry had read |
| `RefreshCredentials.StaleRefreshWasRead` | TWTW/Pods/Alamofire/Source/AuthenticationInterceptor.swift:306-324 | in every run, a refresh not started from the current credential starts from one that its retry read, at an earlier step at which it was the current one |
| `RefreshCredentials.HeldWasRead` | TWTW/Pods/Alamofire/Source/AuthenticationInterceptor.swift:306-316 | in every run, the credential a retry holds was the current one at the step at which it was read |
| `RefreshCredentials.ReplacedOnlyBySetting` | TWTW/Pods/Alamofire/Source/AuthenticationInterceptor.swift:340-351 | while a dispatched refresh waits, only setting a credential from outside replaces the current one |
| `RefreshCredentials.WaitingSince` | TWTW/Pods/Alamofire/Source/AuthenticationInterceptor.swift:329-352 | in every run a waiting refresh was dispatched at some step, and when it starts the current credential is the one of that step or, if any was set from outside since, the last one set |
| `RefreshCredentials.QueuedRefreshGoesStale` | TWTW/Pods/Alamofire/Source/AuthenticationInterceptor.swift:265-270 | a run without any retry after which the dispatched refresh is from a credential that has been replaced |
| `RefreshCredentials.RefreshFromReplacedCredential` | TWTW/Pods/Alamofire/Source/AuthenticationInterceptor.swift:306-324 | a run and a next step that dispatches a refresh from a credential that has been replaced |
| `AuthenticationInterceptorClass.AuthenticationInterceptor.constructor` | TWTW/Pods/Alamofire/Source/AuthenticationInterceptor.swift:240-245 | the initial state |
| `AuthenticationInterceptorClass.AuthenticationInterceptor.Adapt` | TWTW/Pods/Alamofire/Source/AuthenticationInterceptor.swift:249-273 | the critical section of adapt: result and new state, keeping single flight |
| `AuthenticationInterceptorClass.AuthenticationInterceptor.Retry` | TWTW/Pods/Alamofire/Source/AuthenticationInterceptor.swift:318-324 | the critical section of retry, keeping single flight |
| `AuthenticationInterceptorClass.AuthenticationInterceptor.Refresh` | TWTW/Pods/Alamofire/Source/AuthenticationInterceptor.swift:329-352 | an excessive refresh fails all waiting completions, otherwise one refresh is dispatched and timed; single flight holds again |
| `AuthenticationInterceptorClass.AuthenticationInterceptor.StartRefresh` | TWTW/Pods/Alamofire/Source/AuthenticationInterceptor.swift:340-341 | the dispatched block asks the authenticator for the one refresh there is |
| `AuthenticationInterceptorClass.AuthenticationInterceptor.RefreshCompleted` | TWTW/Pods/Alamofire/Source/AuthenticationInterceptor.swift:341-350 | an answer ends the one refresh under way, and nothing waits behind it |
| `AuthenticationInterceptorClass.AuthenticationInterceptor.CheckExcessive` | TWTW/Pods/Alamofire/Source/AuthenticationInterceptor.swift:354-367 | the fold counts the starts within the window |
| `AuthenticationInterceptorClass.AuthenticationInterceptor.HandleSuccess` | TWTW/Pods/Alamofire/Source/AuthenticationInterceptor.swift:369-385 | both waiting queues move into one dispatched block and the credential is replaced |
| `AuthenticationInterceptorClass.AuthenticationInterceptor.HandleFailure` | TWTW/Pods/Alamofire/Source/AuthenticationInterceptor.swift:387-401 | the same without a new credential |
| `SerializerPipelineLaws.FirstRoundInOrder` | TWTW/Pods/Alamofire/Source/Request.swift:514-611 | in every run the first round starts serializers in the order appended, each once and one at a time, however often the request is finished or cancelled; no completion is called before all of them completed, and then exactly theirs are called, in order |
| `SerializerPipelineLaws.LostBetweenCheckAndClear` | TWTW/Pods/Alamofire/Source/Request.swift:569-602 | the first round is what had been appended by the check that nothing is left; it is everything appended exactly when nothing is appended between that check and its clearing |
| `SerializerPipelineLaws.LostInFirstRound` | TWTW/Pods/Alamofire/Source/Request.swift:569-602 | a serializer appended between the two in the first round is never started, and its completion never called, in any later run |
| `SerializerLosses.LostExactly` | TWTW/Pods/Alamofire/Source/Request.swift:534-611 | in every run over any number of rounds, a serializer that was appended is neither started nor still listed exactly when some step of the run cleared the list with it in there unstarted |
| `SerializerLosses.LostForever` | TWTW/Pods/Alamofire/Source/Request.swift:534-611 | in whatever round it was lost, it is never started and its completion never called in any later run |
| `SerializerLosses.NeverCalledExactly` | TWTW/Pods/Alamofire/Source/Request.swift:534-611 | in every run that ends with nothing pending, queued or processed, the completions never called are those of the serializers dropped by a clearing, and no others |
| `RequestFinishes.FinishedExactly` | TWTW/Pods/Alamofire/Source/Request.swift:514-527 | in every run, whenever nothing is running, queued or in flight, the request has finished exactly if its task completed or it was cancelled, while it could be, with no task under way; until then no serializer is started |
| `RequestFinishes.CalledExactly` | TWTW/Pods/Alamofire/Source/Request.swift:670-690 | then a completion has been called exactly if the request was so prompted to finish and no clearing dropped its serializer |
| `RequestFinishes.StateAfter` | TWTW/Pods/Alamofire/Source/Request.swift:534-732 | the state behind every step |
| `RequestFinishes.TransitionsExactly` | TWTW/Pods/Alamofire/Source/Request.swift:50-63 | a state may follow another exactly when they differ, it is not the first, and the other is neither cancelled nor finished; or the other is the first |
| `RequestFinishes.AppendAsksToResume` | TWTW/Pods/Alamofire/Source/Request.swift:546-548 | an append asks for a resume exactly when the request is suspended or was never resumed |
| `SerializerLosses.LostByClearing` | TWTW/Pods/Alamofire/Source/Request.swift:569-592 | what a clearing of any round loses: what is appended between its check and it, and what is listed and unstarted at the check because as many completions as serializers were listed |
| `SerializerLosses.LostBetween` | TWTW/Pods/Alamofire/Source/Request.swift:569-592 | a run that loses a serializer, and the step at which it is appended, between check and clearing |
| `SerializerLosses.LostWithoutRace` | TWTW/Pods/Alamofire/Source/Request.swift:555-592 | a run that loses a serializer, and the step at which it is appended, while no block is being processed and no clearing due |
| `SerializerLosses.CalledAsStarted` | TWTW/Pods/Alamofire/Source/Request.swift:534-611 | in every run each completion is called at most as often as its serializer was started, and exactly as often once all is quiet, so one started twice is called twice |
| `SerializerPipelineLaws.GoneForever` | TWTW/Pods/Alamofire/Source/Request.swift:534-611 | what is appended but neither listed, started nor completed stays so in every later run |
| `SerializerRounds.StartedTwice` | TWTW/Pods/Alamofire/Source/Request.swift:534-550 | a run after the first round in which two appends make the same serializer start twice |
| `SerializerRounds.StartedTwiceExactly` | TWTW/Pods/Alamofire/Source/Request.swift:534-611 | in every run over any number of rounds, a serializer is started twice exactly when some step starts one whose completion is still to come |
| `SerializerRounds.StartedBefore` | TWTW/Pods/Alamofire/Source/Request.swift:555-567 | in every reachable state, the serializer about to be started has been started before exactly when its completion is still to come |
| `SerializerRounds.QuietAppend` | TWTW/Pods/Alamofire/Source/Request.swift:534-550 | a serializer appended after the first round while nothing is pending, queued or processed is started at most once and its completion called at most once, and both exactly once by the time all is quiet again, as long as nothing more is appended and the request is not finished again |
| `SerializerRounds.DrainedRun` | TWTW/Pods/Alamofire/Source/Request.swift:569-592 | whenever nothing is going on after the first round, no serializer and no completion is left behind |
| `SerializerRounds.FinishedRequestReached` | TWTW/Pods/Alamofire/Source/Request.swift:514-527 | a request without serializers finishes in a run of six steps |
| `SerializerPipelineLaws.StateChanges` | TWTW/Pods/Alamofire/Source/Request.swift:50-63 | the state only changes as the transition rule allows, but for an append that resumes a finished request |
| `SerializerPipelineLaws.CancelledForever` | TWTW/Pods/Alamofire/Source/Request.swift:670-690 | once cancelled, a request is cancelled in every later state of every run |
| `SerializerPipeline.StepKeepsInv` | TWTW/Pods/Alamofire/Source/Request.swift:514-611 | every step keeps the order and the single serializer in flight |
| `SerializerPipeline.InvIsConsistent` | TWTW/Pods/Alamofire/Source/Request.swift:81-125 | the invariant contains what each critical section keeps by itself: no completions before finishing, and never more than serializers in the first round |
| `RequestClass.Request.AppendResponseSerializer` | TWTW/Pods/Alamofire/Source/Request.swift:534-550 | the critical section of appending, with the processing and the resume it dispatches |
| `RequestClass.Request.NextResponseSerializer` | TWTW/Pods/Alamofire/Source/Request.swift:555-567 | the next serializer is the one at the number of completions, which before finishing is the first one appended, as there are no completions yet |
| `RequestClass.Request.ClearResponseSerializers` | TWTW/Pods/Alamofire/Source/Request.swift:575-591 | the completions to call and the cleared state |
| `RequestClass.Request.ResponseSerializerDidComplete` | TWTW/Pods/Alamofire/Source/Request.swift:608-611 | one completion more |
| `RequestClass.Request.Cancel` | TWTW/Pods/Alamofire/Source/Request.swift:670-690 | cancelling, with the finish it dispatches when there is no task under way |
| `RequestClass.Request.Resume` | TWTW/Pods/Alamofire/Source/Request.swift:717-732 | resuming |
| `RequestClass.Request.Suspend` | TWTW/Pods/Alamofire/Source/Request.swift:696-711 | suspending |
| `RequestClass.Request.Finish` | TWTW/Pods/Alamofire/Source/Request.swift:514-527 | when nothing else takes the lock meanwhile: a second finish does nothing; the first starts the first serializer appended, with no completion to call, or clears at once |
| `StreamCompletion.CompletionsFollowData` | TWTW/Pods/Alamofire/Source/Request.swift:1406-1420 | in every run the counter is the number of parser runs not yet counted down, completions wait only while it is positive, are let go once each in the order handed in, and all of them when no parser run is left |
| `StreamCompletion.DispatchedAtZero` | TWTW/Pods/Alamofire/Source/ResponseSerialization.swift:1239-1249 | completions are let go only in a step that leaves no parser run outstanding |
| `StreamCompletion.ParsedExactly` | TWTW/Pods/Alamofire/Source/Request.swift:1406-1420 | in every run each parser has run, is running or is dispatched once for every piece of data received since it was there, and for no other |
| `StreamCompletion.StepKeepsInv` | TWTW/Pods/Alamofire/Source/Request.swift:1548-1567 | every step keeps this |
| `StreamCompletion.InvIsConsistent` | TWTW/Pods/Alamofire/Source/Request.swift:1339-1353 | the invariant contains what each critical section keeps by itself: a counter above the runs not begun, and waiting completions only while it is positive |
| `DataStreamRequestClass.DataStreamRequest.ResponseStream` | TWTW/Pods/Alamofire/Source/ResponseSerialization.swift:1145-1160 | a parser more |
| `DataStreamRequestClass.DataStreamRequest.DidReceive` | TWTW/Pods/Alamofire/Source/Request.swift:1406-1420 | the counter goes up by the parsers there are, and one block is dispatched for them |
| `DataStreamRequestClass.DataStreamRequest.StreamCompleted` | TWTW/Pods/Alamofire/Source/Request.swift:1548-1567 | the event is queued exactly when parsers are running |
| `DataStreamRequestClass.DataStreamRequest.UpdateAndCompleteIfPossible` | TWTW/Pods/Alamofire/Source/ResponseSerialization.swift:1239-1249 | counting down to zero lets all waiting events go, in order |
| `MultipartReading.RoundTrip` | TWTW/Pods/Alamofire/Source/MultipartFormData.swift:322-392 | for every boundary, a reader after section 5.1.1 of RFC 2046 recovers the exact list of headers and bodies if and only if there is a part, every header is readable, and in each part the first delimiter from its start on is the one behind it |
| `MultipartReading.RoundTripSeparable` | TWTW/Pods/Alamofire/Source/MultipartFormData.swift:322-392 | for a boundary without a CR the last condition is that no part's headers, body or start of body holds the delimiter |
| `MultipartReading.DelimitedIsSeparable` | TWTW/Pods/Alamofire/Source/MultipartFormData.swift:375-400 | the two conditions on a part are the same for such a boundary |
| `MultipartReading.EncodedIsGlued` | TWTW/Pods/Alamofire/Source/MultipartFormData.swift:64-77 | the encoded form is, behind a line break, its parts with one delimiter before each and the close delimiter |
| `MultipartReading.EncodedLiterally` | TWTW/Pods/Alamofire/Source/MultipartFormData.swift:64-77 | every byte of the encoded form, boundary lines, header lines and bodies |
| `MultipartReading.SeparableIs` | TWTW/Pods/Alamofire/Source/MultipartFormData.swift:375-400 | the delimiter is in a part exactly when it is in the header block, in the body, or made of the blank line and the start of the body |
| `MultipartReading.BoundaryLineInBody` | TWTW/Pods/Alamofire/Source/MultipartFormData.swift:375-400 | a body that starts with a boundary line is lost although neither headers nor body hold the delimiter |
| `MultipartReading.PartRoundTrip` | TWTW/Pods/Alamofire/Source/MultipartFormData.swift:394-400 | the header block and the body of a part are read back |
| `MultipartReading.ReadPartIsContent` | TWTW/Pods/Alamofire/Source/MultipartFormData.swift:394-400 | nothing but the content of a part is read as that part |
| `MultipartReading.RandomBoundaries` | TWTW/Pods/Alamofire/Source/MultipartFormData.swift:57-62 | generated boundaries hold no CR, keep to the 70 characters of RFC 2046, and differ for different draws |
| `MultipartReading.BoundaryNamesDraws` | TWTW/Pods/Alamofire/Source/MultipartFormData.swift:57-62 | they are the fixed prefix and the two draws in eight lower-case hexadecimal digits each |
| `MultipartLaws.AppendedRoundTrip` | TWTW/Pods/Alamofire/Source/MultipartFormData.swift:150-156 | for every boundary a fresh form encodes to the same bytes either way, and these are read back exactly when it has a part and its parts are recoverable |
| `MultipartLaws.BothWaysAgree` | TWTW/Pods/Alamofire/Source/MultipartFormData.swift:402-431 | encoding into memory succeeds exactly when every stream has its declared length, and then writing through a stream gives the same bytes |
| `MultipartLaws.WritesWholeBodies` | TWTW/Pods/Alamofire/Source/MultipartFormData.swift:452-479 | writing through a stream checks no length: whole bodies are written exactly when no stream is longer than declared |
| `MultipartLaws.LongStreamIsCut` | TWTW/Pods/Alamofire/Source/MultipartFormData.swift:424-428 | a stream longer than declared makes one way fail and is cut by the other |
| `MultipartLaws.ContentHeadersReadable` | TWTW/Pods/Alamofire/Source/MultipartFormData.swift:516-524 | headers made from names without a CR can be read back |
| `MultipartLaws.LengthError` | TWTW/Pods/Alamofire/Source/MultipartFormData.swift:424-428 | the first stream of a wrong length is told of, with the length declared for it and its own |
| `ContentDisposition.HeadersReadBack` | TWTW/Pods/Alamofire/Source/MultipartFormData.swift:516-524 | the first header reads back as the name and the file name exactly when neither holds a quote; a second header is there exactly when a type is given, and holds it |
| `ContentDisposition.HeadersDiffer` | TWTW/Pods/Alamofire/Source/MultipartFormData.swift:516-524 | without quotes, different names, file names and types give different headers |
| `ContentDisposition.QuoteIsAmbiguous` | TWTW/Pods/Alamofire/Source/MultipartFormData.swift:516-524 | with one they need not: a name and a pair of name and file name with the same headers |
| `MultipartFormDataClass.MultipartFormData.AppendStream` | TWTW/Pods/Alamofire/Source/MultipartFormData.swift:307-310 | one part more, unmarked, with its stream and declared length |
| `MultipartFormDataClass.MultipartFormData.AppendData` | TWTW/Pods/Alamofire/Source/MultipartFormData.swift:150-156 | data becomes a part with a stream of exactly its length |
| `MultipartFormDataClass.MultipartFormData.SetBodyPartError` | TWTW/Pods/Alamofire/Source/MultipartFormData.swift:542-545 | only the first error is kept |
| `MultipartFormDataClass.MultipartFormData.MarkEnds` | TWTW/Pods/Alamofire/Source/MultipartFormData.swift:329-330 | the first and the last part get their flags and nothing else changes |
| `MultipartFormDataClass.MultipartFormData.EncodeBodyStream` | TWTW/Pods/Alamofire/Source/MultipartFormData.swift:402-431 | whatever number of bytes each read delivers, the result is the whole stream, or an error for a wrong length or a failed read |
| `MultipartFormDataClass.MultipartFormData.EncodeBodyPart` | TWTW/Pods/Alamofire/Source/MultipartFormData.swift:375-392 | a part with its boundaries, headers and body |
| `MultipartFormDataClass.MultipartFormData.Encode` | TWTW/Pods/Alamofire/Source/MultipartFormData.swift:322-338 | the encoded form, or the first part with a wrong length, or a failed read, or the error of a body part |
| `MultipartFormDataClass.MultipartFormData.WriteBuffer` | TWTW/Pods/Alamofire/Source/MultipartFormData.swift:496-512 | whatever part of the buffer each write takes, all of it is written once and in order while there is space |
| `MultipartFormDataClass.MultipartFormData.WriteBodyStream` | TWTW/Pods/Alamofire/Source/MultipartFormData.swift:452-479 | the body up to its declared length is written |
| `MultipartFormDataClass.MultipartFormData.WriteBodyPart` | TWTW/Pods/Alamofire/Source/MultipartFormData.swift:435-450 | a part with its boundaries, headers and clipped body is written |
| `MultipartFormDataClass.MultipartFormData.WriteEncodedData` | TWTW/Pods/Alamofire/Source/MultipartFormData.swift:347-371 | nothing is read or written when there is an error of a body part, a file, a wrong URL or no stream, the first of these being reported; otherwise the form with clipped bodies is written, for any chunks read and any positive partial writes |
| `MultipartFormDataClass.RefusedFirst` | TWTW/Pods/Alamofire/Source/MultipartFormData.swift:347-361 | which of the reasons not to begin is told: each exactly when it applies and none before it does |

## Left out

- Decoder.DecodeInto: the destination struct is a value that is handed in and handed back, not memory written in place, so aliasing between fields is not modelled; the offsets at which fields would be written are (`FieldIterator`).
- Decoder.DecodeStaticField: selecting another member of a union starts from that member's default, not from the other member's bytes reinterpreted; but for submessages, which the source too sets to defaults, what is decoded does not depend on that (`LastOneWins.LastValueWins`).
- Canonical.EncodingIsInjective: asks for `which_` words that are 0 or name a member of their union, as it is false otherwise (`SameBytes.StrayWhichIsEncoded` has structs); `SameBytes.SameBytesExactly` has no such condition.
- Canonical.MessageBytes: asks for the same of the first struct; `SameBytes.SameBytesExactly` does not.
- Canonical.ReencodeIsIdentity: asks for the same, as it is false for the second struct of `SameBytes.StrayWhichIsEncoded`; for input of any kind that decodes, `Unterminated.ReadBackExactly` compares messages instead of bytes.
- MultipartReading.BoundaryLineInBody: shown for boundaries without a CR; `MultipartReading.RoundTrip` covers the others.
- RequestClass.Request.Finish: several critical sections in a row, with nothing in between; `SerializerPipeline` has them as separate steps.
- SerializerPipelineLaws.FirstRoundInOrder: speaks of the first round only, as later rounds can start a serializer twice (`SerializerRounds.StartedTwiceExactly`); retrying a request (`reset`) is not part of this model.
- MultipartFormDataClass.MultipartFormData.AppendStream: no stream object is appended twice.
- AuthenticationLaws.SlidingWindow: the clock does not run backwards and the window is fixed.
- nanopb callbacks, extensions, pointer fields with their allocation and release, which with `PB_ENABLE_MALLOC` includes refusing an unknown `which_` word before another union member is decoded (`pb_release_union_field`), `PB_WITHOUT_64BIT`, `PB_BUFFER_ONLY` and error texts: other builds or function pointers, with the same wire format.
- Stream callbacks other than memory buffers and the sizing stream.
- Descriptors with duplicate tags, and bools that hold neither 0 nor 1.
- Freshness.DefaultsAreFresh: for a fixed-count array the source stores a zero count of 4 bytes where the array has no count, over its first items; the model leaves them as they were. While the array takes up 4 bytes or more this changes nothing but those items (`FieldIterator.ZeroCountStore`), and the round trip holds from any items (`RoundTrip.MessageRoundTrip`); `Bounds` asks that they be in bounds behind the store. A shorter array has what lies behind it overwritten: with a submessage of nothing but a fixed-count `bool[1]`, in an array in front of a `bool`, input that sends the `bool` first loses it in the source and keeps it in the model.
- Decoder.DecodeMessage: the same, as it starts by setting to defaults.
- Bounds.DecodedReadsBack: asks for default values in bounds and terminated, and integers of 1, 2, 4 or 8 bytes, which the generator sees to, and for lengths of 32 bits.
- WireFormat.Dec32OfGroup: groups of up to ten bytes; from 37 bytes on the 8-bit shift counter of the 32-bit decoder wraps around, which `Varints.Dec32` models and no law describes.
- Outputs of 2^64 bytes and more.
- Header text is a sequence of bytes: Unicode, the MIME type lookup and the file checks of `append`.
- Encoding one `MultipartFormData` again after more appends.
- Threads, dispatch queues, `URLSession` and clocks as such: they are steps, queues of blocks and times chosen freely.
- Whether completions the stream counter has let go reach their handlers before more data arrives: the block that hands them on runs later.
- The app's own views, coordinators and network calls, and Alamofire's remaining files: no property of this kind in them.
