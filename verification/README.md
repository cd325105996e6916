# nanopb 0.3.8: a verified model

This project models the Protocol Buffers codec that Shiftgram vendors under `Shiftgram/Pods/nanopb`, and proves what a
user of it relies on: that messages come back, that any input leaves a sound struct, that sizes are exact, that
concatenation merges, and so on. Nothing here was executed; Dafny's verifier is the only judge.

## How it is built

The wire format is a set of pure functions (`wire.dfy`, `format.dfy`) over tables and messages (`descriptor.dfy`). The
laws are lemmas about those functions. The C functions, which work in place, are classes and methods with loops
(`iterator.dfy`, `streams.dfy`, `outstream.dfy`, `encoder.dfy`, `decoder.dfy`), each proved to compute exactly what the
pure functions say, so every law holds of them.

- A table is a sequence of fields, without its all-zero terminator; the cursor treats the place behind the last field
  as that terminator. Submessage tables are nested, so recursion is bounded by the depth of the table, and loops by the
  bytes left.
- A struct is a sequence of slots. Each field has its own slot, except that the members of one union share one.
  `Descriptor.LayoutDisjoint` justifies this from the byte offsets that the cursor computes.
- `Indeterminate` stands for memory whose content the code does not determine: an array item that was counted but not
  written, a union that changed members. `Torn` is a bytes size or a string terminator that was stored over data that
  never arrived.
- `FitsMsg(fields, m, grade)` says that a struct is in order. `Determined`: every live item has a value its C type can
  hold. `Bounded`: strings are terminated and bytes sizes within capacity. `Loose`: counts, which_ members and whatever
  size or terminator was stored are in bounds.
- `LeftMsg` (`failure.dfy`) is the struct that decoding leaves whatever becomes of it; the decoder's methods are proved
  to leave exactly that, and what failures can and cannot do is proved of it.
- `SameMsg` is observational equality. It ignores the data of absent optional fields and of inactive union members;
  array items past the count and string bytes past the NUL are not in the model at all.
- The encoder tests a field without has_ flag for being unset; in a submessage the test reads past has_ flags, counts
  and which_ members, into memory that is not part of the message. What it finds there is a parameter of the encoding
  (`Format.Memory`): a truth value for each place, named by the tags and indexes that lead to it, and the same for both
  passes of the encoder. Every result holds for every such memory.
- Sender and receiver may have different tables. `RoundTrip.SubTable(sub, big)` says that the receiver's `sub` has some
  of the fields of the sender's `big`, at every depth, in any order, and with arrays at least as large. Each table is
  one of its own (`RoundTrip.SubTableReflexive`).
- `RoundTrip.Merged` is the sender's message merged into the receiver's struct, field by field, and
  `Fidelity.Received` is what it becomes in a fresh struct. Decoding is proved equal to the merge
  (`RoundTrip.MessageMerges`), and all round trips follow from that.
- A message is faithful (`Fidelity.FaithfulMsg`) when every field without has_ flag that tests as unset holds what the
  receiver starts from. Tables are loss-free (`Lossless.LossFree`) when that is so for every message, as
  `Lossless.LossFreeIff` shows in both directions.
- What round trips cannot see is stated outright: which bytes are written (`conformance.dfy`, `Wire.VarintForm`), which
  records an input needs (`Order.AcceptedIff`), what a field without a record holds (`Order.NoRecordIsInitial`), what a
  failure leaves item by item (the end of `failure.dfy`), and where in the C struct the pointers stand
  (`Descriptor.OffsetsOfMembers`).
- The pod is built with `PB_FIELD_32BIT` (`Shiftgram/Pods/Target Support Files/nanopb/nanopb.xcconfig:2`).
  `PB_SIZE_MAX` is left open between the three widths that `pb.h:205-215` allows, so nothing depends on that.

What tables must satisfy (`Descriptor.WellFormed`) is what every generated table does, distinct tags from 1 to 2^29 - 1
and sizes that match the types, and one limit of the code: the number of required fields is below 64 and not 32, since
the last word of the bitmap is compared after a shift by 32 minus the remainder. Encodings are taken to be shorter than
2^32 bytes, since lengths are read back as 32-bit varints.

The round trip is not exact for every table. A submessage without has_ flag is left out when it tests as unset, and the
test sees neither a has_ flag over 0 nor an array that starts with 0 (`Edges.PresenceIsLost`). `Fidelity.RoundTripsIff`
says for all tables exactly which messages come back, and `Lossless.LossFreeIff` exactly in which tables all do.

Where the code is more lenient than the format, the model follows the code and states the exact extent: overlong
varints lose bits silently (`Edges.Varint64Exact`, `Edges.Varint32Exact`), a zero tag ends a message
(`Edges.EndMarkStops`), a broken-off tag may pass for an end (`Edges.BrokenTagEnds`), narrow signed fields drop the upper
half of the wire value (`Edges.IntegersAccepted`), an unterminated string is written but not read
(`Edges.TerminatedReadsBack`), the wire type is compared with the field only to choose the packed path
(`Order.WireTypeIgnored`), and on an empty table a tag of 0 finds the terminator
(`Iterator.FieldIter.Search`).

Run `dafny verify dfyconfig.toml` in this directory.

## Model

| member | source | states |
|---|---|---|
| Fidelity.RoundTripsIff | Shiftgram/Pods/nanopb/pb_encode.c:451-473 | For every table (any nesting, required, optional, repeated, packed, oneof, with or without has_ flags and defaults), every fitting message, and whatever undetermined memory reads as: encoding succeeds, decoding those bytes succeeds and uses up exactly them, and the message comes back, observationally, if and only if no field without has_ flag tests as unset while differing from its default. |
| Lossless.LossFreeIff | Shiftgram/Pods/nanopb/pb_encode.c:205-267 | Exactly which pairs of tables lose nothing: every message of the sender is faithful, whatever undetermined memory reads as, if and only if each field without has_ flag, at every depth, either has a fixed-length part that is always written, or has a zero default and holds no has_ flags, no unions and no arrays (with room for an item) that the receiver knows. |
| RoundTrip.MessageMerges | Shiftgram/Pods/nanopb/pb_decode.c:852-953 | Decoding an encoding into any struct, with any table that knows some of the sender's fields, equals merging the message into the struct: it succeeds exactly when the merge does, uses up exactly the bytes, sees every required field, and leaves exactly the merged struct. |
| Projection.EncodingsMerge | Shiftgram/Pods/nanopb/pb_decode.c:852-953 | Decoding two encodings one behind the other gives the second message merged into what is received of the first: the last value wins, arrays append, submessages merge, a union goes over to the later member. It succeeds if and only if every array, at every depth where submessages merge, has room for both. |
| Lossless.RoundTrips | Shiftgram/Pods/nanopb/pb_encode.c:451-473 | In loss-free tables the round trip gives back every fitting message. |
| Invariant.CanonicalisesIff | Shiftgram/Pods/nanopb/pb_decode.c:955-967 | Whatever pb_decode accepts re-encodes, whatever undetermined memory reads as; decoding the result succeeds, uses up its bytes, and gives the same message if and only if that message is faithful. |
| Invariant.Canonicalises | Shiftgram/Pods/nanopb/pb_decode.c:955-967 | In loss-free tables every accepted byte string gives a message that encodes and whose encoding decodes to the same message; in plain tables that one encodes to the same bytes again, even if memory then reads otherwise. |
| Invariant.RecordsDecodeFit | Shiftgram/Pods/nanopb/pb_decode.c:852-917 | Over every input and every fitting starting struct, a successful record run keeps counts within array_size, strings terminated in their buffer, bytes within capacity, and each which_ member 0 or the tag of a member of its union. |
| Invariant.DecodedFits | Shiftgram/Pods/nanopb/pb_decode.c:955-967 | Whatever pb_decode accepts leaves a struct with every live item determined and in the range of its C type. |
| Merge.ConcatenationMerges | Shiftgram/Pods/nanopb/pb_decode.c:852-953 | If a is records to its last byte, decoding a ++ b into a struct is decoding a into it and then b into the result, when both are complete. |
| Merge.ConcatenationAccepted | Shiftgram/Pods/nanopb/pb_decode.c:908-950 | a ++ b is accepted exactly when the records of b decode behind those of a and together they have every required field. |
| Merge.RunsCompose | Shiftgram/Pods/nanopb/pb_decode.c:863-917 | A record run over a ++ b is the run over b from where the run over a got to: struct, fields seen and outcome. |
| Order.OrderIsIrrelevant | Shiftgram/Pods/nanopb/pb_decode.c:863-917 | Reordering records, with the relative order kept for records of one field or one union, and unknown records added or dropped, changes neither acceptance nor the struct nor what is left unread. |
| Order.RunIsProduct | Shiftgram/Pods/nanopb/pb_decode.c:356-429 | A run over records succeeds exactly when each slot's own sequence of records does, and leaves in each slot the result of that sequence alone. |
| Order.AcceptedIff | Shiftgram/Pods/nanopb/pb_decode.c:852-950 | For records in a table with distinct tags, pb_decode_noinit accepts exactly when every slot's own records can be stored and each required field's tag is the tag of some record. |
| Order.AcceptedInside | Shiftgram/Pods/nanopb/pb_decode.c:1334-1356 | And so each submessage by itself: required fields that another piece of it has do not count. |
| Order.NoRecordIsInitial | Shiftgram/Pods/nanopb/pb_decode.c:955-967 | After pb_decode a field without a record holds its explicit default, or where it has none 0, the empty string or bytes, or data_size zero bytes; no has_ flag, no items, no union member; submessages likewise at every depth. |
| Order.NoRecordInside | Shiftgram/Pods/nanopb/pb_decode.c:1334-1356 | The same inside a submessage: for the first record of a required or optional one, and for every array item and union member. |
| Order.NoRecordKeeps | Shiftgram/Pods/nanopb/pb_decode.c:852-953 | Decoding into any struct, a field none of whose union has a record keeps what it holds. |
| Order.WireTypeIgnored | Shiftgram/Pods/nanopb/pb_decode.c:356-429 | The wire type of a record for a known field only tells packed records of a packable array from single items; otherwise any wire type does. |
| Packing.PackedAgreesWithSingles | Shiftgram/Pods/nanopb/pb_decode.c:374-413 | A packed record of items and one record for each of them are accepted alike, and leave the same array, count and remaining input, whatever the array held and whatever follows. |
| Packing.AppendItemsSucceeds | Shiftgram/Pods/nanopb/pb_decode.c:383-413 | Appending items is rejected exactly when one of them does not decode or the total would pass array_size; otherwise the array is the old items and then the new ones, in order. |
| Conformance.PackedOnWire | Shiftgram/Pods/nanopb/pb_encode.c:129-171 | Whatever follows, a reader finds a non-empty array of a packable type as one record with the field's tag and wire type 2, whose payload is the items' own bytes in order, without tags. |
| Conformance.UnpackedOnWire | Shiftgram/Pods/nanopb/pb_encode.c:172-197 | Any other array is one record for each item, in order. |
| Conformance.NumbersCompatible | Shiftgram/Pods/nanopb/pb_encode.c:652-704 | int32, int64, uint32, uint64 and bool fields of any widths read each other's values, as long as the value is one of both, and so do sint32 and sint64; so a negative int32 is written with 64 bits. |
| Conformance.EncodesIff | Shiftgram/Pods/nanopb/pb_encode.c:451-473 | Encoding, with room, fails exactly when an array that is written is longer than array_size or a bytes field longer than its buffer, at whatever depth. |
| Conformance.WrittenIff | Shiftgram/Pods/nanopb/pb_encode.c:271-349 | Nothing is written for a field exactly when its has_ flag is off, it has none and tests as unset, its array is empty, or its union is on another member. |
| Projection.ProjectionDecodes | Shiftgram/Pods/nanopb/pb_decode.c:877-906 | With loss-free tables that is every message. |
| Projection.ProjectionDecodesIff | Shiftgram/Pods/nanopb/pb_decode.c:877-906 | A receiver whose table has only some of the sender's fields, at every depth and in any order, with larger arrays if need be, accepts every message of the sender's table, uses up its bytes, and holds for each field it knows what the sender's message has, if and only if that part of the message is faithful. |
| Projection.DelimitedRoundTrip | Shiftgram/Pods/nanopb/pb_decode.c:969-982 | In loss-free tables every message of the list comes back. |
| Projection.DelimitedRoundTripIff | Shiftgram/Pods/nanopb/pb_decode.c:969-982 | Any list of messages written one behind the other with a length in front is read back in order, with any smaller table; the stream then stands exactly behind the last one, and each message is the one sent, in every field the receiver knows, if and only if it is faithful. |
| Edges.PiecesMerge | Shiftgram/Pods/nanopb/pb_decode.c:1334-1356 | A required or optional submessage in two records equals one record with both payloads, whatever follows, if and only if, whenever the payloads have every required field together, each has them by itself; otherwise the pieces are rejected. |
| Edges.UnionStartsOver | Shiftgram/Pods/nanopb/pb_decode.c:415-424 | A submessage member of a union is reset by each record: an earlier record for it leaves no trace. |
| Failure.LeftIsContained | Shiftgram/Pods/nanopb/pb_decode.c:852-953 | Over every input, on success and on failure: slots of fields without a record keep their content; and from a struct of any grade (all live items determined; strings terminated and sizes in bounds; neither) one of that grade is left unless the record that broke the run spoils it, and then only that record's slot lacks it. |
| Failure.MsgSpoiltIff | Shiftgram/Pods/nanopb/pb_decode.c:852-953 | The exact condition for the struct to keep its grade, from the bytes and what the failing record's field held. |
| Failure.SpoiltExactly | Shiftgram/Pods/nanopb/pb_decode.c:356-429 | For numbers, strings and bytes: a string is left unterminated, or a bytes size out of bounds, if and only if the record goes to a fresh array item or to a union on another member and its length does not arrive or is too large, since count and which_ are raised before; an item is left undetermined if and only if its data does not arrive at a fresh place, or a bytes size grows over data that does not arrive. |
| Failure.SpoiltInside | Shiftgram/Pods/nanopb/pb_decode.c:1334-1356 | For submessages: spoilt from inside only, or, for a new array item, when its length does not arrive or is too large. |
| Failure.CountBeforeItem | Shiftgram/Pods/nanopb/pb_decode.c:411-412 | The single byte 0x0A for a repeated string leaves a count of 1 over memory that nothing wrote. |
| Failure.MarkedFirst | Shiftgram/Pods/nanopb/pb_decode.c:356-429 | has_ flag, count and which_ member are set whether the item then arrives or not, and earlier items stay; a packed record whose frame does not arrive changes nothing. |
| Failure.NumberLeft | Shiftgram/Pods/nanopb/pb_decode.c:1165-1248 | A number that is read is stored, cast to its field's type, also when it is then rejected; one that breaks off leaves the field alone. |
| Failure.CutShort | Shiftgram/Pods/nanopb/pb_decode.c:1262-1332 | A string or bytes field whose data breaks off holds what it held, cut at the new terminator or size. |
| Failure.LeftAlone | Shiftgram/Pods/nanopb/pb_decode.c:1132-1379 | What does not arrive, or is too large, before anything is stored leaves the field alone. |
| Failure.MemberReset | Shiftgram/Pods/nanopb/pb_decode.c:415-424 | A submessage member of a union is initialised even if its length then does not arrive. |
| Failure.PackedKeeps | Shiftgram/Pods/nanopb/pb_decode.c:383-402 | A packed payload keeps the items in front of the one that breaks it. |
| Failure.PackedStops | Shiftgram/Pods/nanopb/pb_decode.c:383-402 | And nothing from that one on. |
| Failure.LeftComposes | Shiftgram/Pods/nanopb/pb_decode.c:863-917 | What complete records have left stays, whatever becomes of the bytes behind them. |
| Failure.LeftFits | Shiftgram/Pods/nanopb/pb_decode.c:356-429 | Over every input, on success and on failure: counts stay within array_size, which_ members are 0 or a member's tag, and every size or terminator that is stored lies within its buffer. |
| Failure.LeftMsgNearly | Shiftgram/Pods/nanopb/pb_decode.c:852-953 | Damage is confined to one place at each depth: one slot, of an array its last item, in a submessage again one slot. |
| Failure.OthersKept | Shiftgram/Pods/nanopb/pb_decode.c:863-917 | Slots of fields without a record stay as they were, on failure too. |
| Failure.DeterminedStays | Shiftgram/Pods/nanopb/pb_decode.c:1165-1379 | A determined number, string or fixed-length value stays determined whatever happens. |
| Failure.MsgAgrees | Shiftgram/Pods/nanopb/pb_decode.c:863-917 | What each record leaves, put together over a run, is on success the struct that the format decodes. |
| Failure.RecordAgrees | Shiftgram/Pods/nanopb/pb_decode.c:877-906 | For one record, whatever its rule and type: what it leaves is on success what it decodes to. |
| Edges.BoxedIsLost | Shiftgram/Pods/nanopb/pb_encode.c:225-263 | A submessage without has_ flag that holds one field is left out if and only if that field reads as unset, and then the message is faithful if and only if the field's slot is its default. |
| Edges.FreshIsFaithful | Shiftgram/Pods/nanopb/pb_encode.c:205-267 | A freshly initialised struct is faithful in every table, whatever undetermined memory reads as: an empty array in a submessage without has_ flag may or may not be written, but either form decodes to the same message. |
| Decoder.DecodeNoinitInto | Shiftgram/Pods/nanopb/pb_decode.c:852-953 | In place, over every input: it succeeds exactly when the record run does and has seen every required field, with that remaining input; the end of the input stays where it was; the struct is, on success and on failure, exactly the one that LeftMsg gives, with slots without a record as before and damage contained as in Failure.LeftIsContained. |
| Decoder.DecodeInto | Shiftgram/Pods/nanopb/pb_decode.c:955-967 | The same for pb_decode, from any contents of the struct, which starts from defaults; on success no live item is undetermined. |
| Decoder.DecodeDelimitedInto | Shiftgram/Pods/nanopb/pb_decode.c:969-982 | Exactly the length-prefixed message, and the parent stream behind all its bytes; on failure the struct that the payload leaves, and without a complete frame an untouched one. |
| Decoder.DecSubmessage | Shiftgram/Pods/nanopb/pb_decode.c:1334-1356 | Succeeds exactly when prefix and payload are there and the payload decodes; then the parent is advanced past exactly both, also when the submessage met an end mark early; on failure the submessage is exactly what its payload leaves. |
| Decoder.DecodeChild | Shiftgram/Pods/nanopb/pb_decode.c:1344-1350 | New array entries start from defaults, others from what they hold; on failure the submessage is what the payload leaves. |
| Decoder.DecodePackedInto | Shiftgram/Pods/nanopb/pb_decode.c:374-402 | The item loop equals the recursive description of a packed payload, rejects an item without room, never touches the items already there, and on failure keeps exactly the items before the failing one. |
| Decoder.DecodeSlotInto | Shiftgram/Pods/nanopb/pb_decode.c:356-429 | For each repetition rule, success, result, and what a failure leaves; has_ is set, items are only appended and which_ is the field's tag, on failure too. |
| Decoder.DecodeSingular | Shiftgram/Pods/nanopb/pb_decode.c:366-372 | Required and optional fields: has_ is set before the item is read. |
| Decoder.DecodeRepeated | Shiftgram/Pods/nanopb/pb_decode.c:374-413 | A packed record or one more item; the count is raised before the item is read, and items already there stay. |
| Decoder.DecodeMember | Shiftgram/Pods/nanopb/pb_decode.c:415-424 | which_ is set before the item is read; a submessage starts over. |
| Decoder.DecodeField | Shiftgram/Pods/nanopb/pb_decode.c:356-429 | Only the slot of the field at the cursor changes, and it changes as the format says, or as a failure leaves it. |
| Decoder.DecodeBody | Shiftgram/Pods/nanopb/pb_decode.c:877-916 | One record: search, mark, decode, or skip; the bitmap then stands for the required fields seen so far, and on failure only the record's own slot has changed. |
| Decoder.DecodeOne | Shiftgram/Pods/nanopb/pb_decode.c:863-917 | One turn of the loop advances the format's run by exactly one record, or tells its end from an error and leaves the struct that the error leaves. |
| Decoder.DecodeAll | Shiftgram/Pods/nanopb/pb_decode.c:863-917 | The loop computes the format's record run: same acceptance, fields seen and remaining input, and the same struct on success and on failure. |
| Decoder.MarkSeen | Shiftgram/Pods/nanopb/pb_decode.c:908-913 | Or-ing the shifted bit into its word marks exactly the field at the cursor, and nothing for fields that are not required. |
| Decoder.CheckRequired | Shiftgram/Pods/nanopb/pb_decode.c:919-950 | Wherever the cursor stands, walking to the end of the table counts its required fields, and the words are compared with that count. |
| Decoder.SetToDefaults | Shiftgram/Pods/nanopb/pb_decode.c:835-846 | Whatever the struct holds before, afterwards each field holds its explicit default, or zeros, at every depth, with no has_ flag, item or union member. |
| Decoder.FieldSetToDefault | Shiftgram/Pods/nanopb/pb_decode.c:763-833 | Clears has_, count and which_; the value becomes the explicit default if there is one, else zero bytes, or the submessage's own defaults. |
| Decoder.DecItem | Shiftgram/Pods/nanopb/pb_decode.c:58-72 | Dispatch by type: success, value and remaining input as the format says; on failure exactly what the item is left with. |
| Decoder.DecVarint | Shiftgram/Pods/nanopb/pb_decode.c:1165-1200 | Accepts the value exactly when the field's width holds it; a value that is cut is stored all the same, and a broken varint leaves the field alone. |
| Decoder.DecUvarint | Shiftgram/Pods/nanopb/pb_decode.c:1202-1224 | Likewise for unsigned fields. |
| Decoder.DecSvarint | Shiftgram/Pods/nanopb/pb_decode.c:1226-1248 | Likewise for zig-zag fields. |
| Decoder.DecFixed | Shiftgram/Pods/nanopb/pb_decode.c:1132-1163 | Little-endian words of four and eight bytes; a short input leaves the field alone. |
| Decoder.DecBytes | Shiftgram/Pods/nanopb/pb_decode.c:1262-1297 | Rejects what pb_size_t or the buffer cannot hold and then leaves the field alone; when the data runs out the new size, within capacity, stands over the bytes that were there. |
| Decoder.DecString | Shiftgram/Pods/nanopb/pb_decode.c:1299-1332 | Rejects what leaves no room for the terminator and then leaves the field alone; when the data runs out the terminator is stored over the characters that were there. |
| Decoder.DecFixedLengthBytes | Shiftgram/Pods/nanopb/pb_decode.c:1358-1379 | Exactly data_size bytes, or none, which stands for zeros; any failure leaves the field alone. |
| Bitmap.AllMarkedIff | Shiftgram/Pods/nanopb/pb_decode.c:938-949 | For every table with fewer than 64 and not exactly 32 required fields, the test of the two words succeeds if and only if every required field was seen. |
| Bitmap.MarkWord | Shiftgram/Pods/nanopb/pb_decode.c:911-912 | Setting bit index & 31 of word index >> 5 sets the bit of that index in the bitmap and no other. |
| Bitmap.MarkOne | Shiftgram/Pods/nanopb/pb_decode.c:908-913 | Marking one more field keeps the bitmap standing for exactly the required fields seen. |
| Bitmap.OrSetsBit | Shiftgram/Pods/nanopb/pb_decode.c:911-912 | w | (1 << b) on a word's value is setting that bit. |
| Bitmap.RequiredIndex | Shiftgram/Pods/nanopb/pb_common.c:65-70 | Required fields have strictly increasing indexes below their number. |
| Bitmap.ShiftedOnes | Shiftgram/Pods/nanopb/pb_decode.c:948 | allbits >> (32 - n) is n ones. |
| Streams.InStream.Skip | Shiftgram/Pods/nanopb/pb_decode.c:91-123 | The 16-byte loop of a custom stream succeeds if and only if count <= bytes_left and then consumes exactly count bytes, as the single step of a memory stream does. |
| Streams.InStream.Read | Shiftgram/Pods/nanopb/pb_decode.c:112-122 | Succeeds exactly when count bytes are left, delivers and consumes them, and changes nothing otherwise. |
| Streams.InStream.ReadByte | Shiftgram/Pods/nanopb/pb_decode.c:127-143 | The one-byte case. |
| Streams.InStream.DecodeVarint32 | Shiftgram/Pods/nanopb/pb_decode.c:173-207 | The loop over bitpos reads what the bounded scan says, keeps its low 32 bits, and leaves the same rest on failure. |
| Streams.InStream.Multibyte32 | Shiftgram/Pods/nanopb/pb_decode.c:188-204 | The loop over the bytes behind the first reads what the bounded scan says of them. |
| Streams.InStream.DecodeVarint | Shiftgram/Pods/nanopb/pb_decode.c:209-229 | Likewise for 64 bits and ten bytes. |
| Streams.ReadingStep | Shiftgram/Pods/nanopb/pb_decode.c:192-204 | One byte more: the bits already read lie below 2^(7 k) and the new ones are a multiple of it, so or-ing is adding; those beyond the register are lost; all in step with the scan of the remaining bytes. |
| Streams.InStream.DecodeSvarint | Shiftgram/Pods/nanopb/pb_decode.c:1118-1130 | ~(value >> 1) and value >> 1 undo zig-zag. |
| Streams.InStream.DecodeFixed32 | Shiftgram/Pods/nanopb/pb_decode.c:1132-1144 | Four shifted bytes are the little-endian word. |
| Streams.InStream.DecodeFixed64 | Shiftgram/Pods/nanopb/pb_decode.c:1146-1163 | Eight shifted bytes are the little-endian word. |
| Streams.InStream.SkipVarint | Shiftgram/Pods/nanopb/pb_decode.c:231-240 | Skips to the first byte without top bit, however long that takes. |
| Streams.InStream.SkipString | Shiftgram/Pods/nanopb/pb_decode.c:242-249 | Skips exactly the length prefix and its payload. |
| Streams.InStream.SkipField | Shiftgram/Pods/nanopb/pb_decode.c:277-287 | Skips by wire type; every other wire type is an error. |
| Streams.InStream.DecodeTag | Shiftgram/Pods/nanopb/pb_decode.c:251-275 | Tells a tag, an error and an end apart, as the format does, including its two ways of taking an end for granted. |
| Streams.InStream.MakeStringSubstream | Shiftgram/Pods/nanopb/pb_decode.c:322-335 | The child has exactly the payload, the parent keeps exactly what is behind it. |
| Streams.InStream.CloseStringSubstream | Shiftgram/Pods/nanopb/pb_decode.c:337-350 | The parent goes on behind the payload, wherever the child stopped. |
| Iterator.FieldIter.Begin | Shiftgram/Pods/nanopb/pb_common.c:8-18 | On the first field, with the offsets of its members; tells whether there is one. |
| Iterator.FieldIter.Next | Shiftgram/Pods/nanopb/pb_common.c:20-76 | One field on, or back to the first and reported; pData and pSize are the offsets of that field's members in the C struct, and required_field_index its index, however the cursor got there. |
| Iterator.FieldIter.Search | Shiftgram/Pods/nanopb/pb_common.c:78-95 | From any position the search terminates, succeeds if and only if the table has the tag (or the table is empty and the tag 0), and stands on that field; otherwise it is back where it began. |
| Descriptor.LayoutDisjoint | Shiftgram/Pods/nanopb/pb_common.c:39-73 | Fields in different slots occupy disjoint bytes, in table order; members of one union start at the same byte. |
| Descriptor.OffsetsOfMembers | Shiftgram/Pods/nanopb/pb_common.c:39-73 | In a table that the macros of pb.h make for a C struct, the running pointers are the offsets of the member and of its has_ flag, count or which_ member, behind arrays and in unions too. |
| Descriptor.SlotShared | Shiftgram/Pods/nanopb/pb_common.c:45-51 | Two fields share a place only as members of one union. |
| Descriptor.DefaultsAt | Shiftgram/Pods/nanopb/pb_decode.c:763-833 | Each field's slot in an initialised struct is that field's default, also for the later members of a union. |
| Descriptor.DefaultsAreInitial | Shiftgram/Pods/nanopb/pb_decode.c:763-846 | The computed defaults are, at every depth, explicit defaults where there are any, and otherwise zeros, which are written out. |
| Descriptor.DefaultsFit | Shiftgram/Pods/nanopb/pb_decode.c:835-846 | An initialised struct fits its table. |
| Descriptor.FindUnique | Shiftgram/Pods/nanopb/pb_common.c:83-88 | With distinct tags, looking up a field's tag finds that field. |
| Descriptor.SlotUpdateFits | Shiftgram/Pods/nanopb/pb_decode.c:877-906 | Storing a fitting slot for one field, with which_ on it in a union, keeps the struct fitting. |
| Encoder.EncodeStruct | Shiftgram/Pods/nanopb/pb_encode.c:451-473 | Writes exactly the encoding of the message behind what is there, succeeds exactly when it exists and fits, and touches nothing before or behind the stream's window. |
| Encoder.EncodeSubmessage | Shiftgram/Pods/nanopb/pb_encode.c:600-648 | Length and then exactly that many bytes of encoding, by measuring first and writing into a window, or by adding the size when only counting. |
| Encoder.WriteMeasured | Shiftgram/Pods/nanopb/pb_encode.c:626-648 | The second pass into a window of the measured size always succeeds and fills it: the check for a changed size never fires. |
| Encoder.EncodeDelimitedStruct | Shiftgram/Pods/nanopb/pb_encode.c:475-478 | The same as a frame of its own. |
| Encoder.GetEncodedSize | Shiftgram/Pods/nanopb/pb_encode.c:480-489 | Succeeds exactly when the message can be encoded, and returns the exact number of bytes a real encoding has, through every shortcut and at every depth. |
| Encoder.EncodeToBuffer | Shiftgram/Pods/nanopb/pb_encode.c:74-109 | Into n bytes, encoding succeeds if and only if the encoded size is at most n; then the buffer starts with the encoding; the bytes from n on are never touched. |
| Encoder.EncodeFields | Shiftgram/Pods/nanopb/pb_encode.c:451-473 | The do-while loop writes the fields in table order. |
| Encoder.EncodeNext | Shiftgram/Pods/nanopb/pb_encode.c:457-470 | One turn of that loop adds exactly the field at the cursor, or fails as the whole message does. |
| OutStreams.OutStream.Absorb | Shiftgram/Pods/nanopb/pb_encode.c:638-639 | The parent goes on exactly behind what its window wrote, with that much less room; nothing else has changed. |
| Encoder.EncodeField | Shiftgram/Pods/nanopb/pb_encode.c:271-349 | Optional fields by has_ flag or by the unset test, union members by which_, arrays packed where possible. |
| Encoder.EncodeArrayField | Shiftgram/Pods/nanopb/pb_encode.c:116-201 | Empty arrays write nothing, overlong ones fail, packable ones are one record. |
| Encoder.EncodePackedPayload | Shiftgram/Pods/nanopb/pb_encode.c:157-171 | Length and items on a real stream, length and a count on a sizing stream. |
| Encoder.MeasureItems | Shiftgram/Pods/nanopb/pb_encode.c:135-155 | 4 * count, 8 * count and the sizing pass are the exact length of the items. |
| Encoder.PackedSize | Shiftgram/Pods/nanopb/pb_encode.c:136-142 | The closed forms equal the length of the items written. |
| Encoder.CheckUnset | Shiftgram/Pods/nanopb/pb_encode.c:205-267 | The outcome is right for every field and value: determined memory decides where it is read, has_ flags, counts and which_ members are not looked at, and the rest is whatever memory reads as. |
| Encoder.EncodeOne | Shiftgram/Pods/nanopb/pb_encode.c:308-315 | Tag, then item. |
| Encoder.EncodeItem | Shiftgram/Pods/nanopb/pb_encode.c:44-55 | Dispatch by type. |
| Encoder.EncVarint | Shiftgram/Pods/nanopb/pb_encode.c:652-668 | Sign-extended to 64 bits. |
| Conformance.NumberForm | Shiftgram/Pods/nanopb/pb_encode.c:652-704 | The exact bytes of integer records: the tag with wire type 0, then the number itself, plus 2^64 if negative, or folded; a negative number takes ten bytes whatever the field's width. |
| Encoder.EncUvarint | Shiftgram/Pods/nanopb/pb_encode.c:670-686 | Zero-extended. |
| Encoder.EncSvarint | Shiftgram/Pods/nanopb/pb_encode.c:688-704 | Zig-zag of the value. |
| Encoder.EncBytes | Shiftgram/Pods/nanopb/pb_encode.c:718-737 | Fails when the size passes the buffer. |
| Encoder.EncString | Shiftgram/Pods/nanopb/pb_encode.c:739-763 | The measuring loop stops at the NUL or at the end of the buffer. |
| Encoder.EncFixedLengthBytes | Shiftgram/Pods/nanopb/pb_encode.c:773-776 | All of the buffer. |
| Encoder.EncodeString | Shiftgram/Pods/nanopb/pb_encode.c:592-598 | Length, then data. |
| Conformance.PayloadForm | Shiftgram/Pods/nanopb/pb_encode.c:592-648 | Strings, bytes and submessages: the tag with wire type 2, the length, then exactly they themselves. |
| Conformance.FrameForm | Shiftgram/Pods/nanopb/pb_encode.c:475-478 | A delimited message is its length and then its encoding. |
| Encoder.EncodeTag | Shiftgram/Pods/nanopb/pb_encode.c:553-557 | Wire type in the low three bits. |
| Encoder.EncodeTagForField | Shiftgram/Pods/nanopb/pb_encode.c:559-590 | Wire type from the field type. |
| Encoder.EncodeSvarint | Shiftgram/Pods/nanopb/pb_encode.c:516-525 | Shift and complement in 64 bits are zig-zag. |
| Encoder.EncodeFixed32 | Shiftgram/Pods/nanopb/pb_encode.c:527-536 | Four bytes, low first. |
| Encoder.EncodeFixed64 | Shiftgram/Pods/nanopb/pb_encode.c:538-551 | Eight bytes, low first. |
| Conformance.FixedForm | Shiftgram/Pods/nanopb/pb_encode.c:706-716 | Fixed-width records: the tag with wire type 5 or 1, then four or eight bytes that are the value, low byte first. |
| OutStreams.OutStream.Write | Shiftgram/Pods/nanopb/pb_encode.c:91-109 | All of the data or nothing; a sizing stream counts; never past max_size. |
| OutStreams.OutStream.Callback | Shiftgram/Pods/nanopb/pb_encode.c:62-72 | Copies behind what is there and leaves the rest of the buffer alone. |
| OutStreams.OutStream.EncodeVarint | Shiftgram/Pods/nanopb/pb_encode.c:494-514 | Emits the minimal form. |
| OutStreams.FillVarint | Shiftgram/Pods/nanopb/pb_encode.c:505-513 | The loop fills at most ten bytes with exactly the minimal form of any 64-bit value. |
| OutStreams.EmitsChain | Shiftgram/Pods/nanopb/pb_encode.c:91-109 | Writers compose: one behind another appends both outputs, and fails exactly when they do not both fit. |
| Wire.VarintLength | Shiftgram/Pods/nanopb/pb_encode.c:494-514 | k bytes hold exactly the values below 128^k. |
| Wire.VarintForm | Shiftgram/Pods/nanopb/pb_encode.c:494-514 | What is written for v are its seven-bit groups, least significant first, with the top bit on all but the last, and no empty group at the end. |
| Wire.ScanForm | Shiftgram/Pods/nanopb/pb_decode.c:173-229 | What is read is the groups up to the first byte without the top bit, if that is within the bound, whatever follows. |
| Wire.VarintMinimal | Shiftgram/Pods/nanopb/pb_encode.c:494-514 | No input that reads as v is shorter than the form written for v. |
| Wire.VarintFits | Shiftgram/Pods/nanopb/pb_encode.c:494-514 | Ten bytes are enough for 64 bits and five for 32. |
| Wire.ReadInvertsVarint64 | Shiftgram/Pods/nanopb/pb_decode.c:209-229 | The 64-bit reader inverts the writer for every value, in front of anything. |
| Wire.ReadInvertsVarint32 | Shiftgram/Pods/nanopb/pb_decode.c:173-207 | Likewise the 32-bit reader for 32-bit values. |
| Wire.Varint32IsLowHalf | Shiftgram/Pods/nanopb/pb_decode.c:173-229 | Whenever the 32-bit reader succeeds, the 64-bit one consumes the same bytes and agrees on the low 32 bits. |
| Wire.ScanExtends | Shiftgram/Pods/nanopb/pb_decode.c:173-229 | What follows a complete varint changes nothing but the remainder. |
| Wire.ScanInvertsVarint | Shiftgram/Pods/nanopb/pb_decode.c:173-229 | Any reader with room for the form inverts the writer. |
| Wire.ZigZagBijective | Shiftgram/Pods/nanopb/pb_encode.c:516-525 | Zig-zag is a bijection of the 64-bit integers, small magnitudes first. |
| Wire.LittleEndianRoundTrip | Shiftgram/Pods/nanopb/pb_encode.c:527-551 | Words of any width come back. |
| Wire.FromLittleEndianRoundTrip | Shiftgram/Pods/nanopb/pb_decode.c:1132-1163 | And every byte string is the word it reads as. |
| Wire.CastRoundTrip | Shiftgram/Pods/nanopb/pb_encode.c:652-668 | A signed value of 1, 2, 4 or 8 bytes survives the cast to 64 bits and back. |
| Wire.CastTwice | Shiftgram/Pods/nanopb/pb_decode.c:1165-1200 | Casting to 32 bits before a narrower type changes nothing. |
| Format.TakeInverts | Shiftgram/Pods/nanopb/pb_decode.c:322-335 | Reading a payload off the front inverts writing it. |
| Format.TakeExtends | Shiftgram/Pods/nanopb/pb_decode.c:322-335 | What is consumed does not depend on what follows. |
| Format.ReadInvertsTag | Shiftgram/Pods/nanopb/pb_decode.c:251-275 | Reading a tag inverts writing it, for every field number up to 2^29 - 1. |
| Format.SkipInverts | Shiftgram/Pods/nanopb/pb_decode.c:277-287 | Skipping by wire type consumes exactly what any field of that type was written as. |
| RoundTrip.ScalarRoundTrip | Shiftgram/Pods/nanopb/pb_decode.c:1165-1332 | For each width and type, every value the C type holds comes back. |
| RoundTrip.PackedMerges | Shiftgram/Pods/nanopb/pb_decode.c:374-402 | A packed array, decoded into an array that holds some items already, is appended to them while there is room and rejected otherwise. |
| RoundTrip.SlotMerges | Shiftgram/Pods/nanopb/pb_decode.c:356-429 | One field's bytes, whatever its rule, merge what was sent into the receiver's slot, touch no other, and mark the field exactly when something was written. |
| RoundTrip.FieldsMerge | Shiftgram/Pods/nanopb/pb_decode.c:863-917 | The same for the first n fields, in front of anything: the run goes on from the struct merged so far, with the fields seen that were written. |
| RoundTrip.MergeFits | Shiftgram/Pods/nanopb/pb_decode.c:852-917 | Merging into a struct of any grade leaves one of that grade. |
| RoundTrip.RequiredSent | Shiftgram/Pods/nanopb/pb_encode.c:308-315 | Every encoding has all required fields of the receiver. |
| RoundTrip.SubTableReflexive | Shiftgram/Pods/nanopb/pb_common.c:78-95 | Every well-formed table knows its own fields. |
| RoundTrip.FittingEncodes | Shiftgram/Pods/nanopb/pb_encode.c:451-473 | Every fitting message has an encoding, whatever undetermined memory reads as. |
| Fidelity.ReceivedAgreesIff | Shiftgram/Pods/nanopb/pb_encode.c:205-267 | What a receiver holds agrees with what was sent, in every field it knows, if and only if the message is faithful. |
| Fidelity.DecodesIff | Shiftgram/Pods/nanopb/pb_decode.c:955-967 | Decode gives exactly the computed received struct, without observational equality, and no rest. |
| Fidelity.AgreeIsSame | Shiftgram/Pods/nanopb/pb_encode.c:451-473 | With one table on both sides, agreement is observational equality. |
| Fidelity.RoomIff | Shiftgram/Pods/nanopb/pb_decode.c:383-413 | A message can be merged into a struct if and only if every array has room for the items of both. |
| Fidelity.DefaultsHaveRoom | Shiftgram/Pods/nanopb/pb_decode.c:383-413 | A fresh struct has room for any message of a sender whose arrays are no larger. |
| Fidelity.ItemsAppend | Shiftgram/Pods/nanopb/pb_decode.c:374-413 | Merging arrays is rejected exactly when the total would pass array_size; otherwise the array is the old items and then the new ones as received. |
| Fidelity.MergedOwn | Shiftgram/Pods/nanopb/pb_decode.c:356-413 | A field that is in no union becomes what merging its own slot makes of it, whatever else the message has. |
| Fidelity.MergedMember | Shiftgram/Pods/nanopb/pb_encode.c:333-343 | A union ends up on a member the receiver knows if and only if the sender's is on it, and then holds what is received of it. |
| Invariant.SameEncodesSame | Shiftgram/Pods/nanopb/pb_encode.c:451-473 | In plain tables (submessages without has_ flag hold no has_ flags, arrays or unions, unless they cannot be unset) the encoding depends only on what accessors can see, not on undetermined memory. |
| Edges.Varint64Exact | Shiftgram/Pods/nanopb/pb_decode.c:209-229 | The 64-bit reader takes exactly the varints of at most ten bytes, and loses bits exactly when a tenth byte is above 1. |
| Edges.Varint32Exact | Shiftgram/Pods/nanopb/pb_decode.c:173-207 | The 32-bit reader takes exactly the varints of at most five bytes, and loses bits exactly when a fifth byte is above 15. |
| Edges.TagExact | Shiftgram/Pods/nanopb/pb_decode.c:251-275 | A tag of at most five bytes, minimal or not, is the low 32 bits of its number: zero ends the message, otherwise the low three bits are the wire type; a longer one is an error. |
| Edges.IntegersAccepted | Shiftgram/Pods/nanopb/pb_decode.c:1165-1248 | Exactly which wire values each integer field accepts, and what it stores; a signed field of at most 32 bits never looks above bit 31. |
| Edges.PayloadsAccepted | Shiftgram/Pods/nanopb/pb_decode.c:1262-1379 | Exactly which payloads bytes, string and fixed-length fields take and what they hold: a string what comes before its first NUL, an empty fixed-length payload data_size zeros. |
| Edges.TerminatedReadsBack | Shiftgram/Pods/nanopb/pb_decode.c:1319-1326 | A string buffer comes back if and only if it holds a terminator; without one it is written all the same. |
| Edges.EndMarkStops | Shiftgram/Pods/nanopb/pb_decode.c:258-270 | A tag whose low 32 bits are zero, however it is written, ends the message as if the input ended there; the rest stays unread. |
| Edges.EndMarkInside | Shiftgram/Pods/nanopb/pb_decode.c:1334-1356 | In a submessage too, and what is behind it there is dropped. |
| Edges.EndMarkInFrame | Shiftgram/Pods/nanopb/pb_decode.c:969-982 | And in a delimited message: the stream goes on behind the whole frame. |
| Edges.UnknownField | Shiftgram/Pods/nanopb/pb_decode.c:277-287 | A field the table does not have is skipped by its wire type: eight bytes for 1, four for 5; what breaks off and every wire type but 0, 1, 2 and 5 is rejected; in an empty table so is field number 0. |
| Edges.UnknownNumber | Shiftgram/Pods/nanopb/pb_decode.c:231-240 | An unknown varint is skipped to its last byte, also when it is longer than any number. |
| Edges.UnknownPayload | Shiftgram/Pods/nanopb/pb_decode.c:242-249 | An unknown length-delimited field is skipped exactly, and rejected when it breaks off. |
| Edges.BrokenTagEnds | Shiftgram/Pods/nanopb/pb_decode.c:258-263 | An input broken off inside a tag is taken for complete if and only if at most five bytes of the tag are there. |
| Edges.PresenceIsLost | Shiftgram/Pods/nanopb/pb_encode.c:225-263 | A has_ flag over the value 0, and the array [0, 5], inside a submessage without has_ flag are lost, whatever undetermined memory reads as. |
| Edges.StaleIsSeen | Shiftgram/Pods/nanopb/pb_encode.c:205-267 | A stale 5 under a has_ flag that is off makes such a submessage be written, and for an empty array the memory behind its count decides. |

## Left out

- Pointer fields, `pb_release` and everything else under PB_ENABLE_MALLOC: off by default, and they need a model of a failing allocator.
- Callback fields and extensions: foreign function pointers. A stream callback is modelled only as one that delivers the stream's bytes and never fails.
- Error messages, PB_BUFFER_ONLY, PB_OLD_CALLBACK_STYLE and the packing macros: configuration only.
- `pb_istream_from_buffer` and `pb_ostream_from_buffer` beyond what the constructors do.
- Wrap-around of size_t: byte totals are assumed to fit (`Encoder.SizeFits`), as is the sum of a written count and a new one.
- Bytes of the struct as such: a slot holds a value, not its representation, so the byte-by-byte zero test of a number is a comparison with 0, and padding does not exist.
- Memory of a union read through another member than the one written, and content that never arrived: abstracted as `Indeterminate` and `Torn`. An optional submessage that nothing initialised does not occur after initialisation; there the model reports failure.
- Substreams and submessages are separate objects whose state is copied back, as the C code does with stream structs; a submessage is decoded in a struct of its own and stored into its slot, where the C code writes through a pointer into the parent.
- Or-ing bits that do not overlap is written as addition in the varint readers; `Streams.ReadingStep` relates it to the register width.
- The result of the shift by 32 in the required-field test (exactly 32 or 64 and more required fields): undefined in C.
- Lossless.RoundTrips: for loss-free tables, which are exactly those where every message is faithful (`Lossless.LossFreeIff`); `Fidelity.RoundTripsIff` has the exact condition for each message of any table. The same holds of Canonicalises, ProjectionDecodes and DelimitedRoundTrip and their Iff forms.
- Invariant.SameEncodesSame: for plain tables, since elsewhere the bytes may depend on memory that accessors do not see.
- What memory outside the message reads as: any answer for each place is allowed, also combinations that overlapping members of a union would rule out.
- Projection.EncodingsMerge: both messages come from the same sender's table.
- Schema changes other than adding, dropping and reordering fields and enlarging arrays: a field has the same type, rule and item size on both sides (`RoundTrip.SubField`).
- Merge.ConcatenationMerges: asks that both parts are complete; `Merge.ConcatenationAccepted` says when the whole is accepted otherwise.
- Floating point: float and double fields are their 32 and 64 bits.
- Alamofire, the Swift application, Firebase, AWS, gRPC and BoringSSL pods: wrappers and declarations around code that is not here.
