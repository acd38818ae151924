# GOOSE and Sampled Values, modelled and proved

This project models the GOOSE and Sampled Values (SV) wire stack of an IEC 61850 simulation module for ns-3, from the
BER codec at the bottom to the two publisher applications at the top, and proves what holds over all inputs, all
reachable states and all runs. `dafny verify dfyconfig.toml` checks everything.

How the model is organised, bottom up:

- **BER**: `Octets` (big-endian and two's-complement values, buffers), `BerInteger` and `BerIntegerObject` (INTEGER
  contents, in-place compression, the INTEGER object), `BerLength` (length octets and the depth-limited decoder for
  indefinite lengths), `BerGrammar` (the nesting grammar of ITU-T X.690 sections 8.1.2, 8.1.3 and 8.1.5, written without
  reference to the decoder), `BerEncoders` (the encoders that store into a message buffer).
- **Ethernet**: `EthernetFrames` (the header that both publishers write, the frame the HAL makes of it).
- **MMS data**: `MmsValues` (value trees, size pass and encode pass), `DataSets` (the learning and the refreshing parser as
  functions), `DataSetParsers` (their loops), `DataSetRefresh` (when a refresh succeeds, which error it reports, when its
  stores stay inside their buffers), `DataSetTheorems` (that learning and refreshing agree, that learning recovers what was
  encoded).
- **GOOSE**: `GooseMessages`, `GoosePublisher` (the publisher object), `GooseParsing`, `GooseReceiver` (the receiver
  object), `GooseRoundTrip` (publisher to subscriber), `SequenceNumbers` (stNum/sqNum over runs), `GooseScheduler` (the
  retransmission state machine over simulator timers), `Freshness` (scheduler, numbering, wire and subscriber together),
  `GooseApplication` (the application object with its publisher, and what a subscriber sees of its packets).
- **SV**: `TlvSlots` and `SvFrames` (layout and patching), `SvPublisher` (the message that is laid out once and patched in
  place), `SvParsing`, `SvReceiver`, `SvRoundTrip`, `SvBatching`, `SvApplication`.
- **Common parts**: `Timestamps`, `Collation`, `CollationSort`, `ObjectReferences`.

Code that changes things in place is modelled as it is: publishers, receivers, applications, timestamps and INTEGER
objects are classes, message buffers are arrays, list nodes are heap objects, and loops are loops. Each such method is
proved against a function of its inputs or of the old state, and the properties are then proved about those functions.

The main results, each for all inputs, states or runs:

1. A published GOOSE frame reaches the first matching subscriber with every field and value as sent
   (`GooseRoundTrip.FrameRoundTrip`, `DataSetTheorems.LearnEncoded`).
2. The patched SV buffer always equals a fresh encoding of the abstract ASDU list (class invariant of
   `SvPublisher.Publisher`), and the subscriber recovers every ASDU in order (`SvRoundTrip.FrameRoundTrip`).
3. Learning and refreshing a data set agree (`DataSetTheorems.WindowAgree`), and a refresh succeeds exactly when the data
   fit and their stores stay inside the
   tree's buffers (`DataSetRefresh.RefreshExact`).
4. A subscriber never sees its data as invalid while the publisher has budget (`Freshness.AlwaysFresh`, and for the packets
   of the application itself `GooseApplication.ApplicationFresh`), which rests on the scheduler invariant
   (`GooseScheduler.RunInvariant`) and the numbering (`SequenceNumbers.WireNumbers`).
5. The indefinite-length decoder accepts exactly the grammar (`BerGrammar.IndefiniteSizeExact`), and integer compression is
   canonical (`BerInteger.CompressCanonical`).
6. What the SV application measures is what a subscriber application reads, batch by batch (`SvApplication.BatchReceived`).

Where a property one would expect turned out not to hold of the code, the code was kept and the exact condition proved:
length fields at 65535 and above 2^24 (`BerLength.LengthSizeExact`, `BerLength.LengthRoundTrip`), crossover sizes of the
two passes (`MmsValues.PassesAgree`), accepted messages that are written past the end of the publisher's buffer
(`GooseMessages.OverrunExact`, with the messages of `GooseMessages.OverrunExample` and `GooseMessages.WrapExample`), ASDU lists
laid out past the end of theirs (`SvPublisher.SetupOverrunExact`, with `SvPublisher.SetupOverrunExample`), frames that make a
receiver leave its buffer (`GooseRoundTrip.ReceiveBufferExact` and `SvRoundTrip.ReceiveBufferExact`, each with its
`BufferLeft`), subscribers with long references (`GooseParsing.CreatedSubscribes`), bit strings that a refresh writes past
the end of their slot (`DataSetRefresh.StoresInside`, with the window of `DataSetRefresh.OverrunExample`), masked error codes
(`DataSetRefresh.CauseIsMasked`, with the windows of `DataSetRefresh.MaskedExamples`), sqNum wrapping to 1
(`SequenceNumbers.ConsecutiveVerdict`, reached in `SequenceNumbers.WrapRejected`), bursts of 255 messages
(`GooseScheduler.BurstNeverEnds`, reached in `GooseScheduler.EndlessBurst`), frames without VLAN tag
(`GooseRoundTrip.UntaggedIgnored`), the second octet of SmpMod (`SvRoundTrip.SurvivingExact`), times from 2^32 seconds on
(`Timestamps.MsRoundTrip`), and references that do not survive (`ObjectReferences.TextRoundTrip`,
`ObjectReferences.SpecRoundTrip`, `ObjectReferences.BareConstraint`).

Conventions: octets are integers below 256; 16-, 32- and 64-bit widths, wrap-around and truncation are written out,
with the exceptions listed at the end.
Positions are absolute in the receive buffer, where the code passes a pointer to the start of each window. Clock readings,
simulator time, sample values and MAC addresses are parameters.

## Model

| member | source | states |
|---|---|---|
| BerLength.LengthSizeExact | model/libiec61850/src/mms/asn1/ber_encoder.cc:359-370 | the predicted size of a length field equals the size encodeLength writes for every 32-bit length but one: at 65535 the encoder already uses the longer form |
| BerLength.EncodeLength | model/libiec61850/src/mms/asn1/ber_encoder.cc:27-52 | the buffer changes exactly at the written length octets, of which the returned position is the end |
| BerLength.LengthRoundTrip | model/libiec61850/src/mms/asn1/ber_encoder.cc:27-52 | a length written by the encoder is read back unchanged by the decoder if and only if it is below 2^24 |
| BerLength.DecodeAt | model/libiec61850/src/mms/asn1/ber_decode.cc:69-114 | soundness of every accepted length: the position strictly advances and contents end inside the window, for all octets and nesting budgets; recursion decreases on (budget, octets left) |
| BerLength.DecodeLongForm | model/libiec61850/src/mms/asn1/ber_decode.cc:84-99 | the long form yields the big-endian value in 32-bit arithmetic without overflow; the early exit on a partial value never rejects a length that would have fitted |
| BerLength.DecodeLengthRecursive | model/libiec61850/src/mms/asn1/ber_decode.cc:69-114 | the 32-bit loop computes DecodeAt: contents position and length, or -1 |
| BerLength.GetIndefiniteLength | model/libiec61850/src/mms/asn1/ber_decode.cc:30-67 | the measuring loop computes IndefiniteSize with the depth budget reduced by one, or -1 |
| BerLength.DecodeLength | model/libiec61850/src/mms/asn1/ber_decode.cc:116-120 | the entry point, with 50 levels of indefinite length |
| BerGrammar.IndefiniteSizeExact | model/libiec61850/src/mms/asn1/ber_decode.cc:30-67 | the measured span is n if and only if the window starts with a well-formed list of BER values, nested within the budget, closed by its own end-of-contents octets after n octets; the grammar is written independently of the decoder |
| BerInteger.CompressCanonical | model/libiec61850/src/mms/asn1/ber_encoder.cc:192-229 | two non-empty octet strings of any length denote the same integer if and only if they compress to the same octets; the result is minimal (section 8.3.2 of ITU-T X.690), no equivalent string is shorter, and compression is idempotent |
| BerInteger.CompressKeepsValue | model/libiec61850/src/mms/asn1/ber_encoder.cc:192-229 | compression preserves the two's-complement value |
| BerInteger.CompressInteger | model/libiec61850/src/mms/asn1/ber_encoder.cc:192-229 | the in-place loops leave the compressed octets at the front of the array and everything behind them unchanged |
| BerInteger.DecodeUint32 | model/libiec61850/src/mms/asn1/ber_decode.cc:135-147 | the shift-and-add loop yields the big-endian value modulo 2^32 for any number of octets |
| BerInteger.DecodeInt32 | model/libiec61850/src/mms/asn1/ber_decode.cc:149-168 | the sign-extending loop yields the two's-complement value reduced to 32 bits; zero octets yield the sign fill |
| BerInteger.UInt32RoundTrip | model/libiec61850/src/mms/asn1/ber_encoder.cc:231-255 | decodeUint32 undoes encodeUInt32 on every 32-bit value |
| BerInteger.Int32RoundTrip | model/libiec61850/src/mms/asn1/ber_encoder.cc:257-282 | decodeInt32 undoes encodeInt32 on every 32-bit value |
| BerIntegerObject.RevertByteOrder | model/libiec61850/src/mms/asn1/ber_encoder.cc:180-190 | the swapping loop reverses the first size octets in place and no others |
| BerIntegerObject.BerValue.SetIntegerValue | model/libiec61850/src/mms/asn1/ber_integer.cc:28-44 | stores the minimal form of a little-endian native integer if it fits; otherwise fails and keeps the old contents |
| BerIntegerObject.BerValue.SetSigned | model/libiec61850/src/mms/asn1/ber_integer.cc:87-94 | setInt32 (and, with eight octets, setInt64) stores the minimal form or leaves the object as it was |
| BerIntegerObject.BerValue.SetUnsigned | model/libiec61850/src/mms/asn1/ber_integer.cc:142-165 | setUint32 (and, with two octets, setUint16) stores the minimal form with a zero sign octet or leaves the object as it was |
| BerIntegerObject.BerValue.ToUnsigned | model/libiec61850/src/mms/asn1/ber_integer.cc:221-231 | reads the contents modulo 2^32 (or another width) |
| BerIntegerObject.BerValue.ToSigned | model/libiec61850/src/mms/asn1/ber_integer.cc:206-219 | reads the two's-complement value, reduced to the signed range of the width; an object without octets yields the sign fill |
| BerIntegerObject.StoredFits | model/libiec61850/src/mms/asn1/ber_integer.cc:36-43 | the setter's size test succeeds for capacity k if and only if the value is representable in k octets |
| BerIntegerObject.SignedRoundTrip | model/libiec61850/src/mms/asn1/ber_integer.cc:206-219 | a signed getter undoes a signed setter, of the same or another width, on every value both widths can represent |
| BerIntegerObject.UnsignedRoundTrip | model/libiec61850/src/mms/asn1/ber_integer.cc:221-231 | an unsigned getter undoes an unsigned setter on every value both widths can represent |
| BerIntegerObject.Int64IntoInt32 | model/libiec61850/src/mms/asn1/ber_integer.cc:185-192 | a 64-bit value goes into a five-octet object if and only if it fits forty bits |
| BerEncoders.EncodeTL | model/libiec61850/src/mms/asn1/ber_encoder.cc:54-61 | tag and length octets are stored at the position, all other octets stay |
| BerEncoders.EncodeOctetString | model/libiec61850/src/mms/asn1/ber_encoder.cc:113-126 | a complete tag-length-value element is stored at the position, all other octets stay |
| BerEncoders.EncodeUInt32WithTL | model/libiec61850/src/mms/asn1/ber_encoder.cc:284-311 | the element holding the minimal form of the number is stored, via in-place compression of a scratch buffer |
| BerEncoders.EncodeBitString | model/libiec61850/src/mms/asn1/ber_encoder.cc:128-161 | the element is stored with its padding count and with the padding bits of the last octet cleared |
| BerEncoders.EncodeMmsData | model/libiec61850/src/mms/iso_mms/server/mms_access_result.cc:195-314 | the encode pass stores exactly Encode(v) for every value tree, MMS strings included, and all other octets stay |
| BerEncoders.EncodeCollection | model/libiec61850/src/mms/iso_mms/server/mms_access_result.cc:28-92 | arrays and structures announce the size computed by the size pass and are followed by their encoded components |
| MmsValues.EncodedLength | model/libiec61850/src/mms/iso_mms/server/mms_access_result.cc:195-314 | for every value tree the encode pass writes what the size pass promised plus a stated excess |
| MmsValues.PassesAgree | model/libiec61850/src/mms/iso_mms/server/mms_access_result.cc:195-314 | the size of a data set, added up in 32 bits, is what the encode pass writes if and only if the sum does not wrap and no value in the data set, at any depth, sits at a crossover size |
| MmsValues.CrossoverExample | model/libiec61850/src/mms/asn1/ber_encoder.cc:163-178 | a bit string of 1016 bits is sized one octet shorter than it is encoded |
| DataSets.PassesVisitSameElements | model/libiec61850/src/goose/goose_receiver.cc:406-613 | counting and building pass visit the same elements; the build index never passes the slots allocated, and fills them all if and only if no float, binary time or UTC time has an unaccepted width |
| DataSetParsers.ParseAllData | model/libiec61850/src/goose/goose_receiver.cc:129-394 | the refreshing loop, with its recursion into nested windows, computes Refresh; a copy that would leave the buffer of its slot ends it as Overrun |
| DataSetParsers.CountElements | model/libiec61850/src/goose/goose_receiver.cc:406-447 | the counting pass computes Count, or fails on an undecodable length or unknown tag |
| DataSetParsers.BuildElements | model/libiec61850/src/goose/goose_receiver.cc:453-613 | the building pass computes Build |
| DataSetParsers.ParseAllDataUnknownValue | model/libiec61850/src/goose/goose_receiver.cc:396-621 | the learning parser computes Learn, with one slot for each counted element, filled from the front |
| DataSetRefresh.RefreshExact | model/libiec61850/src/goose/goose_receiver.cc:129-394 | parseAllData reports no error if and only if the window is a complete element list that matches the value tree one for one under the acceptance rules of each tag, recursively, and every bit string stored fits its slot; then every slot holds what its own element assigns, and a window that fits but for a bit string overruns |
| DataSetRefresh.CauseIsMasked | model/libiec61850/src/goose/goose_receiver.cc:361-363 | the cause that stops the loop, written without reference to the loop, is the code reported if and only if it is not an undecodable length or an element its slot refuses; those are all reported as an underflow |
| DataSetRefresh.ElementErrorExact | model/libiec61850/src/goose/goose_receiver.cc:160-352 | which of unknown tag, type mismatch, length mismatch and sublevel an element causes |
| DataSetRefresh.MaskedExamples | model/libiec61850/src/goose/goose_receiver.cc:361-363 | a type mismatch and a length mismatch that are reported as an underflow |
| DataSetRefresh.StoresInside | model/libiec61850/src/goose/goose_receiver.cc:207-219 | for a tree with well-sized buffers, data that fit are stored inside the buffers if and only if no bit string announces more than seven padding bits, and otherwise run past one |
| DataSetRefresh.OverrunExample | model/libiec61850/src/goose/goose_receiver.cc:207-219 | an accepted element that writes four octets into a bit string of two |
| DataSetRefresh.KeepsSizes | model/libiec61850/src/goose/goose_receiver.cc:129-394 | a refresh leaves every buffer of a well-sized tree well sized and, strings moved to larger buffers apart, as large as it was; for strings that is as far as their 16-bit capacity field tells, which is negative from 32768 octets on |
| DataSetRefresh.LearnWellSized | model/libiec61850/src/goose/goose_receiver.cc:396-621 | every learned tree has well-sized buffers |
| DataSetTheorems.WindowAgree | model/libiec61850/src/goose/goose_receiver.cc:129-621 | refreshing a learned tree from any window of the same nested shape succeeds and gives exactly the tree that learning that window from scratch gives |
| DataSetTheorems.LearnEncoded | model/libiec61850/src/goose/goose_receiver.cc:396-621 | learning the encoding of a data set gives back every value at every level, and fails if and only if it holds an access error, an MMS string, an empty bit string or an integer of more than eight octets |
| DataSetTheorems.RefreshEncoded | model/libiec61850/src/goose/goose_receiver.cc:129-394 | a subscriber that holds one data set and is sent another of the same layout accepts it and ends up with the received form of the new one |
| GooseMessages.PayloadLength | model/libiec61850/src/goose/goose_publisher.cc:285-409 | the two passes of createGoosePayload agree: the encoded payload has the precomputed size plus the excess of the data set |
| GooseMessages.PayloadAtLeast | model/libiec61850/src/goose/goose_publisher.cc:285-409 | without any bound, the encode pass never writes less than the unwrapped size |
| GooseMessages.OverrunExact | model/libiec61850/src/goose/goose_publisher.cc:288-344 | createGoosePayload, whose sizes are 32-bit sums, accepts a message and then writes past the end of its buffer if and only if the sum wrapped or the room behind it is smaller than the excess of the data set |
| GooseMessages.OverrunFree | model/libiec61850/src/goose/goose_publisher.cc:288-344 | a message overruns no buffer of any size if and only if it is accepted for none, or its size does not wrap and no value in its data set, at any depth, sits at a crossover size |
| GooseMessages.OverrunExample | model/libiec61850/src/goose/goose_publisher.cc:341-344 | a message accepted with 1492 predicted octets, all the room behind a tagged header, of which 1493 are written |
| GooseMessages.WrapExample | model/libiec61850/src/goose/goose_publisher.cc:320-344 | a data set of 2^32 + 4 octets without any excess, of which four octets are predicted: accepted for every buffer of 100 octets or more, and 4 GiB are written |
| EthernetFrames.PrepareBuffer | model/libiec61850/src/goose/goose_publisher.cc:232-262 | the header octets in order, with or without VLAN tag, and the positions of length field and payload; the rest of the buffer stays |
| EthernetFrames.TagControlExact | model/libiec61850/src/goose/goose_publisher.cc:240-252 | the tag holds priority and VLAN in the bits IEEE 802.1Q gives them if and only if they have no more bits than that |
| EthernetFrames.TaggedPacket | model/libiec61850/hal/ethernet/ns3/ethernet.cc:115-126 | with a VLAN tag, header and payload minus fourteen octets are the frame the receivers expect |
| EthernetFrames.UntaggedPacket | model/libiec61850/hal/ethernet/ns3/ethernet.cc:115-126 | without one, the receivers find an EtherType if and only if the length field has its value |
| GoosePublisher.DataSetSize | model/libiec61850/src/goose/goose_publisher.cc:322-337 | the size loop adds up the sizes of all entries in 32 bits |
| GoosePublisher.PduSize | model/libiec61850/src/goose/goose_publisher.cc:288-341 | the additions of the size pass, each kept in 32 bits, give the PDU length modulo 2^32 |
| GoosePublisher.EncodePayload | model/libiec61850/src/goose/goose_publisher.cc:345-409 | the encode pass stores the whole PDU, fields in order, every announced length the one of the size pass, and touches nothing else |
| GoosePublisher.Publisher.constructor | model/libiec61850/src/goose/goose_publisher.cc:197-283 | lays out the Ethernet header from addresses, priority, VLAN and APPID, with or without tag, and starts at stNum 1, sqNum 0 |
| GoosePublisher.Publisher.IncreaseStNum | model/libiec61850/src/goose/goose_publisher.cc:167-183 | stNum advances and skips zero on overflow, sqNum restarts at 0, the timestamp becomes the current time |
| GoosePublisher.Publisher.Reset | model/libiec61850/src/goose/goose_publisher.cc:185-189 | back to stNum 1, sqNum 0 |
| GoosePublisher.Publisher.CreateGoosePayload | model/libiec61850/src/goose/goose_publisher.cc:285-409 | either -1 with nothing written, if the 32-bit size is too large, or exactly the payload behind the header, inside the buffer; asked of the caller is that an accepted message neither wrapped nor lacks room for the excess of its data set, which by OverrunExact is exactly when the code stays inside |
| GoosePublisher.Publisher.Publish | model/libiec61850/src/goose/goose_publisher.cc:411-441 | on success the packet behind the dropped fourteen octets is header, length, reserved words and payload with the old numbers, and sqNum advances; on failure nothing is sent and sqNum stays |
| GooseParsing.FindMatch | model/libiec61850/src/goose/goose_receiver.cc:669-699 | the first subscriber that is an observer or has this reference, in length and in characters, and nobody before it |
| GooseParsing.CreatedSubscribes | model/libiec61850/src/goose/goose_subscriber.cc:39-48 | a new subscriber matches exactly its own reference if that has at most 129 characters, and nothing if it has more |
| GooseReceiver.FindSubscriber | model/libiec61850/src/goose/goose_receiver.cc:669-699 | the walk along the subscriber list computes FindMatch |
| GooseReceiver.Receiver.ScanHeader | model/libiec61850/src/goose/goose_receiver.cc:650-806 | the header loop computes ScanFrom |
| GooseReceiver.Receiver.DeliverTo | model/libiec61850/src/goose/goose_receiver.cc:808-865 | stores the header, learns or refreshes the data set, judges the numbers and restarts the validity timer |
| GooseReceiver.Receiver.ParseGoosePayload | model/libiec61850/src/goose/goose_receiver.cc:623-880 | computes ParsePayload: at most the matching subscriber changes, and a message without a match is ignored |
| GooseReceiver.Receiver.ParseGooseMessage | model/libiec61850/src/goose/goose_receiver.cc:882-980 | frames without the GOOSE EtherType at offset 2 or shorter than 22 octets change nothing, whatever their length field says; every other frame is parsed by ParsePayload |
| GooseReceiver.MessageKeepsTrees | model/libiec61850/src/goose/goose_receiver.cc:808-865 | whatever frame arrives, the data sets of all subscribers keep well-sized buffers |
| GooseRoundTrip.HeaderEffects | model/libiec61850/src/goose/goose_publisher.cc:352-388 | the eleven encoded header fields leave exactly the values of the message in the scan |
| GooseRoundTrip.FrameRoundTrip | model/libiec61850/src/goose/goose_receiver.cc:623-980 | whole-frame round trip: for every message with storable references and every data set below the size limit, the parsed frame gives the first matching subscriber exactly the fields sent, no other subscriber changes, and the data slice is the encoded data set, short of exactly the excess of the size pass |
| GooseRoundTrip.UntaggedIgnored | model/libiec61850/src/goose/goose_receiver.cc:882-911 | without a VLAN tag the receiver looks at a frame if and only if its payload has 34992 octets, which no message has, so every frame is ignored |
| GooseRoundTrip.ReceiveBufferExact | model/libiec61850/src/goose/goose_receiver.cc:911-938 | the octets of the 1518-octet receive buffer are all that is needed to parse a frame with a GOOSE PDU, whatever they are, if and only if the length field is at most 1506 |
| GooseRoundTrip.BufferLeft | model/libiec61850/src/goose/goose_receiver.cc:623-865 | for every greater length field a frame after which the subscriber's timestamp holds what lies behind the buffer, one that just fills the buffer and announces its own length among them |
| SequenceNumbers.WireNumbers | model/libiec61850/src/goose/goose_publisher.cc:418-426 | over every run of publications, state changes and resets the numbers on the wire are those their position prescribes, through any number of wraps |
| SequenceNumbers.ZeroOnlyFirst | model/libiec61850/src/goose/goose_publisher.cc:167-189 | stNum is never 0 on the wire, and sqNum is 0 if and only if the message is the first of its state |
| SequenceNumbers.VerdictExact | model/libiec61850/src/goose/goose_receiver.cc:854-858 | a later message is judged in sequence if and only if the states are not a multiple of 2^32 - 1 apart or sqNum has grown |
| SequenceNumbers.ConsecutiveVerdict | model/libiec61850/src/goose/goose_publisher.cc:423-426 | between consecutive messages of a state the verdict fails if and only if sqNum wraps |
| SequenceNumbers.WrapRejected | model/libiec61850/src/goose/goose_publisher.cc:423-426 | a run of publications that reaches the wrap: sqNum 2^32 - 1 is followed by 1, and the receiver rejects that message |
| SequenceNumbers.LossyDelivery | model/libiec61850/src/goose/goose_receiver.cc:854-863 | any in-order selection of the publications of a reset-free run, consecutive ones within counter range, is judged in sequence throughout |
| SequenceNumbers.Redelivery | model/libiec61850/src/goose/goose_receiver.cc:854-858 | an immediate second delivery of a message is judged out of sequence |
| GooseScheduler.IntervalBound | model/goose-publisher-app.cc:198-213 | no interval of a burst is longer than T0, for any factors between 1 and T0 / T1 |
| GooseScheduler.RoundingHarmless | model/goose-publisher-app.cc:198-213 | the powers of the exact root, each rounded with a relative error of up to 2^-10, are such factors, for every T1 up to T0 and every number of event messages |
| GooseScheduler.StepInvariant | model/goose-publisher-app.cc:142-197 | every timer that fires with budget left keeps the invariant and publishes exactly once |
| GooseScheduler.RunInvariant | model/goose-publisher-app.cc:125-213 | in every reachable state of every run: steady (one Send and the event trigger pending) or burst (one SendEvent pending and no Send), no overdue timer, gaps of at most T0, sent plus budget constant, one publication per step |
| GooseScheduler.BurstExact | model/goose-publisher-app.cc:164-197 | a burst of 1 to 254 messages publishes exactly that many before the one Send that ends it |
| GooseScheduler.BurstNeverEnds | model/goose-publisher-app.cc:168-168 | with 255 event messages no burst ever ends, because the 8-bit counter cannot exceed 255 |
| GooseScheduler.EndlessBurst | model/goose-publisher-app.cc:125-197 | such a burst is reached by the second step of every run whose first event comes before the first retransmission, and lasts as long as the budget |
| GooseScheduler.EndlessConfig | model/goose-publisher-app.cc:198-213 | a configuration for which that happens |
| GooseApplication.AppFits | model/goose-publisher-app.cc:89-122 | every message of the application, whatever its numbers and time, is accepted by the publisher and can be stored by a subscriber, and its two passes agree |
| GooseApplication.Application.constructor | model/goose-publisher-app.cc:81-140 | the started application is in the state Started, with a publisher configured as the code does and nothing sent |
| GooseApplication.Application.Transmit | model/goose-publisher-app.cc:147-152 | a state change and a publication put exactly the next packet of the run on the wire; the packets sent are always those of the log |
| GooseApplication.Application.Send | model/goose-publisher-app.cc:142-162 | the handler computes DoSend on counters and timer slots, and the packets stay those of the log |
| GooseApplication.Application.SendEvent | model/goose-publisher-app.cc:164-197 | the handler computes DoSendEvent, cancelling and rescheduling timers |
| GooseApplication.Application.Run | model/goose-publisher-app.cc:142-197 | running a due timer is one step of the scheduler |
| Freshness.AppNumbers | model/goose-publisher-app.cc:147-152 | the numbers of the application's publications, each preceded by a state change, are those of MessageAt |
| Freshness.FrameDelivered | model/libiec61850/src/goose/goose_receiver.cc:808-865 | one frame of the application brings the target subscriber up to date and leaves all others alone |
| Freshness.DeliveriesUpToDate | model/libiec61850/src/goose/goose_receiver.cc:808-865 | after any number of in-order deliveries the target holds the last message and its data |
| Freshness.AlwaysFresh | model/libiec61850/src/goose/goose_subscriber.cc:67-77 | end to end: with in-order delivery at a constant delay and T0, in milliseconds rounded up, not above timeAllowedToLive, GooseSubscriber_isValid holds at every instant from the first delivery to T0 after the last, through steady phases and bursts, and the data are those last sent |
| Freshness.StaleOtherwise | model/libiec61850/src/goose/goose_subscriber.cc:67-77 | the bound on T0 is exact: with T0, rounded up, above timeAllowedToLive, every run has delays for which GooseSubscriber_isValid fails T0 after the last delivery |
| GooseApplication.ApplicationFresh | model/goose-publisher-app.cc:81-213 | end to end from the packets the application really sends: with T0 up to the 500 ms that the application allows messages to live, a subscriber sees valid data, namely the application's data set, at every instant from the first arrival to T0 after the last |
| GooseApplication.CreatedSubscriberFresh | model/libiec61850/src/goose/goose_subscriber.cc:39-65 | the same from the state in which GooseSubscriber_create leaves a subscriber without a data set |
| SvFrames.AsduLength | model/libiec61850/src/sampled_values/sv_publisher.cc:319-360 | the size pass over an ASDU predicts exactly what is encoded |
| SvFrames.ConcatLength | model/libiec61850/src/sampled_values/sv_publisher.cc:420-446 | the total of the size pass is the length of all encoded ASDUs |
| SvFrames.PatchPayload | model/libiec61850/src/sampled_values/sv_publisher.cc:667-747 | replacing the octets of one field at its position in the payload gives the fresh encoding of the changed ASDU list |
| SvFrames.PositionStable | model/libiec61850/src/sampled_values/sv_publisher.cc:362-418 | a change of counter, synchronization, time or data moves no field of any ASDU |
| SvPublisher.EncodeBlock | model/libiec61850/src/sampled_values/sv_publisher.cc:362-418 | the nine fields are stored in order, reserved octets untouched, and the saved positions are those of the fields in the encoding |
| SvPublisher.LayOut | model/libiec61850/src/sampled_values/sv_publisher.cc:420-470 | the buffer holds the encoding of an ASDU list that represents the settings, and each ASDU knows its field positions |
| SvPublisher.Publisher.constructor | model/libiec61850/src/sampled_values/sv_publisher.cc:88-182 | lays out the Ethernet header from addresses, priority, VLAN and APPID, with or without tag; there are no ASDUs |
| SvPublisher.Publisher.AddASDU | model/libiec61850/src/sampled_values/sv_publisher.cc:293-317 | appends an ASDU with counter limit 65535; after setup it stays outside the message, which is still the fresh encoding of the others |
| SvPublisher.Publisher.Reserve | model/libiec61850/src/sampled_values/sv_publisher.cc:520-576 | returns the index of the reserved octets and grows the data; after setup the message does not change |
| SvPublisher.Publisher.SetupComplete | model/libiec61850/src/sampled_values/sv_publisher.cc:420-477 | establishes, at the first call and at every later one, that the message is the fresh encoding of the abstract ASDU list, header length included |
| SvPublisher.SetupOverrunExact | model/libiec61850/src/sampled_values/sv_publisher.cc:420-477 | setupComplete, which checks nothing, writes past the end of the message buffer if and only if the sizes it adds up, with the APDU header, exceed the room |
| SvPublisher.SetupOverrunExample | model/libiec61850/src/sampled_values/sv_publisher.cc:420-477 | one ASDU with 1500 data octets |
| SvPublisher.Publisher.SetSmpCnt | model/libiec61850/src/sampled_values/sv_publisher.cc:667-674 | keeps the message equal to the fresh encoding of the changed list |
| SvPublisher.Publisher.IncreaseSmpCnt | model/libiec61850/src/sampled_values/sv_publisher.cc:682-689 | the counter advances modulo its limit and the message stays the fresh encoding |
| SvPublisher.Publisher.SetSmpSynch | model/libiec61850/src/sampled_values/sv_publisher.cc:742-747 | the low octet is kept and the message stays the fresh encoding |
| SvPublisher.Publisher.SetRefrTmByTimestamp | model/libiec61850/src/sampled_values/sv_publisher.cc:719-726 | written if the field was enabled before setup, otherwise the message is unchanged; in both cases it stays the fresh encoding |
| SvPublisher.Publisher.SetRefrTmNs | model/libiec61850/src/sampled_values/sv_publisher.cc:697-706 | the time octets change, sub-second precision becomes 20, other quality bits stay |
| SvPublisher.Publisher.SetRefrTm | model/libiec61850/src/sampled_values/sv_publisher.cc:708-717 | the time octets change, sub-second precision becomes 10, other quality bits stay |
| SvPublisher.Publisher.SetData | model/libiec61850/src/sampled_values/sv_publisher.cc:530-641 | typed setters change just their reserved octets of the sample data, and the message stays the fresh encoding |
| SvPublisher.Publisher.SetINT32 | model/libiec61850/src/sampled_values/sv_publisher.cc:546-550 | the big-endian two's-complement octets at the reserved index |
| SvPublisher.Publisher.SetQuality | model/libiec61850/src/sampled_values/sv_publisher.cc:651-659 | two zero octets and the 16-bit quality at the reserved index |
| SvPublisher.Publisher.Configure | model/libiec61850/src/sampled_values/sv_publisher.cc:676-740 | settings changed after setup no longer reach the message |
| SvPublisher.Publisher.Publish | model/libiec61850/src/sampled_values/sv_publisher.cc:479-486 | the packet is header, length field, reserved words and the fresh encoding of the current ASDU list |
| SvRoundTrip.FieldsApart | model/libiec61850/src/sampled_values/sv_publisher.cc:362-477 | all saved positions and reserved data lie inside the payload, and each field ends before any later field of its own or a later ASDU begins |
| SvParsing.FindAppId | model/libiec61850/src/sampled_values/sv_subscriber.cc:431-455 | the first subscriber with this APPID |
| SvReceiver.Receiver.ParseASDU | model/libiec61850/src/sampled_values/sv_subscriber.cc:206-310 | the loop notes the fields, writes the terminators into the buffer and calls the listener once |
| SvReceiver.Receiver.ParseSequenceOfASDU | model/libiec61850/src/sampled_values/sv_subscriber.cc:312-340 | computes ParseSequence on the buffer as the terminators change it |
| SvReceiver.Receiver.ParseSVPayload | model/libiec61850/src/sampled_values/sv_subscriber.cc:342-391 | computes ParsePayload |
| SvReceiver.Receiver.ParseSVMessage | model/libiec61850/src/sampled_values/sv_subscriber.cc:393-467 | serves the first subscriber with the APPID; nothing changes if there is none or if the frame is short or has another EtherType, whatever its length field says |
| SvRoundTrip.TerminatorsOnTags | model/libiec61850/src/sampled_values/sv_subscriber.cc:278-281 | both string terminators fall on the tag octet of a later field |
| SvRoundTrip.TerminatedKeeps | model/libiec61850/src/sampled_values/sv_subscriber.cc:278-281 | so the contents of every field of the ASDU are still in place after the terminators are written |
| SvRoundTrip.AsduParsed | model/libiec61850/src/sampled_values/sv_subscriber.cc:206-310 | an encoded ASDU gives one listener call that reads what was encoded, and nothing outside it changes |
| SvRoundTrip.SurvivingExact | model/libiec61850/src/sampled_values/sv_subscriber.cc:646-652 | everything survives if and only if the strings have no zero octet and smpMod is absent or zero: only the first of its two octets is read |
| SvRoundTrip.FrameRoundTrip | model/libiec61850/src/sampled_values/sv_subscriber.cc:393-467 | whole-frame round trip: for every ASDU list that fits, the first subscriber with the APPID gets one call per ASDU, in order, each with the content encoded |
| SvRoundTrip.ReceiveBufferExact | model/libiec61850/src/sampled_values/sv_subscriber.cc:404-426 | the octets of the 1518-octet receive buffer are all that is touched to parse a frame with an SV PDU, whatever they are, if and only if the length field is at most 1513 |
| SvRoundTrip.BufferLeft | model/libiec61850/src/sampled_values/sv_subscriber.cc:278-281 | for every greater length field a frame whose identifier is terminated behind the buffer, one that just fills the buffer and announces its own length among them |
| SvRoundTrip.SampleRead | model/libiec61850/src/sampled_values/sv_subscriber.cc:668-794 | octets stored at one index read back from there as the number they were made from, and every disjoint range reads as before |
| SvRoundTrip.Int32Sample | model/libiec61850/src/sampled_values/sv_subscriber.cc:690-702 | getINT32 undoes setINT32 on every value |
| SvBatching.RunExact | model/sv-publisher-app.cc:116-156 | over every run: the index stays inside the message, messages sent are the readings taken divided by samplesPerMessage, sent plus budget is constant, the timer lapses exactly when the budget is used up, and message m carries batch m with counter m + 1 modulo 65535 in every ASDU |
| SvApplication.Application.constructor | model/sv-publisher-app.cc:69-104 | a laid-out message of up to eight ASDUs with eight floats and a timestamp each, behind the header of the default communication parameters |
| SvApplication.Application.Measure | model/sv-publisher-app.cc:116-145 | one reading on the patched buffer is one step of the batching model |
| SvApplication.Application.Send | model/sv-publisher-app.cc:147-156 | the frame sent holds the current ASDU list, count and sent change by one |
| SvApplication.SampleFields | model/sv-subscriber-app.cc:75-91 | the floats read at their offsets are those measured, the time at most 60 ns early, modulo 2^32 seconds |
| SvApplication.BatchReceived | model/sv-subscriber-app.cc:75-91 | end to end: whatever message of whatever run is received, the listener is called once per reading of that batch, in order, with that reading and the message number modulo 65535 |
| Timestamps.Timestamp.SetTimeInMilliseconds | model/libiec61850/src/iec61850/common/iec61850_common.cc:372-393 | writes the seven time octets, with the seconds modulo 2^32, and never the quality octet |
| Timestamps.Timestamp.SetTimeInNanoseconds | model/libiec61850/src/iec61850/common/iec61850_common.cc:395-420 | writes the seven time octets, with the seconds modulo 2^32, and never the quality octet |
| Timestamps.SettersAgree | model/libiec61850/src/iec61850/common/iec61850_common.cc:372-420 | a whole number of milliseconds gives the same octets through either setter, although they use different approximations |
| Timestamps.MsRoundTrip | model/libiec61850/src/iec61850/common/iec61850_common.cc:436-458 | getTimeInMs after setTimeInMilliseconds is the identity if and only if the time is below 2^32 seconds, and otherwise reduces it by a multiple of them |
| Timestamps.NsLoss | model/libiec61850/src/iec61850/common/iec61850_common.cc:460-485 | getTimeInNs after setTimeInNanoseconds loses between 0 and 60 ns of every time modulo 2^32 seconds |
| Timestamps.NsMonotone | model/libiec61850/src/iec61850/common/iec61850_common.cc:460-485 | and keeps the order of any two times below 2^32 seconds |
| Timestamps.ReadingsAgree | model/libiec61850/src/iec61850/common/iec61850_common.cc:436-485 | on any octets the millisecond reading is the nanosecond reading rounded down, or one more |
| Collation.WeightBijective | model/libiec61850/src/common/string_utilities.cc:400-431 | no two characters have the same weight, and the table is a bijection on 1 to 127 |
| Collation.FillTable | model/libiec61850/src/common/string_utilities.cc:406-425 | the two loops fill the table with exactly these weights |
| Collation.LessTotal | model/libiec61850/src/common/string_utilities.cc:439-453 | the weight-lexicographic order is strict and total |
| Collation.LessTransitive | model/libiec61850/src/common/string_utilities.cc:439-453 | and transitive |
| Collation.CompareStrings | model/libiec61850/src/common/string_utilities.cc:439-453 | the sign of the result is the order of the strings; equal strings get the sign of their address difference |
| CollationSort.Insert | model/libiec61850/src/common/string_utilities.cc:484-510 | links the node in behind the last string it does not come before, whatever the addresses say about ties |
| CollationSort.SortList | model/libiec61850/src/common/string_utilities.cc:455-517 | the list afterwards links a permutation of the same nodes, each with its string, in nondecreasing order |
| CollationSort.OneCollation | model/libiec61850/src/common/string_utilities.cc:455-517 | a collection of strings has only one nondecreasing arrangement |
| CollationSort.TiesIrrelevant | model/libiec61850/src/common/string_utilities.cc:445-447 | so the strings of the sorted list do not depend on how ties were broken |
| ObjectReferences.FcRoundTrip | model/libiec61850/src/iec61850/common/iec61850_common.cc:115-248 | the two conversions of functional constraints undo each other on every known constraint |
| ObjectReferences.StringDigitsToInt | model/libiec61850/src/common/string_utilities.cc:308-328 | the digit loop computes DigitsToInt: the value, -1 on any other character, undefined beyond the int range |
| ObjectReferences.NumberOfDigits | model/libiec61850/src/iec61850/common/iec61850_common.cc:743-754 | the loop counts the digits of the decimal text |
| ObjectReferences.WriteMmsName | model/libiec61850/src/iec61850/common/iec61850_common.cc:612-661 | the name and its terminator fill the allocated buffer exactly |
| ObjectReferences.CreateMmsVariableName | model/libiec61850/src/iec61850/common/iec61850_common.cc:568-662 | computes VariableName, with the length limits and the slash handling of the code |
| ObjectReferences.ObjectReferenceToVariableAccessSpec | model/libiec61850/src/iec61850/common/iec61850_common.cc:664-740 | the parser computes Parse on every string |
| ObjectReferences.VarAccessSpecToObjectReference | model/libiec61850/src/iec61850/common/iec61850_common.cc:756-856 | the printer writes Print(v) and a terminator inside the allocated buffer, for all specifications but those that AllocationExact shows to overrun it |
| ObjectReferences.AllocationExact | model/libiec61850/src/iec61850/common/iec61850_common.cc:779-781 | the allocation suffices if and only if there is no component or the item goes on behind the constraint; for a canonical specification it is one larger than needed, or exact when a component is present |
| ObjectReferences.ParsesRender | model/libiec61850/src/iec61850/common/iec61850_common.cc:664-740 | what the parser makes of every reference in canonical form, whatever the lengths of its parts |
| ObjectReferences.TextRoundTrip | model/libiec61850/src/iec61850/common/iec61850_common.cc:664-856 | text in canonical form survives parsing and printing if and only if its domain has at most 64 characters and its item at most 62 |
| ObjectReferences.SpecRoundTrip | model/libiec61850/src/iec61850/common/iec61850_common.cc:664-856 | a canonical specification survives printing and parsing if and only if its domain has at most 64 characters and its item at most 65 |
| ObjectReferences.BareConstraint | model/libiec61850/src/iec61850/common/iec61850_common.cc:804-806 | a specification that ends with its constraint never comes back, whatever its lengths: its item grows by a dollar sign if the text is short enough to be accepted |

## Left out

- ns-3 sockets, node lookup, tracing, helpers and examples: simulator plumbing. Of the HAL only the fourteen octets dropped from every frame are modelled.
- MMS client and server, reporting, control, logging and the ISO layers: not part of this model.
- Memory allocation and release, string lifetimes, destroy functions and null results of allocation.
- Floating point: FLOAT values are raw octets and sample generation is a parameter. The powers that stretch the intervals of a burst are real numbers known up to a relative error (GooseScheduler.RoundingHarmless), and their product with T1 is taken exactly.
- MAC and APPID filtering of GOOSE frames: computed by the code and not used. On the SV side the destination check is off.
- The initial contents of allocated buffers are arbitrary octets.
- Receivers hold their subscribers, and the SV publisher its ASDUs, by value in list order; sharing one subscriber between receivers is not captured.
- Null entries in a data set list and values of an unsupported type (generalized time, BCD, object identifier), which the publisher counts but neither sizes nor encodes; the repository has no constructor for the latter.
- GeneralizedTime conversion, the IPv6 text parser, byte buffers, maps, allocators and log storage.
- Deprecated wrappers, debug output, simple getters and setters, and big-endian hosts.
- Nested sums of MmsValue_encodeMmsData are of type int: a single value of 2^31 octets or more, where they overflow, is given the sum as if it wrapped.
- SvReceiver.Receiver.ParseASDU: the debug output, which is on in sv_subscriber.cc, reads smpCnt and confRev before the listener is called, through a null pointer if one of them is absent; the model calls the listener all the same. Every encoded ASDU has both (SvRoundTrip.AsduParsed).
- GooseParsing.FindMatch: for a reference of more than 129 characters the code compares past the 129 stored; the terminator behind them is taken to decide.
- BerLength.DecodeLengthRecursive: the 32-bit loops are stated for windows of at most 2^23 - 1 octets, beyond which the length accumulator can leave the int range; the functions they compute have no such bound.
- DataSetParsers.ParseAllData: the receive buffer is assumed to hold at least one octet behind the window, which a boolean without contents makes the code read; not stated is what the code does after a copy past the end of a bit string's buffer; Refresh stops there and reports Overrun, and DataSetRefresh.StoresInside says when that happens.
- DataSetParsers.ParseAllDataUnknownValue: the same octet behind the window is assumed.
- GoosePublisher.Publisher.CreateGoosePayload: what the code does once it has written past the end of the message buffer; GooseMessages.OverrunExact says when that happens, and the method is stated for all other messages.
- GoosePublisher.Publisher.Publish: the same.
- GooseReceiver.Receiver.ParseGooseMessage: a GOOSE frame is stated for memory that is readable up to eight octets behind its announced end, because a timestamp is copied as eight octets whatever its length; the code compares the announced length with nothing, and GooseRoundTrip.ReceiveBufferExact says which length fields leave the buffer.
- GooseReceiver.Receiver.ParseGoosePayload: the same readable memory.
- SvReceiver.Receiver.ParseSVMessage: a frame for a subscriber is stated for a buffer that reaches one octet behind its announced end, where a terminator may be written; the code compares the announced length with nothing, and SvRoundTrip.ReceiveBufferExact says which length fields leave the buffer.
- SvPublisher.Publisher.SetupComplete: what the code does once it has written past the end of the message buffer; SvPublisher.SetupOverrunExact says for which ASDU lists, and the method is stated for all others.
- ObjectReferences.VarAccessSpecToObjectReference: what the code does once it has written past the allocation; AllocationExact says for which specifications.
- GooseMessages.PayloadLength: stated for predicted sizes below 65535; a publisher accepts at most 1518 octets.
- SvPublisher.Publisher.SetSmpSynch: only after setup, because the code writes through a position it does not have before.
- SvPublisher.Publisher.IncreaseSmpCnt: not for a counter limit of 0, by which the code would divide.
- SvApplication.Application.constructor: the identifiers saved by the application are pointers to strings that are gone when the message is laid out; the octets found there are a parameter, of at most 64 octets each.
- CollationSort.SortList: characters are signed eight-bit chars, as on the platforms the module is built for; with unsigned chars the code 128 would weigh as much as the terminator.
