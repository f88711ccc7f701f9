# realperf: what the checkpoint pipeline, the clock and the codecs promise

This project models the parts of realperf whose correctness spans several functions, and proves it in Dafny 4.11.
`dafny verify dfyconfig.toml` checks everything.

**The checkpoint pipeline.** A `Recorder` stores 16-byte slots into a ring that is mapped twice. A server in another
process finds new records with no shared head index: it walks forward while a slot's tick exceeds the last tick it
took. `Delivery` is the protocol as a state machine in which every store the server can tell apart and every slot read
is one step (an event stores its extension slots, then its header words over the old tick, then the tick; the server
looks at a header for emptiness, for its tick, behind the fence for its size and once more for its tick, then copies
slot by slot). `Records` is framing: what the walk by header sizes finds. `RecorderModel` and `Recorder` are the
recorder, `RecorderDelivery` shows its operations are steps of the protocol and `RecorderTrace` composes whole traces of
them with the server, `CheckPointSource` is the server's code run against ring contents that may change at every read,
`ServerSteps` is what its steps amount to, `CallEnds` when a call of it comes back, `DirectWriter` is the block writer
under short and interrupted writes, `CheckPointPrint` reads the file back, and `Pipeline` joins them.

**The clock.** `TickClock` converts counter ticks to nanoseconds by two samples: wrapping differences, truncating
division, clamping and saturation.

**The codecs.** `Itch5`, `ItchPacket`, `PacketPrint`, `Pcap` and `CaptureRoundTrip` write and parse MoldUDP64 captures,
`MadePacket` says what a made packet is byte by byte and `AnyPacket` what the parse makes of packets of any sender;
`Checksum` is the internet checksum (RFC 1071, sections 1 and 2), `LiteralString` and `LiteralCsv` the literal strings
and their table, `OutputPath` the choice of output files.

Side conditions of delivery, each of them needed by the code: `init` has zeroed the ring before the server starts;
ticks grow strictly from above 0; an event's header announces the slots it occupies (`RecorderModel.FramingAgrees` says
exactly when it does); the recorder is never more than one lap ahead; and nothing misleads the server
(`Delivery.Undisturbed`): whenever it compares the tick of a slot behind everything finished, that slot carries no tick
above the last record's, and no commit or rollback takes back a slot it has already reached.
`Delivery.InOrderExactlyWhenUndisturbed` shows that the last one is exact, whatever the minimum count and however often
the recorder rolls back: along any legal run the server stays in order, and is never ahead of the log, if and only if it
holds. It is free for single-slot records and on the first lap as long as nothing is taken back. `LatePayload` breaks its
first half over a ring of every size, `RolledBack` its second; `ServerSteps.MisledExactlyWhenNotQuiet` says what a recorder
can read off its own ring.

Six facts about the code that its documentation does not tell, each proved with its exact condition: an old payload slot
can be delivered as a record; a record can be delivered and then rolled back, and the one stored in its place be passed
over; the scan remembers a tick it loads a second time after the fence, so over contents that change under it the ticks of
the records taken grow exactly as long as no second load has fallen to the last tick
(`ServerSteps.TicksClimbExactlyWhen`), and `copy_available` comes back or throws exactly if some scan ends without filling the ring
(`CallEnds.NeverReturnsExactlyWhen`), which it does over contents that only change between scans and under a recorder
that keeps its side, but not over every ring (`FallingTick`); the sample before the last converts to its own time only if
at most 2^63 ticks passed since; the UDP length field wraps for packets above 65569 bytes and the printer then refuses or
accepts the packet by what is left of it; and a literal text with a newline cannot be read back.

## Model

| member | source | states |
|---|---|---|
| Delivery.DeliversInOrder | src/checkpoint_server.cpp:558-646 | over every legal interleaving and any number of laps in which nothing misleads the server, what it handed on is an initial segment of the slots finished and kept; index, last tick and record count say which; it never throws |
| Delivery.InOrderExactlyWhenUndisturbed | include/realperf/CheckPoint.hpp:143-230 | along any legal run, rollbacks and dropped commits included, every state stays in order, and the server is never ahead of the log, if and only if every slot compared behind the log is quiet and nothing the server has reached is taken back |
| Delivery.LogIsItsRecords | include/realperf/CheckPoint.hpp:196-230 | the slots written are the records finished and kept, one for each `add` and each event, each announced by its own header, ticks growing |
| Delivery.DeliversWholeRecords | src/checkpoint_server.cpp:611-646 | what the server has passed is exactly the first so many records the recorder finished and kept, as many as it has counted |
| Records.BoundariesRecovered | src/checkpoint_server.cpp:611-646 | walking any list of records by header sizes stops after n records at a position if and only if it is the end of the first n of the list |
| Delivery.DeliversAdds | include/realperf/CheckPoint.hpp:196-211 | with `add` alone, delivery needs no condition on payloads |
| Delivery.DeliversEvents | include/realperf/CheckPoint.hpp:77-89 | with events and nothing taken back, delivery is unconditional until a full ring has been written, and afterwards needs payload ticks no later than their header's |
| Delivery.ProducerStepOk | include/realperf/CheckPoint.hpp:143-230 | every store and every rollback keeps the last lap of the log intact in the cells |
| Delivery.LevelKept | include/realperf/CheckPoint.hpp:196-230 | as long as nothing is taken back, the next header's cell holds what it held a lap ago, until its tick is stored |
| Delivery.ProducerStepKeepsConsumer | include/realperf/CheckPoint.hpp:196-230 | no store, finished or not, disturbs what the server has scanned, accepted or is copying |
| Delivery.RetractKeepsConsumer | include/realperf/CheckPoint.hpp:143-169 | taking records back leaves the server in order exactly when it has not reached into them |
| RolledBack.RolledBackIsDelivered | include/realperf/CheckPoint.hpp:143-147 | over a ring of any capacity from 2: a record copied and then rolled back, after which a call comes back at once without the record stored in its place |
| Delivery.ConsumerStepOk | src/checkpoint_server.cpp:558-646 | every server step keeps its index, run and output on record boundaries of the log |
| Delivery.PhantomExactlyWhenNotQuiet | src/checkpoint_server.cpp:627-631 | in one step: the guard lets a slot pass that is no finished header exactly when the server has caught up and the slot one lap behind carries a tick above the last record's |
| Delivery.FirstLapProbesAreQuiet | src/checkpoint_server.cpp:627-631 | in any run that writes at most one ring's worth of slots no old slot can be mistaken |
| Delivery.ModestProbesAreQuiet | include/realperf/CheckPoint.hpp:77-89 | events whose payload ticks stay below their own keep every later lap quiet |
| LatePayload.LatePayloadIsDelivered | src/checkpoint_server.cpp:623-646 | over a ring of any capacity from 2 to 2^60: a legal run that writes one slot more than the ring holds, after which the server has handed on every slot written and behind them an old payload slot as a record of its own |
| ServerSteps.ServerDelivers | src/checkpoint_server.cpp:558-583 | delivery in terms of the server's own steps over a ring that a recorder is writing |
| ServerSteps.CallDrains | src/checkpoint_server.cpp:558-583 | over an idle ring the server comes to rest only with the whole backlog copied, a full ring included |
| ServerSteps.ComesToRest | src/checkpoint_server.cpp:558-583 | left alone with the ring, from any state it can be in, the server does come to rest, and has then copied everything finished |
| ServerSteps.MisledExactlyWhenNotQuiet | src/checkpoint_server.cpp:627-631 | from any state in order, the server alone will take a slot that is no finished record if and only if the slot behind the log is not quiet |
| ServerSteps.SecondCallCopiesNothing | src/checkpoint_server.cpp:558-583 | a second call finds an empty slot or one not past the last tick, and leaves everything as it was |
| ServerSteps.ArbitraryRing | src/checkpoint_server.cpp:623-646 | for any ring contents, changing at every read: the index is the copied count modulo the capacity and no read leaves the two views |
| ServerSteps.ThrowsExactlyFor | src/checkpoint_server.cpp:611-621 | the server throws exactly for a record that announces more bytes than the other slots of the ring have |
| ServerSteps.TicksClimbExactlyWhen | src/checkpoint_server.cpp:627-641 | for any ring contents, changing at every read: the ticks of the records taken strictly increase for life if and only if no tick loaded again after the fence has fallen to the last one or below |
| ServerSteps.HeldTicksClimb | src/checkpoint_server.cpp:627-641 | they do as long as no header falls behind what the guard saw of it |
| ServerSteps.RecorderHoldsHeaders | src/checkpoint_server.cpp:627-641 | they do under any legal run of a recorder that misleads nobody |
| CallEnds.NeverReturnsExactlyWhen | src/checkpoint_server.cpp:558-583 | for any contents, changing at every read: a call that has begun to scan never comes back if and only if every scan from there on ends with a run that fills the ring |
| CallEnds.LaterCallsEnd | src/checkpoint_server.cpp:558-583 | a call comes back if no tick loaded again falls to the last one, for each full lap then raises the last tick |
| CallEnds.UnchangedScansStayLater | src/checkpoint_server.cpp:623-646 | none does over contents that only change between scans |
| CallEnds.RecordersStayLater | src/checkpoint_server.cpp:623-646 | none does under a recorder that keeps its side, however long it goes on writing |
| FallingTick.FallingTickNeverEnds | src/checkpoint_server.cpp:558-583 | over a ring of any capacity from 2 whose ticks fall back between the two loads, two records are taken with one tick and the copy loop never ends |
| CheckPointSource.CheckPointSource.ScanHeader | src/checkpoint_server.cpp:627-641 | one turn of the scan is the server's four loads of the header, the tick remembered being the one loaded last |
| CheckPointSource.CheckPointSource.CommittedRunSlots | src/checkpoint_server.cpp:623-646 | the scan loop does exactly the server's steps on whatever the ring shows at each read, and ends for any contents |
| CheckPointSource.CheckPointSource.ReadRun | src/checkpoint_server.cpp:570 | the slots appended are those the ring shows, in order, from the server's index on |
| CheckPointSource.CheckPointSource.CopyAvailable | src/checkpoint_server.cpp:558-583 | if some scan ends without filling the ring, which is exactly when it comes back, the whole call is the server's steps, the result says whether anything was copied, and all of it is in the output stream |
| CheckPointSource.CheckPointSource.TicksGrow | src/checkpoint_server.cpp:573 | between calls the last tick is that of the last record taken, and those have grown strictly if and only if none, loaded again, had fallen to the last one |
| CheckPointSource.CheckPointSource.DeliversTheRun | src/checkpoint_server.cpp:558-583 | whenever the ring's life is that of a legal run that misleads nobody, the code's output is an initial segment of the slots recorded and kept, in whole records |
| CheckPointSource.CheckPointSource.CallWasComplete | src/checkpoint_server.cpp:558-583 | a call during which the ring was not written copied everything, and copied something exactly if there was a backlog |
| CheckPointSource.CheckPointSource.Flush | src/checkpoint_server.cpp:585-588 | after the flush the file is every slot copied plus less than a block of zeros, a whole number of slots |
| DirectWriter.DirectCheckPointWriter.FlushBlock | src/checkpoint_server.cpp:474-500 | for any short writes and finitely many interruptions the whole block lands at the end of the file; a failure leaves a prefix of it |
| DirectWriter.DirectCheckPointWriter.Append | src/checkpoint_server.cpp:408-426 | file followed by buffered bytes grows by exactly the appended bytes, the buffer never stays full, and the file is whole blocks |
| DirectWriter.DirectCheckPointWriter.FlushPadded | src/checkpoint_server.cpp:428-437 | the remainder is written padded with zeros, and nothing is written when there is none |
| Pipeline.PrintedIsRecorded | src/checkpoint_print.cpp:225-258 | for single-slot records and any interleaving, dropping empty slots from the file the server has flushed gives exactly the slots it copied, an initial segment of those recorded |
| CheckPointPrint.FileReadsBack | src/checkpoint_print.cpp:233-258 | a file of slots and zero padding splits into slots without remainder and loses only empty ones |
| CheckPointPrint.PrintCheckpoints | src/checkpoint_print.cpp:301-318 | the loop shows the first slots up to the limit of those the filter admits, all of them without a limit |
| CheckPointPrint.ShownIsNonEmpty | src/checkpoint_print.cpp:308-318 | what is shown without `--all` is the non-empty slots, each at its own index, in file order |
| CheckPointPrint.ShownIsAll | src/checkpoint_print.cpp:308-318 | with `--all` every slot is shown at its own index |
| CheckPointPrint.OddFilesAreRefused | src/checkpoint_print.cpp:233-258 | a file that is no whole number of slots is refused, and only such a file |
| CheckPointPrint.EmptyIsAllZero | src/checkpoint_print.cpp:225-231 | an empty slot is one of sixteen zero bytes |
| RecorderModel.TraceRefines | include/realperf/CheckPoint.hpp:138-230 | after any trace of operations with any minimum count: start is the committed count modulo capacity, pending slots lie behind it, committed slots within a lap of the highest write are intact, `has` is exactly the pending categories |
| RecorderModel.StepRefines | include/realperf/CheckPoint.hpp:143-230 | each operation, start and end included, keeps that refinement |
| RecorderModel.CountedUpTo65535 | include/realperf/CheckPoint.hpp:208 | one more `add` is still accounted for exactly while fewer than 65535 slots are pending |
| RecorderModel.BracketsLeavePending | include/realperf/CheckPoint.hpp:171-194 | after `start` exactly its own record is pending, after `end` and `rollback` none |
| RecorderModel.CommitOutcome | include/realperf/CheckPoint.hpp:149-160 | a commit moves the start past the pending slots, modulo the capacity, exactly when they reach the minimum count |
| RecorderModel.StoredIsRoundedUp | include/realperf/CheckPoint.hpp:75-90 | a stored event is its header and its own bytes rounded up to whole slots |
| RecorderModel.CategoryNumbers | include/realperf/CheckPoint.hpp:19-26 | each category has its number and a bit of its own in the mask |
| RecorderModel.FramingAgrees | include/realperf/CheckPoint.hpp:218-230 | recorder and server agree on an event's length exactly when its class is not empty and its size over 64 KiB is a multiple of 16 |
| RecorderModel.PackedSlotUnpacks | include/realperf/CheckPoint.hpp:200-206 | the two stored words lie in memory as the given type, category, zero reserved size, literal and tick |
| Recorder.Recorder.Add | include/realperf/CheckPoint.hpp:196-211 | exactly one store, and the count and the category mask after it, at any point of the mirrored ring |
| Recorder.Recorder.AddEvent | include/realperf/CheckPoint.hpp:218-230 | the event's slots lie behind the pending ones, and its stores were made in this order: extension slots, header words over the old tick, tick |
| RecorderModel.EventShows | include/realperf/CheckPoint.hpp:80-88 | after every one of these stores but the last the header's cell still shows the tick it had before, and after the last every slot is in place |
| RecorderTrace.RecorderStoresAreRun | include/realperf/CheckPoint.hpp:218-230 | after each of them the ring is that of the protocol's run at the same store |
| Recorder.Recorder.Commit | include/realperf/CheckPoint.hpp:149-160 | the whole state after a commit, below and at the minimum count, with one subtraction at the ring's end |
| Recorder.Recorder.CommitIfHas | include/realperf/CheckPoint.hpp:162-169 | commits or drops by whether the category is pending |
| Recorder.Recorder.Start | include/realperf/CheckPoint.hpp:171-182 | the commit of what was pending, then the start record |
| Recorder.Recorder.End | include/realperf/CheckPoint.hpp:184-194 | the end record, then the commit |
| RecorderTrace.TraceIsDelivered | include/realperf/CheckPoint.hpp:138-230 | recorder, protocol and server composed, for any minimum count and any rollbacks: at every moment the log is what some first operations of the trace left, between events the ring is the recorder's own, and the server's output is an initial segment of that log |
| RecorderTrace.ForwardTraceIsDelivered | include/realperf/CheckPoint.hpp:138-230 | with a minimum count of at most 1 and nothing taken back, it is an initial segment of what the whole trace writes |
| RecorderTrace.TraceAgrees | include/realperf/CheckPoint.hpp:138-230 | what a whole trace stores and takes back leaves the protocol's ring and log as the trace leaves the recorder's |
| RecorderDelivery.WrittenOnlyGrows | include/realperf/CheckPoint.hpp:149-194 | with a minimum count of at most 1 and no rollback, commits move no slot and every operation appends its own |
| RecorderDelivery.AddIsOneStep | include/realperf/CheckPoint.hpp:196-211 | `add` stores what the protocol's single step stores |
| RecorderDelivery.EventIsARun | include/realperf/CheckPoint.hpp:80-88 | the stores of one event are a legal run that finishes exactly its slots |
| RecorderDelivery.AddEventIsThatRun | include/realperf/CheckPoint.hpp:218-230 | `addEvent` leaves the ring as that run does |
| Ring.WrapIsRemainder | src/checkpoint_server.cpp:571 | `Wrap`, by which indices are stated, is the remainder of the position modulo the capacity, for every capacity |
| Bits.MaskIsWrap | src/checkpoint_server.cpp:571 | masking with capacity minus one is the position modulo the capacity, for capacities with a single bit |
| Bits.MaskedAccess | include/realperf/RingBuffer.hpp:102-110 | the masked index operator shows the cell the mirrored storage shows |
| Bits.SingleBitIsPowerOfTwo | include/realperf/RingBuffer.hpp:115 | a capacity the constructor admits is a power of two |
| Bits.PowerOfTwoIsSingleBit | include/realperf/RingBuffer.hpp:115 | every power of two has the single bit the constructor asks for |
| Records.RunsJoin | src/checkpoint_server.cpp:611-646 | two stretches of whole records with growing ticks make one, counts added |
| Layout.SlotReadsBack | include/realperf/CheckPoint.hpp:31-55 | a slot's 16 bytes read back as the slot |
| TickClock.ConversionIsMonotone | include/realperf/TickClock.hpp:85-100 | over the whole signed range of distances a later tick never converts to an earlier time, and the product stays in 128 bits |
| TickClock.BothSamplesConvert | include/realperf/TickClock.hpp:63-83 | after an accepted sample it converts to its own time, and the one before does exactly when at most 2^63 ticks passed |
| TickClock.LastTwoSamplesConvert | include/realperf/TickClock.hpp:63-83 | after any samples, if the last two lie 1 to 2^63 ticks apart and time grew between them by less than 2^63, both convert to their own times |
| TickClock.StandstillKeepsScale | include/realperf/TickClock.hpp:68-77 | a sample whose tick or time has not moved forward leaves the scale as it was |
| TickClock.PreviousSampleLost | include/realperf/TickClock.hpp:63-83 | a sample one tick before the last one is accepted, and the last one then converts to the new time |
| TickClock.SamplesAreCounted | include/realperf/TickClock.hpp:117-120 | the sample count is one more than the calls of `sync`, modulo 2^64 |
| TickClock.EveryClockIsOk | include/realperf/TickClock.hpp:50-83 | after any samples the anchor is the last one, the scale is all there or not at all, and calibration is never lost |
| TickClock.OffsetIsWithinOneNanosecond | include/realperf/TickClock.hpp:155-164 | the unclamped offset is less than a nanosecond from the exact quotient, towards the anchor |
| TickClock.OffsetIsPeriodic | include/realperf/TickClock.hpp:155-164 | moving away from the anchor by whole calibration intervals moves the offset by whole steps |
| TickClock.ConversionIsPeriodic | include/realperf/TickClock.hpp:85-100 | and the converted time with it, as long as nothing is clamped |
| TickClock.TickDeltaIsSignedDistance | include/realperf/TickClock.hpp:145-153 | the difference is the one signed 64-bit distance from anchor to tick |
| TickClock.TickClock.SyncWith | include/realperf/TickClock.hpp:63-83 | the whole new state, for accepted and refused samples |
| TickClock.TickClock.Convert | include/realperf/TickClock.hpp:85-100 | the conversion of the current state, calibrated or not |
| TickClock.UncalibratedConverts | include/realperf/TickClock.hpp:85-100 | before any calibration a tick converts by the fallback offset alone |
| TickClock.SaturatesToNearest | include/realperf/TickClock.hpp:187-202 | a saturated sum is the 64-bit number nearest to the true one |
| Checksum.InternetChecksum | src/pcap_itch_gen.cpp:259-274 | the folding loop ends with the complement of the one's-complement sum, its two zeros told apart |
| Checksum.VerifiesExactlyForItsChecksum | src/pcap_itch_gen.cpp:383-385 | up to 65537 words, a second checksum is 0 exactly for the stored checksum, or for its other zero when that is 0 |
| Checksum.OddByteIsHigh | src/pcap_itch_gen.cpp:259-274 | a last odd byte counts as the high byte of a word |
| Checksum.Example | src/pcap_itch_gen.cpp:259-274 | the worked example of section 3 of RFC 1071 |
| ItchPacket.HeaderVerifies | src/pcap_itch_gen.cpp:369-385 | the IPv4 header of every generated packet sums to zero |
| ItchPacket.MakePacket | src/pcap_itch_gen.cpp:341-396 | the packet built by appending and patching is the specified one, and it is refused exactly when the message does not fit |
| MadePacket.FrameAddresses | src/pcap_itch_gen.cpp:355-367 | the frame goes to the group address of its destination (section 6.4 of RFC 1112), from an individual, locally administered address that ends like the source |
| MadePacket.GroupAddressesAgree | src/pcap_itch_gen.cpp:355-365 | two packets go to the same group address exactly when their destinations agree in the low 23 bits |
| MadePacket.IpBytes | src/pcap_itch_gen.cpp:369-381 | every byte of the IPv4 header but the checksum, those no parse reads included |
| MadePacket.UdpBytes | src/pcap_itch_gen.cpp:387-390 | ports and length in network order and a zero UDP checksum |
| MadePacket.MoldBytes | src/pcap_itch_gen.cpp:323-338 | session, sequence number, count 1, the message behind its length, zeros to the end |
| ItchPacket.MakePayload | src/pcap_itch_gen.cpp:308-339 | the zeroed payload holds the MoldUDP64 header and the message in front |
| PacketPrint.PrintPacket | src/pcap_itch_print.cpp:252-328 | the cursor-driven parse is the parse by absolute offsets, errors included |
| AnyPacket.AnyPacketParses | src/pcap_itch_print.cpp:252-328 | any packet with any IPv4 options, any list of messages and bytes behind them parses to the fields at their places and the messages in order |
| AnyPacket.ListReads | src/pcap_itch_print.cpp:321-327 | reading as many messages as a list has gives the list in order, each with its extra bytes, whatever lies behind |
| AnyPacket.CutListIsRefused | src/pcap_itch_print.cpp:321-327 | cut anywhere before the end of the last message, the payload is refused as truncated |
| AnyPacket.ShortMessageIsRefused | src/pcap_itch_print.cpp:321-327 | a message shorter than its type needs is refused, behind any good ones |
| AnyPacket.RejectedBecause | src/pcap_itch_print.cpp:259-292 | which header error is reported, by the bytes that decide it |
| AnyPacket.RejectedByUdpLength | src/pcap_itch_print.cpp:294-305 | which UDP error is reported, by the length field |
| PacketPrint.PacketReadsBack | src/pcap_itch_print.cpp:263-327 | a generated packet has the requested size and is accepted exactly when its 16-bit UDP length covers the message, with every field as asked for |
| PacketPrint.LengthsDoNotWrap | src/pcap_itch_gen.cpp:372-389 | the UDP length covers the message up to 65569 bytes, the IPv4 length is exact up to 65549 and no further |
| PacketPrint.LongPacketIsRefused | src/pcap_itch_print.cpp:294-302 | a generated packet of 65600 bytes is refused |
| PacketPrint.MessageSurvivesPacket | include/realperf/itch5.hpp:458-553 | a message that fits, built, sent and parsed, comes back with every field of the packet, and reads through its packed struct as the wire keeps it |
| PacketPrint.GeneratedFits | src/pcap_itch_gen.cpp:41-42 | every message the generator chooses fits the smallest packet its options admit, and an order needs that size |
| PacketPrint.GeneratedSurvives | src/pcap_itch_gen.cpp:276-339 | so every packet it makes of up to 65569 bytes is accepted with its message |
| Itch5.MessageReadsBack | include/realperf/itch5.hpp:585-598 | a built message has no extra bytes and every field reads back, timestamps modulo 2^48, symbols padded or cut |
| Itch5.ParseExactly | include/realperf/itch5.hpp:585-598 | bytes behind a built message are extra, all of them, and any part of it alone is refused |
| Itch5.HeadPlaces | include/realperf/itch5.hpp:458-553 | where the common fields lie in a built message, in network order |
| Itch5.TailPlaces | include/realperf/itch5.hpp:458-553 | where the fields of each type lie |
| Itch5.Make | include/realperf/itch5.hpp:458-553 | the appending builders write the fields in wire order |
| Itch5.AlphaReadsBack | include/realperf/itch5.hpp:443-456 | a text survives padding and printing exactly when it fits and does not end in a space |
| Itch5.AlphaBytes | include/realperf/itch5.hpp:451-456 | a text field is the text as far as it fits and spaces behind it |
| Itch5.PrintAlpha | include/realperf/itch5.hpp:443-450 | the printing loop leaves the text without its trailing spaces |
| Itch5.SizesArePacked | include/realperf/itch5.hpp:251-274 | the size table is the common header plus the packed fields of each struct, as the assertions beside the structs ask |
| BigEndian.PutBeIsDigits | include/realperf/itch5.hpp:365-397 | swapping a native word writes its digits most significant first |
| BigEndian.PutU48IsDigits | include/realperf/itch5.hpp:379-390 | the 48-bit writer stores the six digits of the value modulo 2^48 |
| BigEndian.ReadersAgree | include/realperf/itch5.hpp:432-436 | the swapping reader and the shifting cursor read the same number |
| BigEndian.DigitsReadBack | src/pcap_itch_print.cpp:65-104 | the cursor's shifting undoes the writer |
| Pcap.CaptureReadsBack | src/pcap_itch_print.cpp:339-390 | a written capture reads back packet for packet, a limit returning the first that many |
| Pcap.AnyCaptureReads | src/pcap_itch_print.cpp:361-390 | a capture of any program: whatever the original lengths, a packet is as many bytes as its captured length says, and all are read in order, the first so many under a limit |
| Pcap.RefusedPacketEnds | src/pcap_itch_print.cpp:386 | a packet the parse refuses ends the reading with its error, behind everything before it |
| Pcap.ForeignHeaderIsRefused | src/pcap_itch_print.cpp:345-359 | which error another global header gives, by its first wrong field |
| Pcap.GlobalHeaderBytes | src/pcap_itch_gen.cpp:398-409 | the written global header, byte by byte |
| Pcap.TruncatedCapture | src/pcap_itch_print.cpp:361-390 | under any limit, a capture cut anywhere gives the packets whole in it as far as the limit lets them through, and ends cleanly exactly at the limit or at a packet boundary |
| Pcap.TruncatedGlobalHeader | src/pcap_itch_print.cpp:339-343 | cut inside the global header, the file is refused |
| Pcap.TimestampReadsBack | src/pcap_itch_gen.cpp:417-418 | the two time fields are the time itself exactly below 2^32 seconds |
| Pcap.PrintPcap | src/pcap_itch_print.cpp:330-391 | the framing loop is the recursive reading of the file, every error at its place |
| Pcap.WriteCapture | src/pcap_itch_gen.cpp:398-422 | the output loop writes the header and every packet behind its own header |
| CaptureRoundTrip.GeneratedCapturePrints | src/pcap_itch_print.cpp:330-391 | every packet the generator sends is printed in order with its time, addresses, sequence number and message, up to the limit if there is one, and nothing else is |
| LiteralCsv.DumpReadsBackExactlyWhen | src/checkpoint_print.cpp:122-171 | for any table, the dump reads back as its map exactly when no text holds a newline and no two texts share a fingerprint |
| LiteralCsv.OneLineDumpFailsOnlyOnCollision | src/checkpoint_print.cpp:148-168 | without newlines, reading fails exactly on a shared fingerprint, and with that error |
| LiteralCsv.DumpLiteralStrings | src/LiteralString.cpp:36-42 | the printing loop writes the header and one row an entry |
| LiteralCsv.ReadLiteralStringMap | src/checkpoint_print.cpp:122-171 | the reading loop is the recursive reading of the lines, with each of its errors |
| LiteralCsv.FingerprintReadsBack | src/checkpoint_print.cpp:96-120 | a printed fingerprint parses to itself, and is never taken for hexadecimal |
| LiteralCsv.NumbersRead | src/checkpoint_print.cpp:96-120 | decimal numbers, and hexadecimal ones behind 0x or 0X in either case of letters, are taken exactly below 2^32 |
| LiteralCsv.CarriageReturnsDontMatter | src/checkpoint_print.cpp:136-155 | a table with carriage returns before any of its newlines reads as the table without them |
| LiteralCsv.RowsRefused | src/checkpoint_print.cpp:157-163 | a row without a comma, with nothing behind its last one, or with no number there is refused with its own error |
| LiteralCsv.DumpOfOne | src/LiteralString.cpp:36-42 | a dumped table, character by character |
| LiteralString.FingerprintOf | include/realperf/LiteralString.hpp:56-66 | the hashing loop; a fingerprint is never 0 and below 2^24 |
| LiteralString.KnownHashes | include/realperf/LiteralString.hpp:58-62 | the hash is FNV-1a: its published values |
| LiteralString.TextOf | src/LiteralString.cpp:25-34 | the first entry with the fingerprint, or no text |
| LiteralString.BothFindTheText | src/checkpoint_print.cpp:122-171 | in a table read back a text is found under its fingerprint by program and printer alike |
| OutputPath.UniqueOutputPath | src/checkpoint_server.cpp:182-200 | the renaming loop ends with the first renaming that is free |
| OutputPath.ChooseOutputs | src/checkpoint_server.cpp:680-693 | the chosen output paths are pairwise distinct, each a renaming by its own input's number in its own directory, and a free one is kept |
| OutputPath.RenamedIs | src/checkpoint_server.cpp:191-197 | renaming puts the number and a dash before the name, once for each round |

## Left out

- System calls (`mmap`, `open`, `ftruncate`, `posix_memalign`, file handles): only their meaning is kept, a mirrored ring and a `pwrite` that stores some bytes, is interrupted or fails.
- Weak memory and compiler reordering: slot stores are sequentially consistent and an event's constructors store in program order.
- The field loads inside one `is_empty`: they count as one look at the slot; the loads that follow it in a turn of the scan are each their own.
- `Recorder::init` on storage that is not mirrored: the check that rejects it; also `totalTicks` and `CheckPointScope`.
- Multi-slot records in `checkpoint_print`: it takes every slot for a record, so read-back is stated for single-slot records.
- `TickTimer`, clock sampling and the floating-point conversion before calibration: samples and the fallback value are inputs; a conversion racing with `sync` is one step.
- Raw payload mode, IPv4 address parsing and the random choice of messages: the packet theorems hold for every message a builder makes.
- Literal texts as characters of the CSV and as the bytes that are hashed are not identified; the table theorems hold for any 32-bit fingerprints.
- Printed text (`operator<<`, prices, type names), option parsing and signals: user interface.
- Path spelling: a path is its parent and its last component, so `a//b` and `a/b` are not identified.
- Packet and slot counters past 2^64 and printing indices past 2^32: counters are unbounded.
