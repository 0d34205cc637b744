# Verification of the weak-network video demo

A Dafny model of the part of the program that decides what a receiver may decode and what a sender should send, with
proofs of the properties the design rests on. `dafny verify dfyconfig.toml` checks everything.

Four components form one loop.

* **Frame gate and recovery protocol.** The sender stamps each RTP packet with epoch, frame id, index, count and
  keyframe flag. The receiver gathers packets by frame in a bounded, ordered map, hands on whole frames only, asks for
  holes on a timer, gives up after a deadline and then waits for a keyframe.
  `FrameGate.dfy` states each locked step as a function on the gate's fields. `FrameReceiver.dfy` and `FrameSender.dfy`
  are the handlers with mutable fields and loops; every method is proved to be a step of that state machine, and
  `Valid()` says that the fields are where the steps so far lead. `GateInvariant`, `DecodeSafety`, `NackBudget`,
  `NackFreshness`, `NackTiming`, `GateLimits`, `GateAccounts`, `Overflow`, `GivingUp`, `Confluence`,
  `ConfluenceLimits`, `Resynchronisation`, `FarKeyframe`, `Restart` and `EndToEnd` prove properties of all runs;
  `Witnesses` gives runs in which the limits show.
* **Wire formats.** `HeaderExtension`, `StampedPacket`, `Rtx`, `Nack`, `Rtcp` and `TwccFeedback` work on bytes.
* **Feedback and estimation.** `MediaStatistics` builds transport-wide feedback, `NetworkQualityEstimator` with
  `Windows`, `LossAccounting` and `CompactNtp` turns arrivals and reports into loss and round-trip time, and
  `FeedbackLoop` follows one report from the samples to the loss that is shown.
* **Adaptation.** `VideoAdaptation` is the hysteresis ladder.

How to read the model:

* A run of the gate is any sequence of the steps arrival, drain, poll and invalidation. The program only produces runs
  in which a batch is arrivals, one drain and one poll, so statements about all runs cover more than the program does.
* The network in `EndToEnd` may deliver any packet ever sent, any number of times, in any order, directly or over the
  retransmission stream. Whether a packet was sent before it is delivered is not restricted either.
* Where a loop is proved equal to a function, lemmas say what that function means without naming it: in positions,
  bytes, literal limits or the events of a run.
* `Event` is the trace: frames emitted, losses of synchronisation, births of assemblies, NACKs and acknowledgements.
* Each step takes its clock readings as parameters. They are positive, because 0 marks "never" in the assembly, and
  where timing matters they never go back. Where a method reads the clock several times, each reading is a parameter;
  only the placeholders and the assembly of one packet share a reading.
* Messages are byte strings with a control flag. Handlers that rewrite messages do so on `Message` objects in place;
  the gate, which never changes a message, holds their values together with the header fields it reads.
* Bytes and fixed-width integers are subranges of `int`; shifts and masks are written as division and remainder, and
  every wrap-around, signed cast and truncation is explicit. Reals stand for doubles.

Results that differ from what one might expect of the code:

* A packet of a later frame may overtake one of the frame that is due exactly if the due frame has been started already
  and there is room, `GateLimits.OvertakingAbsorbedExactly`; so interleaved frames lose nothing exactly if their first
  packets arrive in frame order, `Confluence.InterleavingConfluent`. Before the first keyframe that order need not
  matter: `Witnesses.EarlyDeltaKept`.
* While unsynchronised, a frame that is whole before the keyframe ahead of it is thrown away by the next drain, so a
  stream starts up without a loss exactly if that never happens: `Restart.RestartExactly`.
* A batch of more than 65535 packets is stamped without its tail, `EndToEnd.StampedIsWholeFrame`, and every packet of
  that tail that arrives ends synchronisation, `EndToEnd.TailEndsSync`.
* A due frame of which nothing is in the buffer is never given up, however long it takes: `GivingUp.UnseenWaits`.
* A frame that has been handed on may be asked for again, but only after a late copy of one of its packets:
  `NackFreshness.NackAfterHandOver`, `Witnesses.HandedOnAskedAgain`.
* Packets that arrive before one feedback report and are overtaken by a later report's first packet are reported as lost:
  `FeedbackLoop.ShownLossExact`, `FeedbackLoop.OvertakenCountsAsLost`.
* Packets that come in behind the highest number stay counted as lost: `LossAccounting.LostIsMissingAndLate`.
* The assembly of one frame is independent of the schedule exactly when the next frame is not yet buffered and the id is
  not 2^32 - 1, `ConfluenceLimits.ConfluentExactly`; both exceptions are reached by runs from the start,
  `ConfluenceLimits.BufferedSuccessorHappens` and `ConfluenceLimits.LastIdHappens`.
* Greedy NACK packing stops being minimal at 65521 packets: `Nack.OptimalExactly`.
* The local media loss is wrong whenever the window, less than 2^15 numbers wide, spans a 16-bit wrap:
  `LossAccounting.RawLossExact`.
* Unwrapping twice is harmless exactly when the two streams are labelled differently or the retransmission type is one
  of 64 to 95, which read as RTCP: `Rtx.SecondPassHarmless`.

## Model

| member | source | states |
|---|---|---|
| `EndToEnd.Integrity` | src/video/video_transport_handler.cpp:326-452 | In every run, with loss, repetition, reordering and retransmission, each block that leaves the gate is the packet list stamped by one `sender_outgoing` call, complete and in order, with that call's epoch, id and keyframe flag (fewer than 2^32 frames). |
| `EndToEnd.WholeIsSent` | src/video/video_transport_handler.cpp:216-240 | A frame whose packets carry one epoch, id, count and flag and the indices 0, 1, 2, … is packet for packet the sent frame its id names. |
| `EndToEnd.StampedIsWholeFrame` | src/video/video_transport_handler.cpp:230-239 | The stamped list is the whole batch exactly when it has at most 65535 packets; stamping leaves payloads alone. |
| `EndToEnd.TailEndsSync` | src/video/video_transport_handler.cpp:230-332 | The packets beyond 65535 go out unstamped, and each one that arrives leaves the gate unsynchronised. |
| `EndToEnd.DeliverableInFlight` | src/video/video_transport_handler.cpp:66-117 | A packet that came over the retransmission stream and was unwrapped is one of the packets originally sent. |
| `EndToEnd.NackNamesUnreceived` | src/video/video_transport_handler.cpp:367-517 | In every reachable state the NACK for an assembly decodes to exactly the sender's sequence numbers of the packets that assembly lacks, in order, whichever packet arrived first and across 65535 to 0. |
| `FrameSender.LogNumbered` | src/video/video_transport_handler.cpp:229 | Frame ids count up from 1 modulo 2^32, one per batch that holds media; epochs are never 0. |
| `FrameSender.LoggedAsTold` | src/video/video_transport_handler.cpp:155-240 | In any run each batch with media becomes one frame of the log, with its media messages, the next number, and the epoch (at least 1) and keyframe flag of the last `set_outgoing_frame` before it; before the first call they are 1 and false. |
| `FrameSender.LogGrows` | src/video/video_transport_handler.cpp:219-229 | Exactly the batches with media add a frame, and earlier frames stay. |
| `FrameSender.MediaAre` | src/video/video_transport_handler.cpp:219-224 | The media of a batch are its media messages, each once and in order. |
| `FrameSender.BatchStamps` | src/video/video_transport_handler.cpp:219-239 | The n-th media packet of a batch gets index n, packets from 65535 on and non-media messages stay as they were. |
| `FrameSender.CollectMedia` | src/video/video_transport_handler.cpp:219-224 | The media packets of the batch and their places in it. |
| `FrameSender.VideoTransportSender.SetOutgoingFrame` | src/video/video_transport_handler.cpp:155-160 | Is the configuration step of the run that `LoggedAsTold` speaks about. |
| `FrameSender.VideoTransportSender.SenderOutgoing` | src/video/video_transport_handler.cpp:216-240 | Is the sending step of the run; in place, the whole batch afterwards, position by position in `BatchStamps`. |
| `FrameSender.VideoTransportSender.SenderIncoming` | src/video/video_transport_handler.cpp:242-303 | Counters and due callbacks for any list of messages, control or not. |
| `Rtcp.WalkMessage` | src/video/video_transport_handler.cpp:255-294 | The compound-message loop tallies every packet up to the first one that overruns the message. |
| `Rtcp.TallyPacket` | src/video/video_transport_handler.cpp:265-292 | What one RTCP packet asks for: retransmissions, a keyframe, or nothing; or that it acknowledges one. |
| `Rtcp.NackCounted` | src/video/video_transport_handler.cpp:508-519 | The NACK bytes built for a frame, walked by the sender, count exactly the frame's missing packets. |
| `Rtcp.AckCounted` | src/video/video_transport_handler.cpp:287-292 | The acknowledgement bytes are recognised as an acknowledgement and as nothing else. |
| `Rtcp.PliCounted` | src/video/video_transport_handler.cpp:277-286 | A picture loss indication (section 6.3.1 of RFC 4585) asks for one keyframe and nothing else. |
| `Rtcp.TallyMeans` | src/video/video_transport_handler.cpp:265-292 | What one RTCP packet asks for, by its type, format and name bytes. |
| `Rtcp.CompoundCounted` | src/video/video_transport_handler.cpp:255-294 | A compound message asks for what its first packet asks for and for what the rest does. |
| `Rtcp.OverrunEnds` | src/video/video_transport_handler.cpp:259-263 | A packet that claims more bytes than are left ends the message. |
| `Rtcp.BatchCounted` | src/video/video_transport_handler.cpp:249-253 | Only control messages are looked at. |
| `Rtcp.AckBytesParse` | src/video/video_transport_handler.cpp:526-540 | Name, length, epoch and frame id of the acknowledgement read back. |
| `GateInvariant.RunSound` | src/video/video_transport_handler.cpp:305-476 | Over all runs: at most 64 frames, key equals frame id, one epoch, as many slots as packets, every slot holds the packet with its index, and everything emitted is a whole frame. |
| `GateInvariant.ProcessSound` | src/video/video_transport_handler.cpp:326-392 | One packet keeps the buffer invariant. |
| `GateInvariant.GapTurnsBounded` | src/video/video_transport_handler.cpp:346-357 | The gap loop takes at most 64 turns however large the jump in ids. |
| `GateInvariant.FillGapShape` | src/video/video_transport_handler.cpp:346-357 | The gap loop adds placeholders for an initial stretch of the gap, cut off only by a full buffer, and leaves existing frames alone. |
| `GateInvariant.AdvanceSound` | src/video/video_transport_handler.cpp:428-451 | The synchronised drain keeps the invariant and emits whole frames only. |
| `GateInvariant.ResyncSound` | src/video/video_transport_handler.cpp:399-426 | The unsynchronised drain keeps the invariant and emits whole frames only. |
| `DecodeSafety.EveryRunDecodeSafe` | src/video/video_transport_handler.cpp:394-452 | The first frame after the start or any loss of sync is a keyframe; every other frame has the epoch of the one emitted before it and its id plus one. |
| `DecodeSafety.DeltaHasChain` | src/video/video_transport_handler.cpp:394-452 | Every emitted frame ends an unbroken chain of emitted frames that starts at a keyframe, with no loss of sync inside. |
| `DecodeSafety.EveryResyncAcknowledged` | src/video/video_transport_handler.cpp:399-415 | Each keyframe that restores synchronisation is acknowledged exactly once, at once and with its own epoch and id; nothing else is ever acknowledged. |
| `DecodeSafety.ProcessOnlyLoses` | src/video/video_transport_handler.cpp:326-392 | A packet never gains synchronisation and leaves a gate that stays synchronised waiting for the same frame. |
| `NackBudget.NacksBounded` | src/video/video_transport_handler.cpp:454-474 | Over any run the NACKs of one assembly are at least 50 ms apart, fall before its deadline, and number at most ceil(T/50 ms), 20 at the default. |
| `NackBudget.DuePollSends` | src/video/video_transport_handler.cpp:459-474 | A poll sends a NACK for a frame exactly when it is due, and every NACK names something. |
| `NackTiming.AskedInTime` | src/video/video_transport_handler.cpp:459-474 | In any run, a poll at which an unfinished assembly is 120 ms old, or has its marker packet, before its deadline leaves it with a NACK sent less than 50 ms ago. |
| `NackTiming.AskedRightly` | src/video/video_transport_handler.cpp:459-517 | Whatever a poll sends is for an assembly 120 ms old or whose marker packet has arrived, before its deadline, at least 50 ms after the NACK before, and names the sequence numbers of exactly the missing packets, each once. |
| `NackFreshness.NackAfterHandOver` | src/video/video_transport_handler.cpp:428-474 | In any run, between handing a frame on and a later NACK for it, a late copy has opened a new assembly. |
| `Witnesses.HandedOnAskedAgain` | src/video/video_transport_handler.cpp:359-474 | A run from the start in which a frame is handed on and then asked for. |
| `GivingUp.DueFrameResolved` | src/video/video_transport_handler.cpp:428-451 | In any run: if the frame that is due is in the buffer, then by the first drain after its deadline a frame has been emitted or synchronisation lost. |
| `GivingUp.UnseenWaits` | src/video/video_transport_handler.cpp:430-433 | If nothing of the due frame is in the buffer, drains and polls alone never emit or give up anything. |
| `Confluence.InterleavingConfluent` | src/video/video_transport_handler.cpp:305-452 | For consecutive frames of one epoch, complete in time and with room in the buffer (ids below 2^32 - 1), in any interleaving, repetition and batching: no synchronisation is lost if and only if the first packets of the frames arrive in frame order, and then exactly these frames leave, whole and in order, and the successor is next. |
| `Confluence.AssemblyConfluent` | src/video/video_transport_handler.cpp:305-324 | For one frame, id below 2^32 - 1 and successor unbuffered: every order, repetition and batching of its packets that is complete before the deadline emits the same single block and the same next id. |
| `ConfluenceLimits.ConfluentExactly` | src/video/video_transport_handler.cpp:428-451 | That holds for every schedule if and only if the successor frame is not already buffered and the id is not 2^32 - 1. |
| `ConfluenceLimits.BufferedSuccessorHappens` | src/video/video_transport_handler.cpp:399-426 | A run from the start ends with a frame due whose successor is buffered, and confluence fails there. |
| `ConfluenceLimits.LastIdHappens` | src/video/video_transport_handler.cpp:346-391 | A run from the start ends with id 2^32 - 1 due, and confluence fails there: a late copy after the wrap to 0 overflows the buffer. |
| `Resynchronisation.ResyncConfluent` | src/video/video_transport_handler.cpp:399-426 | An unsynchronised gate with no whole keyframe buffered (in the keyframe's epoch also: neither it nor its successor buffered, and room) regains synchronisation: every order, repetition and batching of a keyframe's packets, complete in time, emits exactly that keyframe and waits for its successor. |
| `Resynchronisation.AllFollow` | src/video/video_transport_handler.cpp:399-451 | The same with the frames behind it, interleaved, repeated and batched at will: started in order, in time and with two drains at the end, all of them leave if no drain finds a later one whole before the keyframe is. |
| `Restart.RestartExactly` | src/video/video_transport_handler.cpp:399-451 | If no packet arrives twice, exactly these frames leave if and only if no drain finds a later frame whole before the keyframe is. |
| `Witnesses.EarlyDeltaKept` | src/video/video_transport_handler.cpp:335-345 | A run from the start in which a delta frame arrives before its keyframe and both leave. |
| `GateLimits.KeepsSyncExactly` | src/video/video_transport_handler.cpp:326-392 | A packet leaves a synchronised gate synchronised if and only if it is usable, of the same epoch, and either fits its buffered frame or the buffered ids together with the ids from the due frame to its own number at most 64. |
| `GateLimits.OvertakingAbsorbedExactly` | src/video/video_transport_handler.cpp:346-391 | After a packet of a later frame and one of the due frame the gate is still synchronised if and only if it accepts the first and the due frame was under assembly before, with the same labels as the second. |
| `Witnesses.OvertakingHappens` | src/video/video_transport_handler.cpp:346-379 | A run from the start after which two packets keep synchronisation in frame order and lose it the other way round. |
| `GateLimits.PlaceholderRefuses` | src/video/video_transport_handler.cpp:373-379 | A placeholder is discarded, with synchronisation, by the first packet of its own frame. |
| `GateLimits.MismatchDiscards` | src/video/video_transport_handler.cpp:373-379 | A packet that differs from its frame in count or keyframe flag throws that frame away, no other, and ends synchronisation. |
| `Overflow.OverflowDropsOldest` | src/video/video_transport_handler.cpp:346-391 | When a packet overflows the buffer of 64, at most one buffered frame goes, below everything that stays; the packet's own frame is not kept if and only if the buffer was full of later frames. |
| `FarKeyframe.FarKeyframeLeaves` | src/video/video_transport_handler.cpp:326-426 | However wide the gap before it, a keyframe complete in time leaves an unsynchronised gate that has no trace of it and is not full of later frames. |
| `FarKeyframe.KeyframeAfterOutage` | src/video/video_transport_handler.cpp:326-426 | A synchronised gate that waits for a frame 64 or more ids back loses synchronisation with the keyframe's first packet and then hands the keyframe on. |
| `GateAccounts.ScanKeepsUsable` | src/video/video_transport_handler.cpp:399-426 | An unsynchronised drain with no whole keyframe keeps exactly what is neither whole nor overdue, and counts the rest as dropped. |
| `GateAccounts.ScanResumes` | src/video/video_transport_handler.cpp:399-426 | One that resumes keeps exactly what lies above the keyframe, and counts what below was whole or overdue. |
| `GateAccounts.GivesUpDue` | src/video/video_transport_handler.cpp:444-451 | A synchronised drain that finds the due frame overdue drops that frame alone, steps past it and ends synchronisation. |
| `GateAccounts.InvalidateForgets` | src/video/video_transport_handler.cpp:173-180 | Invalidation empties the buffer, forgets the due id and ends synchronisation; epoch and counters stay. |
| `GateAccounts.CountersTrue` | src/video/video_transport_handler.cpp:406-519 | Over any run the counters of complete frames and of NACKs are the numbers of frames handed on and NACKs sent. |
| `FrameReceiver.VideoTransportReceiver.Guarantees` | src/video/video_transport_handler.cpp:305-476 | After any calls the fields satisfy the buffer invariant and everything emitted so far is whole, decode-safe and acknowledged where due, the last event included. |
| `FrameReceiver.VideoTransportReceiver.constructor` | src/video/video_transport_handler.cpp:131-137 | Recovery time of at least 100 ms, in microseconds; starts empty and unsynchronised. |
| `FrameReceiver.VideoTransportReceiver.InvalidateSync` | src/video/video_transport_handler.cpp:173-180 | Is the invalidation step of the gate. |
| `FrameReceiver.VideoTransportReceiver.FillMissing` | src/video/video_transport_handler.cpp:346-357 | The gap loop equals its specification and takes at most 64 turns. |
| `FrameReceiver.VideoTransportReceiver.EvictOldest` | src/video/video_transport_handler.cpp:388-391 | The eviction loop equals its specification. |
| `FrameReceiver.VideoTransportReceiver.StorePacket` | src/video/video_transport_handler.cpp:359-391 | Opening, mismatch, slot filling and eviction; the slot index is always in range. |
| `FrameReceiver.VideoTransportReceiver.EnterEpochOf` | src/video/video_transport_handler.cpp:335-345 | A packet of another epoch restarts the gate at its own frame. |
| `FrameReceiver.VideoTransportReceiver.TakePacket` | src/video/video_transport_handler.cpp:326-392 | The whole packet step on the fields equals the specification. |
| `FrameReceiver.VideoTransportReceiver.ProcessReceiverPacket` | src/video/video_transport_handler.cpp:326-392 | Is one arrival step of the run, and sends nothing. |
| `FrameReceiver.VideoTransportReceiver.ScanForKeyframe` | src/video/video_transport_handler.cpp:399-426 | The iterate-and-erase scan equals the set-wise resynchronisation: state, emitted packets and acknowledgement. |
| `FrameReceiver.VideoTransportReceiver.OutputInOrder` | src/video/video_transport_handler.cpp:428-451 | The in-order loop equals its specification: state and emitted packets. |
| `FrameReceiver.VideoTransportReceiver.DrainCompleteFrames` | src/video/video_transport_handler.cpp:394-452 | Is one drain step of the run; what it returns is what the step adds to the output and control traces. |
| `FrameReceiver.VideoTransportReceiver.SendNack` | src/video/video_transport_handler.cpp:478-520 | The pairs for the missing packets, nothing when none is missing. |
| `GateInvariant.DueHasMissing` | src/video/video_transport_handler.cpp:461-489 | A frame that is due always lacks a packet, so its NACK is never empty. |
| `FrameReceiver.VideoTransportReceiver.PollFrames` | src/video/video_transport_handler.cpp:457-474 | The timer loop over the map equals its specification: timers, counter and messages in map order. |
| `FrameReceiver.VideoTransportReceiver.ReceiverPoll` | src/video/video_transport_handler.cpp:454-476 | Is one poll step of the run. |
| `FrameReceiver.VideoTransportReceiver.TakeIn` | src/video/video_transport_handler.cpp:308-318 | One arrival step for each media message, at its rank, with its metadata, sequence number, marker bit and own clock reading; each other message passed on at its rank. |
| `FrameReceiver.VideoTransportReceiver.ReceiverIncoming` | src/video/video_transport_handler.cpp:305-324 | A batch is those arrivals, one drain and one poll; the vector handed on is the other messages at their ranks followed by the emitted packets. |
| `GateOutput.FrameHandedOut` | src/video/video_transport_handler.cpp:401-438 | What is handed on for an emitted frame are its packets, in order, between those of the frames around it. |
| `GateOutput.MessageSent` | src/video/video_transport_handler.cpp:507-542 | What is sent for a NACK or acknowledgement of the run has its contents. |
| `GateOutput.NothingElseOut` | src/video/video_transport_handler.cpp:305-324 | Without an emitted frame nothing is handed on, without a NACK or acknowledgement nothing is sent. |
| `Nack.PackExact` | src/video/video_transport_handler.cpp:496-506 | Decoding the packed pairs gives exactly the missing sequence numbers, in order. |
| `Nack.DecodeMeans` | src/video/video_transport_handler.cpp:501-504 | A pair names its PID and, for each bit i of the BLP that is set, the packet i + 1 after it. |
| `Nack.MissingDistinct` | src/video/video_transport_handler.cpp:481-486 | No sequence number is listed twice. |
| `Nack.BitInRange` | src/video/video_transport_handler.cpp:501-504 | Every shift in the packing loop is by 0 to 15. |
| `Nack.PackOptimal` | src/video/video_transport_handler.cpp:495-506 | For frames of at most 65520 packets no set of pairs that names all missing packets is smaller. |
| `Nack.OptimalExactly` | src/video/video_transport_handler.cpp:495-506 | Packing is always minimal for frames of n packets if and only if n is at most 65520. |
| `Nack.PackSize` | src/video/video_transport_handler.cpp:495-506 | At most ceil(n/17) pairs for a frame of n packets. |
| `Nack.MissingSequences` | src/video/video_transport_handler.cpp:481-486 | The first loop lists the unreceived packets. |
| `Nack.PackSequences` | src/video/video_transport_handler.cpp:495-506 | The packing loop equals its specification and never shifts out of range. |
| `Nack.BuildNack` | src/video/video_transport_handler.cpp:478-506 | Both loops together; nothing to send when nothing is missing. |
| `HeaderExtension.AppendReadBack` | src/video/video_transport_handler.cpp:582-637 | After rewriting, the packet holds the old elements in order and then the new one. |
| `HeaderExtension.ElementsScan` | src/video/video_transport_handler.cpp:673-700 | A zero byte is skipped, an element is followed by the rest, id 15 and an overrunning element end the reading. |
| `Rtp.HeaderMeans` | src/video/video_transport_handler.cpp:78-99 | Where CSRC list, extension and payload stand, from the bytes of the packet. |
| `HeaderExtension.AppendKeepsPacket` | src/video/video_transport_handler.cpp:624-637 | Fixed header and CSRC list (but the X bit) and payload are unchanged, and the new extension parses. |
| `HeaderExtension.KeptLength` | src/video/video_transport_handler.cpp:587-603 | The scan loop finds where the last readable element ends. |
| `HeaderExtension.FindElement` | src/video/video_transport_handler.cpp:673-700 | The read loop finds the first element of an id and size. |
| `HeaderExtension.Pad` | src/video/video_transport_handler.cpp:620-622 | Zero padding to a multiple of four bytes. |
| `HeaderExtension.Rewrite` | src/video/video_transport_handler.cpp:563-637 | The in-place rewriting equals its specification. |
| `StampedPacket.ComposedExtensions` | src/video/video_transport_handler.cpp:548-702 | Transport-wide number, then metadata: both read back unless an earlier element of the same shape hides them, earlier elements keep their order, CSRCs, header fields and payload are unchanged. |
| `StampedPacket.MetadataRoundTrip` | src/video/video_transport_handler.cpp:640-702 | `read_frame_metadata` undoes `add_frame_metadata`. |
| `StampedPacket.MetadataLayout` | src/video/video_transport_handler.cpp:606-619 | The metadata element byte by byte. |
| `StampedPacket.MetadataMeans` | src/video/video_transport_handler.cpp:684-696 | What 12 bytes of metadata say: nothing unless the version is 1, else each field from its bytes. |
| `StampedPacket.ReadersLook` | src/video/video_transport_handler.cpp:640-702 | Which packets are read, and from which element; the transport-wide reader insists on version 2. |
| `StampedPacket.TwccLayout` | src/quality/media_statistics_handler.cpp:137-217 | The transport-wide element byte by byte. |
| `StampedPacket.NumberedMeans` | src/quality/media_statistics_handler.cpp:137-165 | Numbered are the RTP packets of version 2 without padding whose extension, if any, is one-byte; all others are left alone. |
| `StampedPacket.StampKeepsHeader` | src/video/video_transport_handler.cpp:624-637 | Stamping keeps marker, sequence number and payload, and the packet stays RTP. |
| `StampedPacket.AddFrameMetadata` | src/video/video_transport_handler.cpp:548-638 | In place; a packet it cannot rewrite stays as it was. |
| `StampedPacket.ReadFrameMetadata` | src/video/video_transport_handler.cpp:640-702 | First element of id 4 and 12 bytes, refused unless its version is 1. |
| `StampedPacket.WriteTwccExtension` | src/quality/media_statistics_handler.cpp:137-217 | In place; says whether a number was spent. |
| `StampedPacket.ReadTwccSequence` | src/quality/media_statistics_handler.cpp:228-280 | First element of id 3 and 2 bytes in a version-2 packet. |
| `Rtx.UnwrapEncapsulated` | src/video/video_transport_handler.cpp:79-114 | Unwrapping the encapsulation of any primary packet, with CSRCs and extension, gives it back byte for byte. |
| `Rtx.EncapsulatedIsRtx` | src/video/video_transport_handler.cpp:73-101 | The encapsulation is recognised, with the original sequence number where the handler looks for it. |
| `Rtx.UnwrapOnce` | src/video/video_transport_handler.cpp:73-77 | What comes out is not taken for a retransmission again. |
| `Rtx.SecondPassHarmless` | src/video/video_transport_handler.cpp:66-77 | A second pass changes nothing for every message if and only if the two streams differ in payload type or SSRC or the retransmission type is one of 64 to 95. |
| `Rtx.RtxReceivingHandler.UnwrapMessage` | src/video/video_transport_handler.cpp:69-115 | One message in place: bytes, stream and counter; anything else is untouched. |
| `Rtx.RtxReceivingHandler.Incoming` | src/video/video_transport_handler.cpp:66-117 | The whole batch in place, and the counter grows by the number of retransmissions. |
| `TwccFeedback.CountStatuses` | src/quality/media_statistics_handler.cpp:400-437 | For any buffer of at least 20 bytes the counts are those of expanding every chunk, cutting at the status count and counting zeros; together they never exceed the status count. |
| `TwccFeedback.CountVector` | src/quality/media_statistics_handler.cpp:422-436 | The symbol loop of a one-bit or two-bit vector chunk. |
| `TwccFeedback.ChunkLayout` | src/quality/media_statistics_handler.cpp:400-442 | Run length and symbol of a run, and the symbols of both kinds of vector from the highest bit on. |
| `TwccFeedback.RunsPartition` | src/quality/media_statistics_handler.cpp:313-332 | The chunks partition the range into non-empty runs that fit a chunk. |
| `TwccFeedback.RunsAlternate` | src/quality/media_statistics_handler.cpp:317-324 | Neighbouring chunks differ in status: the runs are maximal. |
| `TwccFeedback.FeedbackDecodes` | src/quality/media_statistics_handler.cpp:334-370 | The decoder reads back the flags the encoder wrote, and the RTCP length spans the packet. |
| `MediaStatistics.FeedbackRoundTrip` | src/quality/media_statistics_handler.cpp:290-370 | Whatever the samples, decoding the feedback gives `packet_count` packets, and as lost exactly those offsets whose sequence is not among the samples. |
| `MediaStatistics.ReportLayout` | src/quality/media_statistics_handler.cpp:334-370 | Format, type, SSRCs, reference time and feedback count byte by byte, and the padded length. |
| `MediaStatistics.ReportSpeaksTrue` | src/quality/media_statistics_handler.cpp:298-315 | For samples less than 2^15 apart the reported range runs from the first to the highest true number, and an offset is missing if and only if that true number is not among this report's samples. |
| `MediaStatistics.FindMaxSequence` | src/quality/media_statistics_handler.cpp:290-297 | The maximum by signed 16-bit difference. |
| `MediaStatistics.BuildChunks` | src/quality/media_statistics_handler.cpp:311-332 | The nested loops produce the maximal runs and the number of received packets. |
| `MediaStatistics.WriteHeader` | src/quality/media_statistics_handler.cpp:340-360 | The fixed part, field by field; the rest of the buffer is untouched. |
| `MediaStatistics.WriteChunks` | src/quality/media_statistics_handler.cpp:362-367 | The chunk words behind it, in order. |
| `MediaStatistics.WriteFeedback` | src/quality/media_statistics_handler.cpp:334-370 | All writes stay in the padded buffer, which then holds the specified packet. |
| `MediaStatistics.MediaStatisticsHandler.NumberPacket` | src/quality/media_statistics_handler.cpp:137-217 | The packet is rewritten with the next number; a packet that cannot carry one spends none. |
| `MediaStatistics.MediaStatisticsHandler.ObserveTwccExtension` | src/quality/media_statistics_handler.cpp:219-226 | A numbered packet is remembered, the oldest of more than 4096 forgotten; what is pending are always the latest arrivals. |
| `MediaStatistics.MediaStatisticsHandler.MaybeSendTwccFeedback` | src/quality/media_statistics_handler.cpp:282-374 | When a report is due, what is sent, and the state afterwards, in every case. |
| `FeedbackLoop.ShownLossExact` | src/quality/media_statistics_handler.cpp:290-443 | For three seconds after a report the loss shown is the share of the reported range whose numbers never arrived or arrived only before the previous report; it is the share that never arrived if and only if no earlier arrival lies in the range without having come in again. |
| `FeedbackLoop.HandlerLossExact` | src/quality/media_statistics_handler.cpp:219-374 | The same for a handler after any calls, with everything it has ever received as the history. |
| `FeedbackLoop.OvertakenCountsAsLost` | src/quality/media_statistics_handler.cpp:373-373 | 1, 2, 4 reported, then 3, 5: nothing is missing and 4 is reported as lost. |
| `Windows.PushAndTrim` | src/quality/network_quality_estimator.cpp:22-25 | Under a clock that never goes back, pushing and trimming leaves exactly the pushed samples of the last 2 s, in order. |
| `Windows.DropOldFilters` | src/quality/network_quality_estimator.cpp:164-169 | Popping only the front filters the whole window. |
| `Windows.Trim` | src/quality/network_quality_estimator.cpp:164-169 | The trimming loop. |
| `LossAccounting.Conservation` | src/quality/network_quality_estimator.cpp:34-52 | Expected counts sum to 1 plus highest minus first true number, and are the lost ones plus one per sample; the stored sequence is the highest modulo 2^16. |
| `LossAccounting.LostIsMissingAndLate` | src/quality/network_quality_estimator.cpp:34-48 | What is counted as lost are the numbers between first and highest that never came in, plus the distinct ones that came in only behind the highest of their time; true if and only if there are none of these. |
| `LossAccounting.Unwrapped` | src/quality/network_quality_estimator.cpp:36-44 | Such true numbers exist for every list of arrivals. |
| `LossAccounting.WindowLossRange` | src/quality/network_quality_estimator.cpp:239-251 | The loss of any window is at least 0 and below 100 percent. |
| `LossAccounting.Totals` | src/quality/network_quality_estimator.cpp:239-245 | The accumulation loop. |
| `LossAccounting.LocalLossPercent` | src/quality/network_quality_estimator.cpp:214-237 | The loop over raw sequence numbers. |
| `LossAccounting.RawLossExact` | src/quality/network_quality_estimator.cpp:219-236 | For true numbers less than 2^16 apart the locally computed media loss is the true one if and only if the raw numbers spread as far as the true ones; less than 2^15 apart, if and only if no 16-bit wrap falls inside the window, and otherwise it is too high. |
| `CompactNtp.CompactCountsTicks` | src/quality/network_quality_estimator.cpp:190-197 | The compact timestamp is floor(t·2^16/10^6) + 2208988800·2^16 modulo 2^32, for every t. |
| `CompactNtp.RttWithinOneTick` | src/quality/network_quality_estimator.cpp:80-81 | The wrapped difference is within one 1/65536 s tick of the true round-trip time, across 32-bit wrap. |
| `CompactNtp.RttMsAccurate` | src/quality/network_quality_estimator.cpp:76-86 | The milliseconds reported are that close too up to one minute, and 0 above it. |
| `CompactNtp.RttMsGuarded` | src/quality/network_quality_estimator.cpp:78-86 | The milliseconds are those of the wrapped ticks, and 0 without a sender report or above one minute. |
| `NetworkQualityEstimator.Estimator.OnRtpSent` | src/quality/network_quality_estimator.cpp:17-26 | Both sent windows hold the pushed samples of the last 2 s before their own trim, each trim on its own clock reading. |
| `NetworkQualityEstimator.Estimator.Measure` | src/quality/network_quality_estimator.cpp:34-48 | What an arrival contributes to the loss account. |
| `NetworkQualityEstimator.Estimator.CountArrival` | src/quality/network_quality_estimator.cpp:34-52 | Loss samples and last sequence are those of all arrivals so far; the loss window holds the recent ones. |
| `NetworkQualityEstimator.Estimator.OnRtpReceived` | src/quality/network_quality_estimator.cpp:28-58 | The same for both received windows together with the loss account, on four clock readings. |
| `NetworkQualityEstimator.Estimator.OnRtcp` | src/quality/network_quality_estimator.cpp:60-70 | The RTCP window, fed from both directions, trimmed on a later reading than the push. |
| `NetworkQualityEstimator.Estimator.OnReceiverReport` | src/quality/network_quality_estimator.cpp:72-94 | The stored report. |
| `NetworkQualityEstimator.Estimator.TransportLossReport` | src/quality/network_quality_estimator.cpp:118-129 | The window is trimmed, and expected is lost plus one per sample in it. |
| `NetworkQualityEstimator.Estimator.LossBalance` | src/quality/network_quality_estimator.cpp:206-212 | In every reachable state the loss window balances. |
| `NetworkQualityEstimator.Estimator.TransportLossPercent` | src/quality/network_quality_estimator.cpp:131-159 | The fresh remote report if there is one, the local window otherwise; in every reachable state a percentage between 0 and 100, whatever the peer reported. |
| `NetworkQualityEstimator.ShownMeans` | src/quality/network_quality_estimator.cpp:131-159 | The loss of the peer's report while it is less than 3 s old and counted anything, that of the local window otherwise. |
| `NetworkQualityEstimator.ObserveTwccFeedback` | src/quality/media_statistics_handler.cpp:383-443 | What the decoder counts reaches the estimator; an empty report changes no loss. |
| `VideoAdaptation.VideoAdaptationController.constructor` | src/quality/video_adaptation.cpp:20-22 | The bit-rate cap is clamped to 150–2000; starts at level 0. |
| `VideoAdaptation.VideoAdaptationController.Update` | src/quality/video_adaptation.cpp:24-66 | Level, counter and profile after an update equal the specification's. |
| `VideoAdaptation.UpdateMeans` | src/quality/video_adaptation.cpp:24-66 | The level rises if and only if some measurement is over the limit of a higher level, then to the highest such; it falls by one if and only if all are relaxed for the fifth time in a row. |
| `VideoAdaptation.FallsAfterFive` | src/quality/video_adaptation.cpp:52-63 | Over any run, before the level falls it has stood still through five relaxed updates in a row. |
| `VideoAdaptation.LadderIs` | src/quality/video_adaptation.cpp:7-13 | Bit rate, frame rate and size of each level under the configured limit. |
| `VideoAdaptation.RunKeeps` | src/quality/video_adaptation.cpp:24-66 | Over any run the level is in 0..4 and never below what the last update demands. |
| `VideoAdaptation.RecoveringNotRequired` | src/quality/video_adaptation.cpp:29-55 | Quality good enough to leave a level never demands that level: the thresholds do not overlap. |
| `VideoAdaptation.NextBehind` | src/quality/video_adaptation.cpp:49-62 | The simulation step: lower on the ladder, or on the same rung and no nearer to leaving it. |
| `VideoAdaptation.WorseNetworkBehind` | src/quality/video_adaptation.cpp:24-66 | From the same start, pointwise no better quality yields a level at least as high after every run. |
| `VideoAdaptation.WorseNetworkWorseProfile` | src/quality/video_adaptation.cpp:68-74 | So bit rate, frame rate and picture size are at most the other's after every update. |
| `VideoAdaptation.Converges` | src/quality/video_adaptation.cpp:49-62 | Constant quality reaches a fixed state, known in advance, after at most 20 updates. |
| `VideoAdaptation.ConvergesLast` | src/quality/video_adaptation.cpp:49-62 | And no sooner than the stated number of updates. |
| `VideoAdaptation.NeverOscillates` | src/quality/video_adaptation.cpp:49-62 | Under constant quality the level rises once and stays, or only falls, a level at a time. |
| `VideoAdaptation.FiveUpdatesPerRung` | src/quality/video_adaptation.cpp:52-59 | While recovering each level takes five updates. |

## Left out

- FFmpeg, SDL and file handling: foreign calls decide everything; payloads are opaque bytes.
- Sockets, SDP and ICE, start-up and the send and recovery threads: plumbing around single-branch rate limits.
- Locks, callbacks and atomics: each locked section is one atomic step; sending and callbacks are results and traces.
- libdatachannel, which is not part of this model: its demultiplexing test follows section 4 of RFC 5761, its NACK layout
  section 6.2.1 of RFC 4585 with the given SSRC in both SSRC fields, and packets within a frame are numbered
  consecutively where a statement says so.
- Several clock readings inside one packet's step: its placeholders and its assembly share one.
- The same message object twice in one vector, and null messages: the in-place methods take distinct objects.
- 64-bit statistics counters and 32-bit sums of loss samples: unbounded here.
- Bit rate, jitter and the rest of `snapshot`: floating-point averages of the windows modelled here.
- IEEE rounding and NaN in the adaptation thresholds and the reported milliseconds.
- ComposedExtensions: says nothing about a packet the first writer refuses (padding, wrong version, another profile) or a
  result too long for the 16-bit length field; the writers' behaviour on those is in `Append` and `WriteTwcc`.
- Integrity: assumes fewer than 2^32 frames, as ids repeat after that, and media packets on which the stamp can be read
  back (`Stampable`).
- Eventual recovery under loss: the keyframe acknowledgement is sent once and never repeated, so the code promises none.
- Which packet a keyframe request answers: the callbacks are reported as due, what they trigger is not modelled.
- Which message reaches which counter: the dispatch in `observe_incoming`, `observe_outgoing`, `observe_rtp` and
  `observe_rtcp` sorts by packet type and is not modelled; the operations behind it are.
