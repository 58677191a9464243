# Verification of the routeweaver message channel, manifest tree and peer text

This project models three parts of routeweaver in Dafny and proves what they are for.

**The message channel** (`daemon/src/channel`). A message is encoded, perhaps compressed, and cut into a
head and up to 512 bodies of 63 KiB. The sender offers what is unconfirmed of its front message over and
over, and retires the message when all of it has been reported as received. The receiver reassembles up
to 16 messages at a time in a ring of slots that are found by 16-bit wrapping ids, and hands messages on
strictly in order. The main results are about all runs:

- in every run over a network that loses, repeats and reorders segments and reports, what the receiver
  hands on is a prefix of what was queued (`EndToEnd.DeliveryIsSafe`), with sender and receiver never more
  than one message apart (`EndToEnd.Lockstep`), through any number of id wrap-arounds;
- from every state of every such run, some continuation delivers and retires everything
  (`Liveness.NothingIsEverStuck`);
- when reports say exactly what has arrived and do not overtake each other, what the sender offers of its
  front message never grows (`OrderedReports.UnconfirmedNeverGrows`), every round that gets something new
  through makes it smaller (`OrderedReports.RoundShrinksUnconfirmed`), and the work left for the whole queue
  is a measure that pays for every step that advances (`OrderedReports.WorkIsMeasure`);
- in every run of the sender's loop each turn puts out exactly the segments of the front message that were
  not reported, in order and under its id, or a request for a channel (`Outgoing.EveryTurnPutsOut`);
- the slot of a message depends only on the set of its segments that have arrived
  (`Confluence.ReassemblyIsConfluent`), and on no other message, whatever segments arrive
  (`Interference.SlotsDoNotInterfere`);
- sent-notices to one destination go out at most once and before their message is retired
  (`Notices.NoticesAreSentOnceBeforeRetirement`), exactly when a report confirms all of it
  (`Notices.OnlyConfirmationNotifies`), and then the receiver has handed it on
  (`Receipts.NotifiedMeansDelivered`); with several destinations notices can be lost or go to the wrong
  waiter (`Destinations.SecondDestinationTakesNotice`, `Destinations.OthersConfirmationNotifies`), and a run
  is safe from both exactly when each of its messages is written under a clean id
  (`SharedTable.SafeExactlyWhenClean`).

**The manifest tree** (`services/file-sharing/src/manifest.rs`): creating, looking up and listing entries,
and the breadth-first walk.

**The peer text format** (`common/src/lib.rs`): printing and parsing of peers.

## Layout

| file | contents |
|---|---|
| `Packet.dfy` | constants and types of the protocol, arithmetic on wrapping ids |
| `Fragments.dfy` | how a payload is cut into bodies |
| `Reassembly.dfy`, `Limits.dfy`, `Confluence.dfy` | one slot of the window: its operations as functions, what arbitrary segments do to it, and its canonical form under honest segments |
| `Codecs.dfy` | messages, and the encodings they pass through |
| `Windows.dfy`, `Interference.dfy`, `Delivery.dfy` | the window of 16 slots; runs over arbitrary segments; runs over honest ones |
| `SenderQueue.dfy` | the sender as a queue of trackers |
| `EndToEnd.dfy`, `Liveness.dfy` | the channel as a transition system, its safety and its progress |
| `OrderedReports.dfy` | the channel with exact reports in order |
| `LateArrivals.dfy`, `OldSegments.dfy`, `Oversize.dfy` | what goes wrong beyond the bounds: reports or segments that come too late, messages with too many bodies |
| `Notices.dfy`, `Receipts.dfy` | the sender's loop with its sent-notices for one destination; the channel together with them |
| `Outgoing.dfy`, `Backchannel.dfy` | what the sender's loop puts out, against a plain account by message numbers; a report's way through reader and writer |
| `Destinations.dfy`, `SharedTable.dfy` | the sender's loop for several destinations; the runs in which the table of sent-notices that they share does no harm |
| `Assembler.dfy`, `Disassembler.dfy`, `Reader.dfy`, `Writer.dfy` | the classes, loops and in-place updates of the source, proved against the functions above |
| `Tree.dfy`, `Walk.dfy`, `Manifest.dfy` | the manifest |
| `Peers.dfy`, `Text.dfy`, `PeerText.dfy`, `PeerForms.dfy` | peers and their text; exactly which texts are which peers |

The functions over values say what an operation does; the classes do it in the form of the source, and
each of their methods ends in the state that the function gives. The lemmas are about the functions, so
they hold of the classes.

## Modelling decisions

- **Ids of new messages.** `daemon/src/channel/disassembler.rs:63` computes the next id, but the counter
  is never stored, so every message gets id 1 while the sender waits for id 0. Both are modelled.
  `SenderQueue.EnqueueAsWritten` follows the code, and `SenderQueue.NothingIsEverOfferedAsWritten` and
  `SenderQueue.QueueAsWrittenIsInOrderExactlyWhenEmpty` prove what follows: nothing is ever sent, and the
  queue is in order exactly as long as it is empty. `SenderQueue.Enqueue` gives out 0, 1, 2 and so on, as
  the tests of that file call for (lines 165-188 and 242-292); all other results are about this one.
- **The ring** is exactly 16 optional slots, and an index of 16 or more finds none. The source relies on
  this (`daemon/src/channel/assembler.rs:61`, `:88` and the test at 379-400); how the ring buffer library
  indexes is not part of this model.
- **Panics.** A body whose index exceeds the 512 flags can make the assembler panic. The model keeps such
  segments and says exactly which of them panic (`Limits.PanicsExactly`).
- **Size.** For delivery, a message has at most 512 bodies, which the receiver can take but the sender does
  not check. The bound is exact: for a larger message, the head and the first 512 bodies in the order they
  are offered already make it finished, with zeros in place of the rest (`Oversize.LargeMessageIsCutShort`,
  `Oversize.FinishedMeansCompleteExactly`); in other orders it can panic (`Limits.PanicsExactly`). The
  sender's own operations are modelled up to the 65535 bodies that its counter can hold.
- **Ambiguous ids.** The network keeps everything for ever, so a segment could come up again after its id
  has been given out anew. It is assumed to arrive only while the message is at most 65520 messages older
  than the receiver's current one, and a report only while at most 65536 messages have been queued since
  and including its own (`EndToEnd.Timely`). `Delivery.LandsInWindowExactly`, `Delivery.TooOldIsTakenForNew`
  and `EndToEnd.ReportPosition` show that these are exactly the bounds within which what is old is ignored.
  One message beyond them safety is lost: a report that late retires an undelivered message
  (`LateArrivals.LateReportRetiresUndelivered`), and for every stream, segments that old make the receiver
  hand their message on again, behind the stream (`OldSegments.OneTooOldIsHandedOnAgain`). A run of the whole
  channel in which that happens is given for segments a full turn of ids late
  (`LateArrivals.LateSegmentsAreHandedOn`).
- **Sent-notices** of all destinations are in one table, keyed by message id alone
  (`daemon/src/channel/writer.rs:125`). `Destinations` follows the code. A write is clean when nobody waits
  under the new message's id and, if somebody is going to wait for it, no other destination still has a
  message under that id after the service that follows. Clean writes keep all that holds of one destination
  (`SharedTable.CleanRunsNotifyTheRightOnes`); after clean ones, the first write that is not clean loses a
  waiter, or the next report can notify the wrong one (`SharedTable.SafeExactlyWhenClean`). Waiters are
  assumed to be distinct, as the channels that stand for them are.
- **No channel to a destination.** Whether there is one is an input. Without one the reader skips the segment
  and the writer sends nothing of what is offered; each asks for a channel instead. The writer still retires
  a confirmed front message then, as the code does.
- **Progress reports** are only handled, never emitted, by the code, so their emission is a step of the
  environment, which may report anything that is committed or handed on, or less than that.
- **Encodings.** The serialisation, the compression and the choice to compress are parameters. The first
  two can be undone and give non-empty results (`Codecs.Lossless`); the choice is arbitrary. A buffer that
  does not decompress or decode is handled as in the source. A buffer that does not decompress moves the
  window but not the current id: messages behind it are then found under the id of their predecessor, and go
  out under it (`Windows.FailureMisplacesSuccessors`). Two segments are enough
  (`Interference.TwoSegmentsMakeIdLag`), and over any run the id is right exactly when the number of such
  failures is a multiple of 65536 (`Interference.IdFollowsWindowExactly`).
- **Confirmed bodies** are a set of indices; that the source keeps them as ranges makes no difference to it.
- **The peer format** has the address family `ip`, as the code has it; the tests of `common/src/lib.rs` that
  write `ipv4` and `ipv6` do not agree with it. Lower-casing a protocol name is done on ASCII letters: no
  other character becomes a letter of a protocol name. The text of IPv6 addresses is a parameter that can
  be read back, and has colons and no slash.
- **Paths** of the manifest are sequences of plain names.

## Model

| member | source | states |
|---|---|---|
| Packet.IdDistance | daemon/src/channel/assembler.rs:59 | seen through 16-bit ids, a message ahead is at its true distance and one behind at a full turn less its age |
| Fragments.BodyCountIsCeiling | daemon/src/channel/disassembler.rs:62 | the body count is the least number of full bodies that hold the payload |
| Fragments.FragmentLengths | daemon/src/channel/disassembler.rs:117-132 | no body is empty or too long, all but the last are full, and each is its stretch of the payload |
| Fragments.FragmentsFlattenToPayload | daemon/src/channel/disassembler.rs:117-132 | the bodies back to back are the payload |
| SenderQueue.UnconfirmedBodiesExactly | daemon/src/channel/disassembler.rs:117-132 | the loop offers each unconfirmed body once, with its own data, in increasing order |
| SenderQueue.OffersExactly | daemon/src/channel/disassembler.rs:106-132 | the head is offered first and exactly when unconfirmed, and besides it exactly the unconfirmed bodies, in increasing order |
| SenderQueue.NothingOfferedExactlyWhenConfirmed | daemon/src/channel/disassembler.rs:134-139 | retirement happens exactly when `is_message_confirmed` would hold |
| SenderQueue.FreshOffersAreTheMessage | daemon/src/channel/disassembler.rs:52-77 | a new message is offered as its head and `ceil(len / P)` bodies that make up its payload, all but the last full |
| SenderQueue.EnqueueAppends | daemon/src/channel/disassembler.rs:52-77 | a message joins the end of the circular interval of ids exactly while an id is free |
| SenderQueue.EnqueueOnFullQueueReplacesFront | daemon/src/channel/disassembler.rs:65-74 | with all 65536 ids in use a new message overwrites the one at the front |
| SenderQueue.ReportUpdatesOne | daemon/src/channel/disassembler.rs:79-94 | a report overwrites the confirmations of the one message with its id, and is ignored when that id is not queued |
| SenderQueue.StatusUpdatesOne | daemon/src/channel/disassembler.rs:79-94 | each of the two status calls alone overwrites its own half of the one tracker with the id |
| SenderQueue.PayloadsServesFront | daemon/src/channel/disassembler.rs:106-145 | only the front is offered, it is retired exactly when confirmed, and messages retire in queue order |
| SenderQueue.NothingIsEverOfferedAsWritten | daemon/src/channel/disassembler.rs:63 | as written, after any calls every message has got id 1 and nothing is offered or retired |
| SenderQueue.QueueAsWrittenIsInOrderExactlyWhenEmpty | daemon/src/channel/disassembler.rs:52-77 | as written, the ids form an interval from the front on if and only if no message was queued |
| Reassembly.HeadStep | daemon/src/channel/assembler.rs:58-83 | after any head the buffer has the size that totals, largest index and last length call for |
| Reassembly.BodyStep | daemon/src/channel/assembler.rs:85-166 | the same after any body, honest or not, that does not panic; the size computation never underflows |
| Limits.PanicsExactly | daemon/src/channel/assembler.rs:105-164 | the exact condition on slot, index and length for `body` to panic; never with an index below 512 |
| Limits.KeepsExactlyWhatAgrees | daemon/src/channel/assembler.rs:94-161 | a body is kept if and only if its index and length agree with the total and the last length known; otherwise the slot is discarded |
| Limits.BodyWritesItsChunkOnly | daemon/src/channel/assembler.rs:104-164 | a kept body fills its own chunk and sets its own flag, changes no other byte or flag, and teaches the slot just what its length and index reveal |
| Limits.HeadKeepsWhatIsThere | daemon/src/channel/assembler.rs:67-81 | a head discards the slot exactly when it announces fewer bodies than are known; otherwise all bytes and flags stay |
| Limits.ChunkExists | daemon/src/channel/assembler.rs:151-155 | the chunk that `nth(index).unwrap()` asks for exists |
| Limits.StepStaysWithinBounds | daemon/src/channel/assembler.rs:58-166 | segments within 512 bodies never panic and keep totals and indices within 512 |
| Limits.BufferIsBounded | daemon/src/channel/assembler.rs:139-149 | a slot within those limits buffers at most 512 full bodies |
| Confluence.HeadIsConfluent | daemon/src/channel/assembler.rs:58-83 | an honest head takes the canonical slot for what has arrived to the canonical slot with the head |
| Confluence.BodyIsConfluent | daemon/src/channel/assembler.rs:85-166 | an honest body takes it to the canonical slot with that body, through every resize up or down, and is never discarded |
| Confluence.ReassemblyIsConfluent | daemon/src/channel/assembler.rs:58-166 | after any sequence of honest segments the slot is the canonical one for the set of them |
| Confluence.SameSegmentsSameSlot | daemon/src/channel/assembler.rs:58-166 | order and repetition of segments make no difference to the slot |
| Confluence.FinishedExactlyWhenComplete | daemon/src/channel/assembler.rs:168-188 | a message is finished if and only if its head and all bodies have arrived, and its buffer is then its payload |
| Confluence.FullSendFinishes | daemon/src/channel/assembler.rs:168-207 | the same for any sequence of honest segments from an empty slot on |
| Oversize.LargeMessageIsCutShort | daemon/src/channel/assembler.rs:168-188 | a message of more than 512 bodies is finished after its head and first 512 bodies, and its buffer is then the payload if and only if the rest is zeros and the last body full |
| Oversize.FinishedMeansCompleteExactly | daemon/src/channel/assembler.rs:168-188 | over all honest sequences, finished means complete if and only if the message has at most 512 bodies |
| Codecs.EncodedAsChosen | daemon/src/channel/disassembler.rs:53-60 | a message is sent compressed if and only if its serialisation is worth it, and as that serialisation otherwise |
| Codecs.EncodeThenInflate | daemon/src/channel/disassembler.rs:53-60 | whichever way the choice to compress goes, the receiver's steps undo the encoding |
| Windows.TakeExactly | daemon/src/channel/assembler.rs:190-215 | of any window: nothing happens before the front is finished; then the slots move up, the id moves by one if and only if the buffer decompresses, and a message comes out if and only if that also decodes |
| Windows.FinishedAtExactly | daemon/src/channel/assembler.rs:168-188 | an id is finished if and only if it is one of the next 16 and its slot is |
| Windows.DrainTakesUntilNone | daemon/src/channel/reader.rs:68-70 | the drain loop hands on what takes yield up to the first that yields none, whatever is finished behind it |
| Windows.IdMovesWithWindowExactly | daemon/src/channel/assembler.rs:190-207 | the current id moves with the window if and only if no finished buffer fails to decompress |
| Windows.FailureMisplacesSuccessors | daemon/src/channel/assembler.rs:190-207 | after such a failure, segments with a message's id are mixed into the slot of the one behind it, whose payload goes out under the wrong id |
| Interference.IdLagsByFailures | daemon/src/channel/assembler.rs:190-207 | in every run of takes and arrivals the current id lags behind the number of messages taken by the number of failed decompressions; a message that does not decode never shifts it |
| Interference.IdFollowsWindowExactly | daemon/src/channel/assembler.rs:190-207 | in every run the id is that of the next message if and only if the failures so far are a multiple of 65536 |
| Interference.TwoSegmentsMakeIdLag | daemon/src/channel/assembler.rs:196-204 | the head and body of one message that does not decompress leave a new receiver's id one behind |
| Interference.UndecodableIsPassedOver | daemon/src/channel/assembler.rs:209-215 | a first message that does not decode is lost and leaves the receiver waiting for id 1 with an empty window |
| Interference.SlotsDoNotInterfere | daemon/src/channel/assembler.rs:58-207 | in every run over arbitrary segments, failed decompressions included, each slot is what the segments addressed to it alone make of an empty slot |
| Interference.ResendAfterDiscardCompletes | daemon/src/channel/assembler.rs:403-427 | after a discard, whatever led to it, a full honest resend completes the message |
| Interference.ResendInRunCompletes | daemon/src/channel/assembler.rs:403-427 | after any run that leaves a message's slot empty, a full honest resend finishes it, whatever else arrives or is taken in between |
| Interference.ResendChangesOneSlot | daemon/src/channel/assembler.rs:403-427 | and when nothing else arrives in between, every other slot and the id stay as they were |
| Interference.BufferingIsBounded | daemon/src/channel/assembler.rs:8-9 | every run of segments within 512 bodies, honest or not, goes on without a panic and buffers at most 16 times 512 full bodies |
| Interference.NeverPanicsBelowFlags | daemon/src/channel/assembler.rs:105-164 | no run panics while bodies have indices below 512, whatever heads announce |
| Interference.FirstIndexPastFlagsPanics | daemon/src/channel/assembler.rs:149-161 | on a new receiver a full body with index 512 does panic |
| Delivery.LandsInWindowExactly | daemon/src/channel/assembler.rs:59-64 | a segment gets into the window exactly when its message is among the next 16, or more than 65520 old |
| Delivery.OutsideWindowIsIgnored | daemon/src/channel/assembler.rs:86-91 | segments of the last 65520 messages handed on, and of those 16 to 65535 ahead, change nothing |
| Delivery.TooOldIsTakenForNew | daemon/src/channel/assembler.rs:58-64 | one message older, and the head of a message handed on long ago does get in |
| Delivery.TakeIsFaithful | daemon/src/channel/assembler.rs:190-215 | `next_message` returns the next message of the stream unaltered as soon as it is complete, and nothing before |
| Delivery.FinishedAtIsComplete | daemon/src/channel/assembler.rs:168-188 | for every message in reach, `is_finished` holds of its id if and only if it is one of the next 16 and complete |
| Delivery.DrainIsFaithful | daemon/src/channel/reader.rs:68-70 | the drain loop hands on all complete messages at the front, in order, and stops at the first incomplete one |
| Delivery.DeliverIsFaithful | daemon/src/channel/reader.rs:38-70 | one honest segment and the drain loop never panic and keep the handed-on messages a prefix of the stream |
| Delivery.DeliveryIsInOrder | daemon/src/channel/assembler.rs:168-207 | in every interleaving of honest segments what is handed on is a prefix of the stream, across id wrap-arounds |
| Delivery.DeliveredIsLongestCompletePrefix | daemon/src/channel/reader.rs:68-70 | exactly the messages before the first incomplete one have been handed on |
| EndToEnd.RetiredMessageIsDelivered | daemon/src/channel/disassembler.rs:134-138 | a message about to be retired has been handed on |
| EndToEnd.TruthfulReportIsSound | daemon/src/channel/reader.rs:51-65 | what a truthful report claims has really arrived |
| EndToEnd.ReportPosition | daemon/src/channel/disassembler.rs:79-94 | a report about a retired message is ignored if and only if its id has not been given out again; one about a queued message finds it |
| EndToEnd.ReportFindsItsMessage | daemon/src/channel/disassembler.rs:79-94 | a report, however late, reaches its own message or none |
| EndToEnd.DeliveryIsSafe | daemon/src/channel/reader.rs:38-70 | in every run of the channel the messages handed on are a prefix of those queued, and the receiver never panics |
| EndToEnd.Lockstep | daemon/src/channel/disassembler.rs:106-141 | in every run the receiver is at the sender's front message or one ahead, and all that is offered is of that front message |
| EndToEnd.QueueIsOneInterval | daemon/src/channel/disassembler.rs:44-49 | in every run the map holds exactly the messages that are not retired, at consecutive ids, each with its own encoding |
| LateArrivals.LateReportRetiresUndelivered | daemon/src/channel/disassembler.rs:79-141 | a run of 65537 messages after which a report about the first, delivered late, makes the sender retire the last undelivered |
| OldSegments.OneTooOldIsHandedOnAgain | daemon/src/channel/assembler.rs:58-64 | for every stream of 65536 messages, segments of the first that arrive when it is 65521 old, and otherwise timely ones, make the receiver hand the first message on again behind the stream |
| LateArrivals.LateSegmentsAreHandedOn | daemon/src/channel/assembler.rs:58-64 | a run of 65536 messages after which the late segments of the first are handed on as a message that nobody queued |
| Liveness.OutstandingIsWhatIsMissing | daemon/src/channel/disassembler.rs:106-132 | after an exact report exactly the segments that have not arrived are offered |
| Liveness.ArrivalShrinksOutstanding | daemon/src/channel/disassembler.rs:106-132 | each arrival removes its segment, and no other, from what a tracker offers after an exact report; a new one makes it strictly smaller |
| OrderedReports.RecordCanBeReported | daemon/src/channel/reader.rs:51-65 | in every state what has arrived of any queued message can be reported exactly |
| OrderedReports.ReportShrinksOffers | daemon/src/channel/disassembler.rs:79-94 | a report that was not overtaken makes its message's offers fewer or leaves them as they are |
| OrderedReports.UnconfirmedNeverGrows | daemon/src/channel/disassembler.rs:85-141 | in every run with exact reports in order, the set that `payloads` offers never grows while the same message is at the front |
| OrderedReports.RoundTakesAway | daemon/src/channel/disassembler.rs:106-141 | one `payloads`, the arrival of any of its segments and an exact report leave the sender offering exactly what has not arrived, and none of those |
| OrderedReports.RoundShrinksUnconfirmed | daemon/src/channel/disassembler.rs:106-141 | in every state of every such run, a round that gets at least one offered segment through makes the offered set strictly smaller |
| OrderedReports.StepDoesWork | daemon/src/channel/disassembler.rs:79-141 | each step that retires the front or changes what is offered of it costs work, and only a new message adds some |
| OrderedReports.WorkIsMeasure | daemon/src/channel/writer.rs:45-119 | over every such run the steps that advance are at most as many as the work queued less the work left, which is none exactly when all is retired |
| Liveness.RoundRetiresFront | daemon/src/channel/disassembler.rs:79-141 | delivering all that one `payloads` offers hands the message on, and a truthful report makes the next `payloads` retire it |
| Liveness.QueueCanBeEmptied | daemon/src/channel/writer.rs:45-119 | rounds that get through deliver and retire the whole queue |
| Liveness.NothingIsEverStuck | daemon/src/channel/writer.rs:45-119 | from every state of every run some continuation delivers and retires all that is queued |
| Notices.ReportKeepsNotices | daemon/src/channel/writer.rs:147-159 | a report that confirms all of a message notifies whoever waits for it, and nobody else |
| Notices.RetireKeepsNotices | daemon/src/channel/disassembler.rs:134-138 | nobody waits for a message that is retired |
| Notices.NoticesAreSentOnceBeforeRetirement | daemon/src/channel/writer.rs:123-160 | in every run, even when reports regress, each notice is sent at most once and before its message is retired; pending ones belong to queued, unconfirmed messages |
| Outgoing.LoopAgrees | daemon/src/channel/writer.rs:45-160 | in every run the sender's queue is the one that an account of written, reported and retired messages by number calls for |
| Outgoing.EveryTurnPutsOut | daemon/src/channel/writer.rs:71-117 | in every run each turn puts out one segment for each unreported part of the front message, in order, under its id and of that message; without a channel one request for one; nothing when nothing is missing |
| Outgoing.NewMessageGoesOutEncoded | daemon/src/channel/disassembler.rs:52-77 | of a new message a head goes out that says whether it is compressed, which it is if and only if that is worth it, and bodies that make up its serialisation, compressed or not |
| Receipts.SentIsInFlight | daemon/src/channel/writer.rs:76-107 | what the loop sends with a channel is what the channel's step puts in flight, and without one it sends nothing |
| Backchannel.RelayReport | daemon/src/channel/reader.rs:51-65 | a progress segment taken by the reader and the request it passes on, handled by the writer, apply exactly the report's own id, head and bodies |
| Backchannel.RelayIsReportArrives | daemon/src/channel/writer.rs:139-160 | that is the channel's step for an arriving report, and changes no window |
| Notices.OnlyConfirmationNotifies | daemon/src/channel/writer.rs:147-159 | in every run an event notifies if and only if it is a report that leaves a message confirmed whose waiter was not notified before, and notifies that waiter alone |
| Receipts.NotifiedMeansDelivered | daemon/src/channel/writer.rs:147-159 | in every run of the channel with truthful reports the writer's loop has the channel's sender, whoever was notified waited for a message that the receiver has handed on, and nobody is notified twice or left out at retirement |
| Destinations.OneDestinationHasItsOwnTable | daemon/src/channel/writer.rs:45-160 | over every run of events that all concern one destination, its queue, the table and the notices are those of the loop for one destination |
| Destinations.WriteKeepsOthersWaitingExactly | daemon/src/channel/writer.rs:133-135 | a write that somebody waits for leaves everybody waiting who did if and only if nobody, at any destination, waits under the same id |
| Destinations.SecondDestinationTakesNotice | daemon/src/channel/writer.rs:123-160 | the first messages to two destinations: one waiting sender is forgotten, and its confirmation notifies the other |
| Destinations.OthersConfirmationNotifies | daemon/src/channel/writer.rs:123-160 | the first messages to two destinations in either order, one with a waiting sender: the confirmation of the other message notifies it |
| SharedTable.CleanIsSafe | daemon/src/channel/writer.rs:123-160 | a clean write forgets nobody, and no report after it notifies anybody for another's message |
| SharedTable.UncleanIsUnsafe | daemon/src/channel/writer.rs:123-160 | a write that is not clean forgets somebody, or there is a next report that notifies the wrong one |
| SharedTable.SafeExactlyWhenClean | daemon/src/channel/writer.rs:45-160 | a run over any destinations never forgets a waiter nor gets where a report notifies the wrong one, if and only if all its writes are clean |
| SharedTable.CleanRunsNotifyTheRightOnes | daemon/src/channel/writer.rs:45-160 | in every run of clean writes each waiter is notified at most once and by the time its own message is retired, and is in the table until then |
| Assembler.PendingMessage.Head | daemon/src/channel/assembler.rs:67-81 | the in-place update of an entry, or its discard, is `HeadStep` |
| Assembler.PendingMessage.Body | daemon/src/channel/assembler.rs:94-161 | the in-place update of an entry, its discard or the panic is `BodyStep` |
| Assembler.PendingMessage.Place | daemon/src/channel/assembler.rs:139-164 | resizing the buffer, copying the chunk and setting the flag |
| Assembler.MessageAssembler.constructor | daemon/src/channel/assembler.rs:44-55 | a new assembler is the empty window at id 0 |
| Assembler.MessageAssembler.Head | daemon/src/channel/assembler.rs:58-83 | updates at most the slot of the id, as the window function says |
| Assembler.MessageAssembler.Body | daemon/src/channel/assembler.rs:85-166 | the same for a body, and panics exactly when the function does |
| Assembler.MessageAssembler.IsFinished | daemon/src/channel/assembler.rs:168-188 | the scan of the flags decides whether the message with the id is finished |
| Assembler.MessageAssembler.Next | daemon/src/channel/assembler.rs:190-207 | shifts the ring, inflates and advances the id, including the exit on a failed decompression |
| Assembler.MessageAssembler.NextMessage | daemon/src/channel/assembler.rs:209-215 | the same with decoding, including the exit on a failed one |
| Disassembler.MessageDisassembler.Message | daemon/src/channel/disassembler.rs:52-77 | encodes and queues the message under the next id |
| Disassembler.MessageDisassembler.MessageAsWritten | daemon/src/channel/disassembler.rs:52-77 | the same with the counter left as it was |
| Disassembler.MessageDisassembler.HeadStatus | daemon/src/channel/disassembler.rs:79-83 | overwrites one tracker's head confirmation and nothing else |
| Disassembler.MessageDisassembler.BodyStatus | daemon/src/channel/disassembler.rs:85-94 | replaces one tracker's confirmed bodies and nothing else |
| Disassembler.MessageDisassembler.IsMessageConfirmed | daemon/src/channel/disassembler.rs:96-104 | true exactly when the head and every body index are confirmed |
| Disassembler.MessageDisassembler.Payloads | daemon/src/channel/disassembler.rs:106-145 | the loop builds exactly the offers of the front message, or retires it |
| Reader.ChannelReader.Receive | daemon/src/channel/reader.rs:27-70 | dispatches a segment, forwards a report with its own id, head and bodies and nothing else, and drains the window into `handle_message`; without a channel the segment is skipped and a channel asked for |
| Reader.ChannelReader.DrainAssembler | daemon/src/channel/reader.rs:68-70 | the loop hands on what the recursive drain gives, in that order |
| Writer.ChannelWriter.HandleWriteMessage | daemon/src/channel/writer.rs:123-136 | queues the message and enters the callback under its id |
| Writer.ChannelWriter.HandleUpdateMessageStatus | daemon/src/channel/writer.rs:139-160 | applies the report and notifies once the message is confirmed |
| Writer.ChannelWriter.ResendQueued | daemon/src/channel/writer.rs:71-117 | sends each offered segment of the front message once, in order, or without a channel sends none and asks for one |
| Writer.ChannelWriter.Run | daemon/src/channel/writer.rs:45-119 | the loop over events, with or without a channel at each, ends in the state, and has sent and asked for what, the fold over the events says |
| Tree.InsertSucceedsExactly | services/file-sharing/src/manifest.rs:88-103 | `create` succeeds if and only if the parent is the root or an existing directory |
| Tree.InsertThenLookupBelow | services/file-sharing/src/manifest.rs:105-108 | after a `create`, `get` finds the entry, and every longer path resolves inside it |
| Tree.InsertKeepsOthers | services/file-sharing/src/manifest.rs:64-109 | paths neither above nor below the new entry lead where they did |
| Tree.InsertUpdatesAncestors | services/file-sharing/src/manifest.rs:93-102 | directories above it are as before but for the updated subtree |
| Tree.LookupFollowsDirectories | services/file-sharing/src/manifest.rs:111-136 | a look-up finds an entry if and only if a chain of directories leads to it under the names of the path |
| Tree.LookupFromParent | services/file-sharing/src/manifest.rs:111-136 | a look-up is a descent to the parent directory and one step from there |
| Manifests.MoveDown | services/file-sharing/src/manifest.rs:113-128 | the cursor loop ends at the directory of the path, or finds that there is none |
| Manifests.Manifest.Create | services/file-sharing/src/manifest.rs:64-109 | inserts the entry, or reports an error and changes nothing |
| Manifests.Manifest.Get | services/file-sharing/src/manifest.rs:111-136 | returns the entry at the path, or an error exactly when there is none |
| Manifests.Manifest.List | services/file-sharing/src/manifest.rs:138-170 | succeeds exactly on directories, with the contents that `get` finds there |
| Manifests.Manifest.Walk | services/file-sharing/src/manifest.rs:172-196 | yields exactly the pairs of a path at or below the base and the entry there, each path once, the less deep ones first, whatever order maps are iterated in |
| Manifests.Expand | services/file-sharing/src/manifest.rs:184-189 | queues every child of a directory once, in any order |
| PeerText.ProtocolRoundTrip | common/src/lib.rs:100-129 | parsing a printed protocol gives it back |
| PeerText.IpRoundTrip | common/src/lib.rs:186-192 | parsing a printed IP address gives it back, and IPv6 text is not taken for IPv4 |
| PeerText.DeviceRoundTrip | common/src/lib.rs:203-208 | six printed two-digit bytes are read back |
| PeerText.ShortDeviceIsPadded | common/src/lib.rs:203-208 | one to six printed bytes are read back, with zero for each byte that is not there |
| PeerText.RejectedForFormExactly | common/src/lib.rs:173-181 | a text is no peer at all if and only if it does not start with a slash or has fewer than three |
| PeerText.PeerRoundTrip | common/src/lib.rs:167-248 | parsing a printed peer gives back the same peer, for every protocol and address |
| PeerText.PrintingIsInjective | common/src/lib.rs:226-248 | no two peers are printed alike |
| PeerText.ReprintingIsStable | common/src/lib.rs:167-248 | printing what was parsed gives text that parses to the same |
| PeerForms.ProtocolExactly | common/src/lib.rs:100-114 | a text is a protocol if and only if it is the printed name in any case |
| PeerForms.V4Exactly | common/src/lib.rs:186-192 | a text is an IPv4 address if and only if it is printed so |
| PeerForms.IpAddrExactly | common/src/lib.rs:186-192 | an IP address is a printed IPv4 address, or else whatever reads as IPv6 |
| PeerForms.IpPartExactly | common/src/lib.rs:184-199 | an IP address part is an address, a slash and a port in decimal, perhaps with a plus or zeros in front, and nothing else is one |
| PeerForms.DeviceExactly | common/src/lib.rs:203-208 | a text is a device if and only if it is up to six hexadecimal bytes with colons between them, and the device has zeros for those missing |
| PeerForms.BluetoothPartExactly | common/src/lib.rs:200-219 | a Bluetooth address part is a device, a slash and a port, whatever follows a second slash |
| PeerForms.FormHasParts | common/src/lib.rs:173-181 | every text that is not rejected for its form is a protocol, a family and an address between slashes |
| PeerForms.PeerExactly | common/src/lib.rs:167-224 | a text with the parts of a peer is that peer if and only if its protocol and address are; it has an unknown protocol if and only if the name is none of the five |
| PeerForms.PrintedExamples | common/src/lib.rs:226-248 | the printed form of two peers and of the protocols, literally |
| Text.ParsedDecimalExactly | common/src/lib.rs:193-197 | exactly the decimal texts of numbers below the bound are read, each as its number |
| Text.ParsedHexExactly | common/src/lib.rs:205-207 | exactly the hexadecimal texts of bytes are read, each as its byte |
| Text.HexFormExactly | common/src/lib.rs:233-246 | a byte is printed as two upper-case digits |
| Text.DecimalFormExactly | common/src/lib.rs:228-230 | a number is printed by its decimal digits without a needless zero |
| PeerText.ReadDevice | common/src/lib.rs:203-208 | the loop fills the six bytes, zeros for missing ones, or fails on the first piece that is not a byte |
| PeerText.FromStr | common/src/lib.rs:167-224 | the parser step by step, with the error that each malformed text gets |

## Left out

- Manifests.Manifest.Create: maps are values here, so the loop puts the changed directories back one by one where the source writes through its cursor; that the update is in place is not captured.
- Manifests.Manifest.Walk: the iterator's items are collected in one sequence; that they are produced on demand is not captured.
- Writer.ChannelWriter.Run: one destination only, whose queue exists from the start; the loop over several is modelled on values, as `Destinations.LoopAll`.
- SenderQueue.EnqueueAppends: about the ids that the tests call for, not about those that the code gives out, which are those of `SenderQueue.EnqueueAsWritten`.
- SenderQueue.EnqueueOnFullQueueReplacesFront: the same.
- Disassembler.MessageDisassembler.Message: the same; `Disassembler.MessageDisassembler.MessageAsWritten` is the code's own.
- Reader.ChannelReader.Receive: one source only; each source has its own assembler.
- Disassembler.MessageDisassembler.BodyStatus: takes the confirmed bodies as a set, not as a collection of ranges.
- EndToEnd.DeliveryIsSafe: the codec is lossless and messages have at most 512 bodies, and no segment or report is delivered after its id has become ambiguous; without the last it fails, as `LateArrivals` shows.
- Interference.SlotsDoNotInterfere: covers runs up to the first panic, which ends the task.
- LateArrivals.LateSegmentsAreHandedOn: a full turn of ids late; that one message past the bound is enough is shown of the receiver alone, by `OldSegments`.
- Encryption, handshakes and the routing of packets: segments are modelled as they are after decryption.
- The entropy estimate that decides on compression: its outcome is arbitrary here.
- Transport, discovery and IPC drivers: they only move bytes.
- The conversion of URLs to peers, and the standard library's text of IPv6 addresses.
- Path components such as `..`, dates and hashes in manifests, apart from being carried along unchanged.
- `handle_message`: what is done with a message once it has been handed on.
