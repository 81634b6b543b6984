# A verified model of a user-space TCP

This project models `libsponge`, a user-space TCP, in Dafny and proves what it is for: bytes written
at one end come out at the other end in order, unaltered, and the stream ends only when all of it has
arrived.

The model follows the program's own form. Each object that the program updates in place is a class
with the same fields (`ByteStream`, `StreamReassembler`, `TCPReceiver`, `Timer`, `UnAckQueue`,
`TCPSender`, `TCPConnection`, `InternetChecksum`, `NetParser`), each loop is a loop. A class has a
`View()`, the value it stands for (`Stream`, `Assembler`, `Receiver`, `Queue`, `Clock`, `Sender`,
`Conn`, `Cursor`), and every method is proved to move that value as a specification says. The
theorems are about all runs of these specified steps.

| file | what it holds |
|---|---|
| `Machine`, `WrappingIntegers` | integer widths; 32-bit sequence numbers and their 64-bit originals |
| `ByteStream` | the bounded queue of bytes |
| `Fragments`, `StreamReassembler`, `ReassemblyRuns` | maps of disjoint strings and the bytes they denote; the reassembler; its runs |
| `TcpSegment`, `TcpReceiver`, `ReceiverRuns` | segments; the receiving half; what it keeps of what arrives |
| `SegmentSizes`, `TcpSender`, `SenderRuns`, `SenderDuties` | the record of segments in flight; the sending half; its runs; what it has to send and when |
| `Transfer`, `TransferSteps`, `TransferDelivery`, `TransferProgress` | sender and receiver joined by an unreliable network |
| `TcpState`, `TcpConnection`, `ConnectionRuns`, `ConnectionDuties`, `ConnectionExamples` | the official states; a whole endpoint; its runs; what it has to do; runs with surprises |
| `Conversation`, `ConversationSteps`, `ConversationRuns` | two whole endpoints talking to each other |
| `InternetChecksum`, `NetParser`, `TcpWire`, `IPv4Wire`, `WireFormat` | checksum, byte order, headers, segments, datagrams; the formats byte by byte |

## Main results

1. `TransferDelivery.EndToEnd`, `TransferDelivery.Agreement`: a sender and a receiver joined by a
   channel that loses, duplicates and reorders segments, and by an acknowledgment channel that loses.
   In every reachable state the bytes delivered are a prefix of the bytes written, the receiver's
   stream has ended only if it is all of an ended stream, the acknowledgment number on offer lies
   between the sender's base and next number and on a boundary of its segments, and an acknowledged
   FIN means that the receiver has everything.
2. `ConversationRuns.BothWays`, `ConversationRuns.ClosedMeansDone`: two whole endpoints joined by two
   channels that lose segments but keep their order, each segment carrying data one way and an
   acknowledgment the other. Nothing is assumed of what arrives: every acknowledgment is proved to be
   one that the sender handles as meant, every segment to be within reach. In every reachable state
   both streams are delivered, and when an end reports TIME_WAIT or CLOSED both are complete.
3. `ReassemblyRuns.WindowRefinement`: inside the window, the map of cut and merged strings refines one
   byte map in which the newest byte wins. `SliceSafety`, `StructureKept` and `PushConserves` hold for
   pushes inside the window or not.
4. `SenderRuns.SenderSafety`, `SenderRuns.FlowControl`: the sender's three records of what is in flight
   agree, the timer runs exactly while something is in flight, every segment ever put out is a true
   slice of the stream; and the window is respected if and only if every acknowledgment left room.
5. `ConnectionRuns.FlagSafety`: how an endpoint ends, over all its runs, whatever acknowledgments it
   gets. With acknowledgments that the sender handles as meant, `ShutdownSafety`, `OutputSafety`,
   `EndDecided`, `GivingUpTakesTime` and `TcpConnections.NamesMeant` add what it reports at the end,
   what it sends, whether it decides how to close, how long it waits, and what its reported state means.
6. What has to happen, and not only what must not. `ReceiverRuns.ReceiverRefinement`: everything that
   arrives inside the window is kept, at the place its number gives it. `SenderDuties.FillConserves`: every
   number taken up goes out, once and in order. `SenderDuties.TimeoutSends`: a timeout sends the first
   segment in flight, whole. `ConnectionDuties.TimeEnds` and `Answered`: when an endpoint gives up or
   closes, and what it answers. `TransferProgress.RoundTripAdvances`: from any reachable state with
   something in flight and no acknowledgment under way, one undisturbed round trip, with room at the
   receiver, has something new acknowledged.
7. `IPv4Wire.WireRoundTrip`: a segment survives being put into a datagram, turned into bytes and back.

## Where the code does not do what one would expect

For each, a lemma says exactly when the expected behaviour holds; where that does not settle it for
every input, another gives a run from the beginning, or an input, at which it fails.

- `unwrap` is documented to return the number closest to the checkpoint. From a checkpoint of 2^63 on
  every result that fits 64 bits is 2^32 too large (`UnwrapCheckpoint`, for every input at which the
  signed subtraction is defined).
- The reassembler's capacity is documented to limit what it stores, but only the start of a string is
  compared with the limit (`LimitKept`, `PushConserves`; `OverflowExample`).
- A push that starts before the next index while the output is full, and reaches beyond the string
  waiting there, throws away every byte that was waiting; no other push loses anything (`PushKeeps`;
  `DiscardsExample`).
- A segment numbered like the SYN, without its mark, is taken to start at index 2^64 - 1. Its payload
  is refused, but with a FIN and the right length it ends the stream early. It can also set off the
  writing of bytes left waiting by an output once full, and then even a shorter FIN ends the stream
  once the writing has passed it (`NumberOfSyn`; `NumberOfSynExample`).
- An acknowledgment strictly inside a segment behind the front one leaves sizes behind that no longer
  add up to the bytes in flight (`CutSums`, `AckInv`; `StaleSizesExample`, `StaleExample`).
- Acknowledgments of what was not sent, or of SYN and FIN at once, break the accounting too. Of SYN and
  FIN at once only the FIN is counted, which leaves a number in flight with the timer stopped, and the
  state told from the counters wrong; one beyond a SYN in flight stops the timer, so that the SYN is
  never sent again; one of a SYN not yet sent puts the base beyond the next number (`AckInv`;
  `BothAckedExample`, `SummaryFails`, `SynForgottenExample`, `NothingSentExample`).
- A window that leaves no room for what is in flight makes the free space wrap to a huge number
  (`ExactSpace`, `AckInWindow`, `FlowControl`; `ShrinkExample`).
- If the FIN went out before the SYN was acknowledged, timeouts send the FIN again and never the SYN
  (`RetransmitEarliest`; `EarlyFinExample`).
- A final wait that runs out before the FIN is acknowledged ends the connection in a state that has no
  official name (`WaitRunsOut`; `WaitExample`).
- In LAST_ACK, an acknowledgment of the FIN on a small segment out of order does not end the connection,
  and leaves it in a state that has no official name (`LastAckEnds`; `LastAckExample`).
- A small RST out of order is not a reset (`ResetExactly`; `OldRstExample`).
- The end of the inbound stream is not noticed if it comes on a small segment out of order or with the
  SYN: neither lingering nor waiting is decided, and only a reset ever ends the connection
  (`EndNoticed`, `EndDecided`; `EarlyEndExample`, `EndMissedExample`).
- A segment that demands an answer gets none while older segments have not been collected, although
  these do not carry the new acknowledgment (`Answers`; `SuppressedExample`). Once the inbound stream
  has ended, a lingering endpoint answers only FINs and small segments out of order (`Answers`).
- A datagram is never refused for its header checksum, since the verdict on the header is not looked at
  (`IpChecksumIgnored`, for every checksum). Nor for its version, or anything else in the header, as long
  as the lengths happen to agree (`DatagramAccepted`; `WrongVersionAccepted`). The verdict on the header of
  a segment is not looked at either (`SegmentVerdict`).

## Model

| member | source | states |
|---|---|---|
| `WrappingIntegers.UnwrapInverts` | libsponge/wrapping_integers.cc:30-38 | the result wraps back to the given number and lies within reach of the checkpoint |
| `WrappingIntegers.UnwrapExact` | libsponge/wrapping_integers.cc:16-38 | wrapping then unwrapping returns the number if and only if it is less than 2^31 below, at most 2^31 above the checkpoint, or below 2^32 |
| `WrappingIntegers.UnwrapNearest` | libsponge/wrapping_integers.cc:20-38 | of all numbers with that wire form the nearest to the checkpoint is returned, a tie going upward |
| `WrappingIntegers.UnwrapCheckpoint` | libsponge/wrapping_integers.cc:30-38 | wherever the signed subtraction is defined: the number at the signed distance is returned if and only if the checkpoint is below 2^63 and that number is not negative; from 2^63 on, every result that fits 64 bits is 2^32 too large |
| `WrappingIntegers.WrapInjective` | libsponge/wrapping_integers.cc:16-18 | two numbers share a wire form if and only if they differ by a multiple of 2^32 |
| `WrappingIntegers.Distance` | libsponge/wrapping_integers.hh:47 | the signed 32-bit number that leads from `b` to `a` |
| `ByteStreams.ByteStream.constructor` | libsponge/byte_stream.cc:18-19 | an empty, open stream of the given capacity |
| `ByteStreams.ByteStream.Write` | libsponge/byte_stream.cc:21-29 | as many bytes as there is room for, none after the end, are appended to the history |
| `ByteStreams.ByteStream.EndInput` | libsponge/byte_stream.cc:32 | the stream has ended and nothing else changes |
| `ByteStreams.ByteStream.SetError` | libsponge/byte_stream.hh:48 | the error mark is set and nothing else changes |
| `ByteStreams.ByteStream.PeekOutput` | libsponge/byte_stream.cc:35-38 | the next bytes of the history, as many as are buffered |
| `ByteStreams.ByteStream.PopOutput` | libsponge/byte_stream.cc:41-46 | reading advances by as many bytes as are buffered |
| `ByteStreams.ByteStream.Read` | libsponge/byte_stream.cc:51-55 | returns exactly the stretch of the history that reading advances over |
| `Fragments.LowerBound` | libsponge/stream_reassembler.cc:19-26 | the least key not below a bound, or none exactly if there is none |
| `Fragments.Before` | libsponge/stream_reassembler.cc:28-36 | the greatest key not above a bound, or none exactly if there is none |
| `Fragments.DenoteErase` | libsponge/stream_reassembler.cc:93-96 | erasing a string removes exactly its bytes and takes its length off the number held |
| `Fragments.DenoteInsert` | libsponge/stream_reassembler.cc:125-128 | storing a string where nothing is held adds exactly its bytes |
| `Fragments.DenoteOverwrite` | libsponge/stream_reassembler.cc:58-71 | writing over a stored string lays the new bytes over what is held |
| `Fragments.DenoteTakeFront` | libsponge/stream_reassembler.cc:145-154 | taking the front of a string off and storing the rest under its new index removes exactly the bytes taken |
| `Reassembly.StreamReassembler.constructor` | libsponge/stream_reassembler.cc:16-17 | nothing written, nothing waiting, no end seen |
| `Reassembly.StreamReassembler.GetBackItr` | libsponge/stream_reassembler.cc:19-26 | the first string at or after the index, after 0 for index 0 |
| `Reassembly.StreamReassembler.GetFrontItr` | libsponge/stream_reassembler.cc:28-36 | the last string at or before the index; for the largest index, whose successor wraps, the first string |
| `Reassembly.StreamReassembler.CutFront` | libsponge/stream_reassembler.cc:38-73 | what is written is skipped, the string run into is written over, and what remains starts where nothing reaches across |
| `Reassembly.StreamReassembler.CutBack` | libsponge/stream_reassembler.cc:74-100 | strings covered are dropped, the one in which the push ends is written over, and the remaining part meets no string; together they denote the old bytes overlaid by the new |
| `Reassembly.StreamReassembler.CutData` | libsponge/stream_reassembler.cc:38-100 | a push is dropped if and only if it brings no new index; otherwise strings and remainder together are the old bytes overlaid by the fresh ones |
| `Reassembly.StreamReassembler.Absorb` | libsponge/stream_reassembler.cc:116-128 | the bytes held become the old ones overlaid by the push, except for a push whose new part starts beyond the limit |
| `Reassembly.MergeRefused` | libsponge/stream_reassembler.cc:123-128 | a push refused for its start only rewrites bytes already held, or, starting before the next index with the output full, discards them all |
| `Reassembly.StreamReassembler.DrainOne` | libsponge/stream_reassembler.cc:136-154 | as much of the front string as fits is written; the rest is stored under its new index |
| `Reassembly.StreamReassembler.Drain` | libsponge/stream_reassembler.cc:133-155 | the bytes written are those waiting, in order, up to a gap, the capacity or the end; the others still wait |
| `Reassembly.StreamReassembler.PushSubstring` | libsponge/stream_reassembler.cc:106-156 | merging, dropping, draining and ending, in terms of the byte map held and the stream written |
| `Reassembly.StreamReassembler.UnassembledBytes` | libsponge/stream_reassembler.cc:158 | the number of waiting indices, each counted once |
| `Reassembly.StreamReassembler.ReadOutput` | libsponge/stream_reassembler.hh:59 | a reader takes the next bytes and moves nothing else |
| `ReassemblyRuns.StructureKept` | libsponge/stream_reassembler.cc:38-156 | over every run, strings are non-empty, disjoint and start within range, and the output is within capacity |
| `ReassemblyRuns.StepFaithful` | libsponge/stream_reassembler.cc:106-156 | a push of a slice of a stream, or a read, keeps output and waiting bytes those of the stream |
| `ReassemblyRuns.SliceSafety` | libsponge/stream_reassembler.cc:106-156 | over every run of slices of one stream, inside the window or not: the output is a prefix of it, and the input has ended if and only if a marked slice came and all is written |
| `ReassemblyRuns.StepRefines` | libsponge/stream_reassembler.cc:106-156 | a push inside the window overwrites exactly the positions it covers from the first gap on |
| `ReassemblyRuns.WindowRefinement` | libsponge/stream_reassembler.cc:106-156 | over every run inside the window, the output is the maximal contiguous prefix received, the strings hold the rest, none starts at the next index, and all of it fits the capacity |
| `ReassemblyRuns.PushKeeps` | libsponge/stream_reassembler.cc:118-128 | a push loses no held byte, if and only if it does not start before the next index with the output full while reaching beyond the string waiting there |
| `ReassemblyRuns.DiscardsExample` | libsponge/stream_reassembler.cc:118-128 | a run of two pushes: a byte waits after the first and is gone, unwritten, after the second |
| `ReassemblyRuns.LimitKept` | libsponge/stream_reassembler.cc:120-128 | a push leaves every waiting byte before the limit, and so within the capacity, if and only if it changes nothing, is dropped or refused, or ends before the limit |
| `ReassemblyRuns.PushConserves` | libsponge/stream_reassembler.cc:106-156 | bytes buffered and waiting after a push are as many as before it once merged: none of them is lost or made up |
| `ReassemblyRuns.OverflowExample` | libsponge/stream_reassembler.cc:123-128 | a run of one push after which two bytes are held in a capacity of one |
| `TcpReceivers.TCPReceiver.constructor` | libsponge/tcp_receiver.hh:35-37 | listening, nothing received |
| `TcpReceivers.TCPReceiver.SegmentReceived` | libsponge/tcp_receiver.cc:13-41 | a second SYN and anything before the first are ignored; otherwise the payload is pushed at its index and the acknowledgment follows |
| `TcpReceivers.TCPReceiver.Ackno` | libsponge/tcp_receiver.cc:43-46 | none before the SYN, then the wire form of the next number expected |
| `TcpReceivers.TCPReceiver.WindowSize` | libsponge/tcp_receiver.cc:48-54 | the room left in the output |
| `TcpReceivers.TCPReceiver.ReadInbound` | libsponge/tcp_receiver.hh:70 | a reader takes the next bytes, as many as are buffered; the acknowledgment stays |
| `TcpReceivers.WindowIsRoom` | libsponge/tcp_receiver.cc:48-54 | the window reaches exactly up to the first byte that the capacity rules out |
| `TcpReceivers.StepMonotone` | libsponge/tcp_receiver.cc:13-54 | no segment and no read moves the acknowledgment or the right edge of the window back |
| `TcpReceivers.AckCurrent` | libsponge/tcp_receiver.cc:33-41 | over every run, the acknowledgment is that of bytes written plus SYN plus ended FIN |
| `TcpReceivers.EdgeNeverRetreats` | libsponge/tcp_receiver.cc:43-54 | over every run, acknowledgment plus window never decreases |
| `TcpReceivers.IndexExact` | libsponge/tcp_receiver.cc:24-31 | a payload is placed where its sender meant it if and only if its number is within reach |
| `TcpReceivers.NumberOfSyn` | libsponge/tcp_receiver.cc:29-31 | a segment numbered like the SYN ends the input if it has a FIN and one byte more than was written; if not, it has bytes written if and only if it has a payload, bytes wait at the next index and there is room, then exactly those waiting, and ends the input if its FIN or an earlier mark has been passed |
| `TcpReceivers.NumberOfSynExample` | libsponge/tcp_receiver.cc:29-31 | after a run of one SYN, one byte with FIN ends an input of which nothing was received |
| `ReceiverRuns.ReceiverRefinement` | libsponge/tcp_receiver.cc:13-41 | over every run of arrivals within reach and inside the window: the receiver holds exactly the payloads, each at the index its number gives it, has written and acknowledges exactly their maximal contiguous prefix, and knows of a FIN exactly if one came |
| `ReceiverRuns.ReceiverSafety` | libsponge/tcp_receiver.cc:13-41 | over every run of slices of one stream, inside the window or not: a prefix of it is written, and the input has ended if and only if a FIN came and all is written |
| `ReceiverRuns.ShuffledExample` | libsponge/tcp_receiver.cc:28-36 | two bytes ahead of two others wait, then all four are written and acknowledged |
| `SegmentSizes.CutSums` | libsponge/tcp_sender.hh:119-140 | after an acknowledgment the recorded sizes add up to the bytes left if and only if it fell on a boundary or inside the front segment |
| `SegmentSizes.StaleSizesExample` | libsponge/tcp_sender.hh:127-138 | an acknowledgment after which they do not |
| `TcpSenders.Timer.StartTimer` | libsponge/tcp_sender.hh:163-168 | running afresh with the initial timeout |
| `TcpSenders.Timer.StopTimer` | libsponge/tcp_sender.hh:170-173 | the same, but stopped |
| `TcpSenders.Timer.BackOff` | libsponge/tcp_sender.hh:214-218 | one retransmission more, the timeout doubled in 32 bits unless the window is zero |
| `TcpSenders.UnAckQueue.Push` | libsponge/tcp_sender.hh:59-65 | payload and size recorded |
| `TcpSenders.UnAckQueue.UpdateBase` | libsponge/tcp_sender.hh:84-105 | the acknowledgment of the SYN, of everything with the FIN, or of bytes |
| `TcpSenders.UnAckQueue.Erase` | libsponge/tcp_sender.hh:108-141 | everything goes with the FIN; else exactly the bytes before the number |
| `TcpSenders.UnAckQueue.EraseBytes` | libsponge/tcp_sender.hh:116-140 | as long as there are bytes to remove: those before the number are removed, the base moved, and the sizes cut at the boundary or within the segment |
| `TcpSenders.TCPSender.constructor` | libsponge/tcp_sender.cc:20-23 | nothing sent, window 1 |
| `TcpSenders.TCPSender.FirstPush` | libsponge/tcp_sender.hh:191-195 | the segment is queued and the timer runs |
| `TcpSenders.TCPSender.RemainSpace` | libsponge/tcp_sender.hh:318-320 | inside the window, the numbers up to its right edge; beyond it, 2^64 less the excess |
| `TcpSenders.TCPSender.MakeSynSeg` | libsponge/tcp_sender.hh:224-242 | the SYN, with the FIN if the stream is over and fits; counted once |
| `TcpSenders.TCPSender.MakeFirstFinSeg` | libsponge/tcp_sender.hh:246-254 | the FIN at the next number, counted |
| `TcpSenders.TCPSender.MakeNotFirstFinSeg` | libsponge/tcp_sender.hh:259-265 | the FIN again, one before the next number |
| `TcpSenders.TCPSender.FrontSeg` | libsponge/tcp_sender.hh:69-81 | the front segment in flight, with the FIN if that comes right after |
| `TcpSenders.TCPSender.MakePayLoadSeg` | libsponge/tcp_sender.hh:275-296 | as many bytes as window, maximum and stream allow, with the FIN if they are the last and it fits |
| `TcpSenders.TCPSender.SendPayLoad` | libsponge/tcp_sender.cc:43-45 | that segment recorded and queued |
| `TcpSenders.TCPSender.FillLoop` | libsponge/tcp_sender.cc:42-46 | segments are sent one after the other until there is no space or nothing to send; the loop ends |
| `TcpSenders.Progress` | libsponge/tcp_sender.cc:42-46 | each segment uses up bytes of the stream or the chance to send the FIN |
| `TcpSenders.TCPSender.FillWindow` | libsponge/tcp_sender.cc:27-47 | SYN, FIN alone, nothing, or data, by the state of the handshake |
| `TcpSenders.TCPSender.SetWindowSize` | libsponge/tcp_sender.hh:298-301 | a zero window counts as one and stops the doubling |
| `TcpSenders.TCPSender.AckReceived` | libsponge/tcp_sender.cc:51-68 | the window is taken over always; old and excessive numbers move nothing else; the timer restarts or stops |
| `TcpSenders.TCPSender.RetransmitSeg` | libsponge/tcp_sender.hh:201-211 | which segment is sent again |
| `TcpSenders.TCPSender.TimeoutRetransmit` | libsponge/tcp_sender.hh:197-219 | that segment is queued and the timer backs off; nothing after the FIN is acknowledged |
| `TcpSenders.TCPSender.Tick` | libsponge/tcp_sender.cc:71-79 | time counts only while the timer runs; a retransmission at the timeout |
| `TcpSenders.TCPSender.SendEmptySegment` | libsponge/tcp_sender.cc:84-89 | an empty segment at the next number |
| `SenderRuns.FillInv` | libsponge/tcp_sender.cc:27-47 | filling keeps the accounting and puts out true slices of the stream only |
| `SenderRuns.TickInv` | libsponge/tcp_sender.cc:71-79 | so does a tick |
| `SenderRuns.WriteInv` | libsponge/byte_stream.cc:21-29 | so does writing, also after a FIN |
| `SenderRuns.EndInv` | libsponge/byte_stream.cc:32 | so does ending the stream |
| `SenderRuns.AckInv` | libsponge/tcp_sender.cc:51-68 | an acknowledgment keeps the accounting if and only if it is ignored, or: before the SYN is sent, it is not of the SYN; while the SYN is in flight, it is of the SYN exactly; after that, it is of everything with the FIN, falls on a boundary or inside the front segment, or goes beyond the next number with no bytes in flight |
| `SenderRuns.SenderSafety` | libsponge/tcp_sender.hh:59-296 | over every run: next = base + bytes + SYN + FIN in flight, sizes add up, bytes in flight are the stream's, the timer runs iff something is in flight, and every segment ever put out is a true slice |
| `SenderRuns.RetransmitAccurate` | libsponge/tcp_sender.hh:197-211 | while the timer runs there is something to send again, and it is a true slice |
| `SenderRuns.RetransmitEarliest` | libsponge/tcp_sender.hh:201-211 | it is the earliest outstanding if and only if the SYN is acknowledged or the FIN not sent |
| `SenderRuns.EarlyFinExample` | libsponge/tcp_sender.cc:35-40 | a run to a state in which the FIN is sent again instead of the SYN |
| `SenderRuns.BothAckedExample` | libsponge/tcp_sender.hh:91-100 | after the run of `EarlyFinExample`, the acknowledgment of SYN and FIN leaves a number in flight with the timer stopped |
| `SenderRuns.SynForgottenExample` | libsponge/tcp_sender.cc:61-66 | an acknowledgment beyond a SYN in flight stops the timer |
| `SenderRuns.NothingSentExample` | libsponge/tcp_sender.hh:87-90 | an acknowledgment of the SYN before it is sent puts the base beyond the next number |
| `SenderRuns.ExactSpace` | libsponge/tcp_sender.hh:318-320 | the free space is right if and only if no more is in flight than the window allows; else it wraps |
| `SenderRuns.FillInWindow` | libsponge/tcp_sender.cc:27-47 | filling stays within the window and stops only with it full or nothing left to send |
| `SenderRuns.AckInWindow` | libsponge/tcp_sender.cc:51-68 | after an acknowledgment the window is respected if and only if it leaves room for what is in flight |
| `SenderRuns.TickInWindow` | libsponge/tcp_sender.cc:71-79 | a retransmission keeps the window respected, even if it adds a FIN to the SYN |
| `SenderRuns.FlowControl` | libsponge/tcp_sender.cc:27-68 | over every run, next <= base + window throughout, with an exact subtraction, if and only if every acknowledgment left room for what was in flight |
| `SenderRuns.FlowControlByEdge` | libsponge/tcp_sender.cc:27-68 | in particular if the right edge of the window never moves left |
| `SenderRuns.ShrinkExample` | libsponge/tcp_sender.hh:298-320 | a run whose last acknowledgment shrinks the window below what is in flight: the free space is 2^64 - 2 |
| `SenderRuns.StaleExample` | libsponge/tcp_sender.hh:119-140 | a run to two segments in flight, and an acknowledgment inside the second: two bytes left, recorded sizes of five |
| `SenderRuns.FillGrows` | libsponge/tcp_sender.cc:27-47 | filling takes up new numbers if and only if it puts something out |
| `SenderRuns.BackPaced` | libsponge/tcp_sender.hh:214-218 | the timeout is the initial one times a power of two, without overflow, and has been waited for each time |
| `SenderRuns.GiveUpTime` | libsponge/tcp_sender.hh:197-219 | nine retransmissions that all doubled take 511 initial timeouts since the timer was started, any nine at least nine |
| `SenderDuties.TimeoutSends` | libsponge/tcp_sender.hh:69-81 | a timeout sends exactly one segment, which takes up numbers: the first recorded bytes in flight, whole, with the FIN if and only if that comes right after; else the SYN or the FIN; and nothing is sent before |
| `SenderDuties.TimeoutClock` | libsponge/tcp_sender.cc:71-79 | time counts only while the timer runs; a timeout restarts it, counts, and doubles the timeout unless the window is zero |
| `SenderDuties.AckClock` | libsponge/tcp_sender.cc:61-66 | an acknowledgment of something new restarts the clock with the initial timeout and no retransmissions, running if and only if something is in flight; any other leaves it alone |
| `SenderDuties.FillConserves` | libsponge/tcp_sender.cc:27-47 | every number taken up goes out, once and in order, and the payloads are the bytes read off the stream |
| `SenderDuties.FillFull` | libsponge/tcp_sender.hh:280-281 | all segments but the last carry the maximum |
| `SenderDuties.FillAchieves` | libsponge/tcp_sender.cc:27-47 | the SYN is out; a FIN follows it at once if and only if the stream is over and two numbers are left; after the handshake all goes out that there is room for |
| `SenderDuties.FillSettles` | libsponge/tcp_sender.cc:27-47 | filling leaves nothing that could be sent |
| `SenderDuties.FillClock` | libsponge/tcp_sender.hh:191-195 | a running timer is left alone, a stopped one started if and only if something is sent |
| `TransferDelivery.DeliverStep` | libsponge/tcp_receiver.cc:13-41 | delivering any packet of the network, old or new, keeps the invariant of the joined system |
| `TransferDelivery.DeliverAckStep` | libsponge/tcp_sender.cc:51-68 | so does delivering the oldest acknowledgment |
| `TransferSteps.FillStep` | libsponge/tcp_sender.cc:27-47 | so does filling the window |
| `TransferSteps.TickStep` | libsponge/tcp_sender.cc:71-79 | so does a retransmission |
| `TransferSteps.SendAckStep` | libsponge/tcp_receiver.cc:43-54 | so does sending an acknowledgment |
| `TransferSteps.LoseAckStep` | libsponge/tcp_sender.cc:51-68 | so does losing any acknowledgment |
| `TransferSteps.WriteStep` | libsponge/byte_stream.cc:21-29 | so does writing into the sender |
| `TransferSteps.EndStep` | libsponge/byte_stream.cc:32 | so does ending its stream |
| `TransferSteps.ReadStep` | libsponge/byte_stream.cc:51-55 | so does reading from the receiver |
| `TransferSteps.ExpectedOnMark` | libsponge/tcp_receiver.cc:33-41 | what the receiver would acknowledge is a boundary of the sender's segments, and no later than its next number |
| `TransferDelivery.RunInv` | libsponge/tcp_sender.cc:27-68 | every reachable state of the joined system satisfies the invariant |
| `TransferDelivery.EndToEnd` | libsponge/stream_reassembler.cc:106-156 | in every reachable state, bytes delivered are a prefix of bytes written, and the end is the end of all of them |
| `TransferDelivery.Agreement` | libsponge/tcp_sender.hh:84-141 | in every reachable state, base <= acknowledgment on offer <= next, every acknowledgment under way is one the sender handles as meant, the window is respected, and an acknowledged FIN means everything was received |
| `TransferProgress.RoundTripAdvances` | libsponge/tcp_sender.hh:197-219 | from any state of the joined system with the timer running and no acknowledgment under way: a timeout, the delivery of what is sent again where there is room, and the delivery of its acknowledgment move the base |
| `TransferProgress.RetransmissionTaken` | libsponge/tcp_receiver.cc:13-41 | a retransmission that arrives where there is room makes the receiver expect something behind it |
| `TcpStates.SummaryAgrees` | libsponge/tcp_helpers/tcp_state.cc:94-110 | the sender's state told from its counters is the one its flags say |
| `TcpStates.SummaryFails` | libsponge/tcp_helpers/tcp_state.cc:94-110 | after `BothAckedExample` the counters say that the FIN is in flight and the flags that it is acknowledged |
| `TcpStates.OfficialDistinct` | libsponge/tcp_helpers/tcp_state.cc:17-74 | no two official names stand for the same state |
| `TcpConnections.NamesMeant` | libsponge/tcp_helpers/tcp_state.cc:17-110 | a connection's reported state bears an official name if and only if its flags mean it, for all twelve names |
| `TcpConnections.TCPConnection.constructor` | libsponge/tcp_connection.hh:13-28 | active, lingering, in LISTEN |
| `TcpConnections.TCPConnection.UncleanShutdown` | libsponge/tcp_connection.hh:33-37 | both streams in error, inactive |
| `TcpConnections.TCPConnection.CleanShutdown` | libsponge/tcp_connection.hh:39-41 | inactive |
| `TcpConnections.TCPConnection.UpdateOutput` | libsponge/tcp_connection.hh:44-57 | every segment of the sender moves out in order, carrying the current acknowledgment and window unless it is an RST |
| `TcpConnections.TCPConnection.StampFront` | libsponge/tcp_connection.hh:51-53 | acknowledgment and 16 bits of the window, once there is one and unless it is an RST |
| `TcpConnections.TCPConnection.EmptyQueues` | libsponge/tcp_connection.hh:58-91 | both queues emptied, the number of the first segment kept |
| `TcpConnections.TCPConnection.SendRSTSeg` | libsponge/tcp_connection.hh:58-85 | one RST in place of everything queued, numbered like the first of it |
| `TcpConnections.TCPConnection.SegmentReceived` | libsponge/tcp_connection.cc:23-150 | who handles the segment, how the flags move, and exactly what is put out, for any acknowledgment that the program defines; the invariant of the flags is kept, and that of the connection if the sender handles the acknowledgment as meant |
| `TcpConnections.TCPConnection.OutOfOrder` | libsponge/tcp_connection.cc:33-46 | a small segment out of order reaches both halves and is answered |
| `TcpConnections.TCPConnection.HeedAndFill` | libsponge/tcp_connection.cc:37-40 | an acknowledgment is handled before the window is filled; without one nothing happens |
| `TcpConnections.TCPConnection.EnsureAnswer` | libsponge/tcp_connection.cc:127-131 | an empty segment goes out exactly if nothing else is on its way |
| `TcpConnections.TCPConnection.AfterFin` | libsponge/tcp_connection.cc:55-85 | after the end of the inbound stream a SYN is ignored |
| `TcpConnections.TCPConnection.CloseWait` | libsponge/tcp_connection.cc:59-75 | a FIN is acknowledged again; an acknowledgment of our FIN closes, any other lets the sender go on |
| `TcpConnections.TCPConnection.Lingering` | libsponge/tcp_connection.cc:76-84 | acknowledgments are handled, a FIN is acknowledged again |
| `TcpConnections.TCPConnection.InListen` | libsponge/tcp_connection.cc:88-105 | only a SYN counts, and is answered |
| `TcpConnections.TCPConnection.InSynRecv` | libsponge/tcp_connection.cc:106-149 | data and acknowledgments are handled and answered, and the end of the stream decides how to close |
| `TcpConnections.TCPConnection.NoticeEnd` | libsponge/tcp_connection.cc:132-148 | lingering is given up if our FIN is not out, else the final wait begins; no further answer is needed |
| `TcpConnections.TCPConnection.Write` | libsponge/tcp_connection.cc:155-161 | as much as fits is written, the window filled, everything sent; the invariant is kept |
| `TcpConnections.TCPConnection.EndInputStream` | libsponge/tcp_connection.cc:183-187 | the outbound stream ends, and the same |
| `TcpConnections.TCPConnection.Connect` | libsponge/tcp_connection.cc:189-192 | the window is filled, starting with the SYN |
| `TcpConnections.TCPConnection.Tick` | libsponge/tcp_connection.cc:164-181 | retransmission, giving up, end of the final wait; the invariant is kept |
| `TcpConnections.TCPConnection.EndIfDue` | libsponge/tcp_connection.cc:171-180 | the ninth retransmission resets, and a wait of ten initial timeouts ends |
| `TcpConnections.TCPConnection.ReadInbound` | libsponge/tcp_connection.hh:123 | the owner reads the next bytes |
| `TcpConnections.TCPConnection.Collect` | libsponge/tcp_connection.hh:152 | the owner takes segments off the queue, in order |
| `TcpConnections.SegmentKeeps` | libsponge/tcp_connection.cc:23-150 | no acceptable segment breaks the invariant of the connection |
| `TcpConnections.SegmentFlags` | libsponge/tcp_connection.cc:23-150 | no segment whatever breaks the invariant of the flags |
| `TcpConnections.TickKeeps` | libsponge/tcp_connection.cc:164-181 | nor does time |
| `TcpConnections.WriteKeeps` | libsponge/tcp_connection.cc:155-161 | nor does writing |
| `TcpConnections.EndKeeps` | libsponge/tcp_connection.cc:183-187 | nor does ending the outbound stream |
| `TcpConnections.FillKeeps` | libsponge/tcp_connection.cc:189-192 | nor does filling the window |
| `TcpConnections.FillFlags` | libsponge/tcp_sender.cc:27-47 | filling acknowledges nothing, sends nothing after the FIN, and at most starts the timer |
| `TcpConnections.AckFlags` | libsponge/tcp_sender.cc:51-68 | an acknowledgment sends no FIN, takes none back, and doubling goes with the window |
| `ConnectionRuns.Answers` | libsponge/tcp_connection.cc:33-148 | for any acknowledgment: everything put out carries the current one; something is put out if and only if filling sent something new, or the segment is small and out of order, a FIN after the inbound end, takes up numbers before it or is the awaited SYN -- the last two only if nothing is queued; a lingering endpoint sends nothing else |
| `ConnectionRuns.LastAckEnds` | libsponge/tcp_connection.cc:33-75 | the acknowledgment of our FIN ends LAST_ACK with CLOSED if and only if it is not on a small segment out of order |
| `ConnectionRuns.ResetExactly` | libsponge/tcp_connection.cc:33-52 | an RST resets the connection if and only if it is not a small segment out of order |
| `ConnectionRuns.EndNoticed` | libsponge/tcp_connection.cc:132-141 | the end of the inbound stream chooses exactly one way to close if and only if it comes neither on a small segment out of order nor with the SYN: waiting if our FIN is out, else giving up lingering |
| `ConnectionRuns.EndDecided` | libsponge/tcp_connection.cc:33-148 | over every run, that choice stays; without one, only a reset ends the connection |
| `TcpConnections.Endings` | libsponge/tcp_helpers/tcp_state.cc:61-80 | a reset reports exactly RESET, any other end CLOSED if and only if our FIN is acknowledged |
| `ConnectionRuns.ShutdownSafety` | libsponge/tcp_connection.cc:54-181 | over every run: giving up lingering and the final wait exclude each other, and an end is a reset or has both streams ended with the FIN sent, and acknowledged if lingering was given up |
| `ConnectionRuns.FlagSafety` | libsponge/tcp_connection.cc:23-192 | over every run with any acknowledgments: giving up lingering and the final wait exclude each other, RESET is reported exactly after a reset, and any other end has the inbound stream ended and the FIN sent, and acknowledged if lingering was given up |
| `ConnectionRuns.StepIsLoose` | libsponge/tcp_connection.cc:23-192 | every step of a run with acknowledgments handled as meant is one of those runs' steps |
| `ConnectionRuns.OverStaysOver` | libsponge/tcp_connection.cc:24-192 | an ended connection stays ended, in the same way |
| `ConnectionRuns.OutputSafety` | libsponge/tcp_connection.hh:44-85 | over every run, all that goes out is true slices of the outbound stream and empty segments with a number of that stream |
| `TcpConnections.GivingUp` | libsponge/tcp_connection.cc:171-175 | it happens at the ninth retransmission in a row, reports RESET and leaves one RST |
| `ConnectionRuns.GivingUpTakesTime` | libsponge/tcp_connection.cc:164-175 | since its timer was last started, and with nothing new acknowledged, a connection that gives up has waited 511 initial timeouts if no zero window was advertised, nine in any case |
| `ConnectionDuties.ToReceiver` | libsponge/tcp_connection.cc:33-131 | by header fields: which segments the receiver gets, and that every segment restarts the final wait |
| `ConnectionDuties.ToSender` | libsponge/tcp_connection.cc:37-126 | by header fields: whose acknowledgment and window the sender takes over, and that no other changes them |
| `ConnectionDuties.ThenFills` | libsponge/tcp_connection.cc:37-126 | by header fields: after which segments everything goes out that can |
| `ConnectionDuties.Answered` | libsponge/tcp_connection.cc:33-148 | by header fields: when something is put out in return; it carries the acknowledgment on offer, all the new numbers, and otherwise the next number |
| `ConnectionDuties.RepeatedFinAnswered` | libsponge/tcp_connection.cc:60-84 | a FIN that comes again after the inbound end is acknowledged again, lingering or not |
| `ConnectionDuties.TimeEnds` | libsponge/tcp_connection.cc:164-181 | a connection gives up if and only if the ninth retransmission is due, and otherwise closes if and only if it is in its final wait and ten initial timeouts have passed since the last segment |
| `ConnectionDuties.WaitEndsClosed` | libsponge/tcp_connection.cc:177-180 | from TIME_WAIT, with the final wait over, to CLOSED |
| `ConnectionDuties.TimeSends` | libsponge/tcp_connection.hh:58-85 | nothing goes out before the timeout; then the first bytes in flight, stamped; in giving up one RST, numbered like the first segment queued |
| `ConnectionDuties.CallSends` | libsponge/tcp_connection.cc:189-192 | all new numbers go out after what is queued, and nothing that could be sent is left |
| `ConnectionDuties.WriteSends` | libsponge/tcp_connection.cc:155-161 | as much is appended to the stream as there is room for, and the same |
| `ConnectionDuties.EndSends` | libsponge/tcp_connection.cc:183-187 | the stream ends as it is, and the same |
| `TcpConnections.WaitRunsOut` | libsponge/tcp_connection.cc:177-180 | a wait that ends leaves an official state if and only if our FIN was acknowledged |
| `ConnectionExamples.WaitExample` | libsponge/tcp_connection.cc:132-180 | a run from the beginning through CLOSING to such an end without official name |
| `ConnectionExamples.LastAckExample` | libsponge/tcp_connection.cc:33-46 | a run through LAST_ACK to an acknowledged FIN after which the connection is active without official name |
| `ConnectionExamples.OldRstExample` | libsponge/tcp_connection.cc:33-46 | a run to an established connection that an RST leaves established |
| `ConnectionExamples.SuppressedExample` | libsponge/tcp_connection.cc:97-101 | a run in which the peer's SYN is received and not acknowledged |
| `ConnectionExamples.EndMissedExample` | libsponge/tcp_connection.cc:88-104 | a run of one SYN with FIN that ends the stream with no way to close chosen |
| `ConnectionExamples.EarlyEndExample` | libsponge/tcp_connection.cc:33-46 | a run in which a small segment out of order has the end of the stream written, with no way to close chosen |
| `ConversationSteps.HeadTaken` | libsponge/tcp_receiver.cc:13-41 | the next segment of an ordered channel is within reach of the receiver, and taking it keeps the invariant |
| `ConversationSteps.HeadHarmless` | libsponge/tcp_sender.cc:51-68 | its acknowledgment is one that the sender handles as meant |
| `ConversationSteps.HeadAcked` | libsponge/tcp_sender.cc:51-68 | handling or ignoring it keeps the invariant |
| `ConversationSteps.Emission` | libsponge/tcp_connection.hh:44-57 | stamping and sending segments keeps the invariant of both directions |
| `ConversationRuns.Hears` | libsponge/tcp_connection.cc:23-150 | so does everything a segment leads to at the end it reaches |
| `ConversationRuns.Speaks` | libsponge/tcp_connection.cc:155-192 | so do the calls of the owner that fill the window |
| `ConversationRuns.Waits` | libsponge/tcp_connection.cc:164-181 | so does time, with retransmission or giving up |
| `ConversationRuns.BothWays` | libsponge/tcp_connection.cc:23-192 | over every conversation of two endpoints: both are in order, what arrives is acceptable, and each stream is delivered in order, ends only as a whole, and is complete once its FIN is acknowledged |
| `ConversationRuns.ClosedMeansDone` | libsponge/tcp_helpers/tcp_state.cc:57-72 | an end that reports TIME_WAIT or CLOSED has received all of the peer's stream and the peer all of its own |
| `Checksums.InternetChecksum.Add` | libsponge/util/util.cc:89-98 | the words of the data are added in 32 bits, in the parity carried over |
| `Checksums.InternetChecksum.Value` | libsponge/util/util.cc:100-108 | folding ends, with the complement of the sum modulo 65535 |
| `Checksums.InternetChecksum.constructor` | libsponge/util/util.cc:87 | the given sum, even parity |
| `Checksums.WordSumConcat` | libsponge/util/util.cc:89-98 | any chunking of the data gives the same sum |
| `Checksums.CarriedVerifies` | libsponge/util/util.cc:77-83 | bytes whose checksum field, at an even place, was zero verify to zero once it carries the checksum |
| `Checksums.WordChange` | libsponge/util/util.cc:89-108 | changing one word goes unnoticed if and only if it is no change or swaps 0x0000 and 0xffff |
| `Checksums.ChangeDetected` | libsponge/util/util.cc:89-108 | the same, if and only if, for the bytes of one aligned word |
| `NetParsing.NetParser.ParseInt` | libsponge/util/parser.cc:26-43 | the number that the next bytes spell, or 0 and a lasting error |
| `NetParsing.NetParser.CheckSize` | libsponge/util/parser.cc:20-24 | an error exactly if fewer bytes are left, and an earlier error stays one |
| `NetParsing.NetParser.U8` | libsponge/util/parser.cc:66 | one byte, in range |
| `NetParsing.NetParser.U16` | libsponge/util/parser.cc:64 | two bytes, in range |
| `NetParsing.NetParser.U32` | libsponge/util/parser.cc:62 | four bytes, in range |
| `NetParsing.NetParser.RemovePrefix` | libsponge/util/parser.cc:45-51 | bytes skipped, or a lasting error |
| `NetParsing.UnparseInt` | libsponge/util/parser.cc:53-60 | shifting and masking appends the encoding, most significant byte first |
| `NetParsing.DecodeEncode` | libsponge/util/parser.cc:26-60 | a number that fits is read back from its encoding |
| `NetParsing.EncodeDecode` | libsponge/util/parser.cc:26-60 | bytes read fit, and encode to the same bytes |
| `NetParsing.ReadEncoded` | libsponge/util/parser.cc:26-60 | reading an encoded number leaves exactly what follows it |
| `TcpWire.SerializeHeader` | libsponge/tcp_helpers/tcp_header.cc:51-78 | the bytes of the header, refused if its offset is too small |
| `TcpWire.ParseHeader` | libsponge/tcp_helpers/tcp_header.cc:17-48 | the fields, the rest behind the options, and the verdict |
| `TcpWire.ParseFields` | libsponge/tcp_helpers/tcp_header.cc:18-34 | the twenty bytes that every header has |
| `TcpWire.FieldsRead` | libsponge/tcp_helpers/tcp_header.cc:17-78 | every header that can be serialized is read back, with the offset modulo 16 |
| `TcpWire.HeaderRoundTrip` | libsponge/tcp_helpers/tcp_header.cc:17-78 | a header is read back if and only if its offset fits four bits |
| `TcpWire.SerializeSegment` | libsponge/tcp_helpers/tcp_segment.cc:30-45 | header with checksum, then payload |
| `TcpWire.ParseSegment` | libsponge/tcp_helpers/tcp_segment.cc:12-23 | a bad checksum changes nothing; else header and payload, with the parser's error |
| `TcpWire.SegmentRoundTrip` | libsponge/tcp_helpers/tcp_segment.cc:12-45 | a segment comes back without error, the same but for the checksum |
| `TcpWire.DamageNoticed` | libsponge/tcp_helpers/tcp_segment.cc:12-17 | a changed word is reported as a bad checksum if and only if it does not swap 0x0000 and 0xffff, with something left to sum |
| `IPv4Wire.SerializeIp` | libsponge/tcp_helpers/ipv4_header.cc:78-110 | the bytes of the header, refused for a wrong version or length |
| `IPv4Wire.ParseIp` | libsponge/tcp_helpers/ipv4_header.cc:23-75 | the fields, and the checks in their order |
| `IPv4Wire.ParseFixed` | libsponge/tcp_helpers/ipv4_header.cc:31-47 | the twenty bytes that every header has |
| `IPv4Wire.SerializeDatagram` | libsponge/tcp_helpers/ipv4_datagram.cc:23-41 | header with checksum, then payload, refused if the size is wrong |
| `IPv4Wire.ParseDatagram` | libsponge/tcp_helpers/ipv4_datagram.cc:11-21 | header and payload, refused only for size or parser error |
| `IPv4Wire.IpRoundTrip` | libsponge/tcp_helpers/ipv4_header.cc:23-110 | a header that the format can express passes every check once it carries its checksum |
| `IPv4Wire.WireRoundTrip` | libsponge/tcp_helpers/ipv4_datagram.cc:11-41 | a segment in a datagram comes back through both layers without error, the same but for the checksums |
| `IPv4Wire.IpChecksumIgnored` | libsponge/tcp_helpers/ipv4_datagram.cc:11-21 | any header checksum passes the datagram parser, although the header parser does report it |
| `WireFormat.TcpFieldsPut` | libsponge/tcp_helpers/tcp_header.cc:51-78 | each field of a TCP header at its place in the bytes, most significant byte first, and zeros behind |
| `WireFormat.TcpFieldsAt` | libsponge/tcp_helpers/tcp_header.cc:17-34 | each field is read from there |
| `WireFormat.TcpVerdict` | libsponge/tcp_helpers/tcp_header.cc:36-47 | each verdict on a TCP header, if and only if, in terms of the bytes, also for headers cut off |
| `WireFormat.SegmentVerdict` | libsponge/tcp_helpers/tcp_segment.cc:12-23 | each verdict on a segment, if and only if, in terms of the bytes, and where its payload starts |
| `WireFormat.IpFieldsPut` | libsponge/tcp_helpers/ipv4_header.cc:78-110 | each field of an IPv4 header at its place in the bytes, and zeros behind |
| `WireFormat.IpFieldsAt` | libsponge/tcp_helpers/ipv4_header.cc:31-47 | each field is read from there |
| `WireFormat.IpVerdict` | libsponge/tcp_helpers/ipv4_header.cc:23-75 | each verdict on an IPv4 header in terms of the bytes, in the order of the checks |
| `WireFormat.DatagramAccepted` | libsponge/tcp_helpers/ipv4_datagram.cc:11-21 | a datagram is accepted if and only if its header has the right form and total length, or what follows twenty bytes is as long as the length fields say |
| `WireFormat.WrongVersionAccepted` | libsponge/tcp_helpers/ipv4_datagram.cc:11-21 | a datagram accepted with the wrong version |
| `WireFormat.PseudoSum` | libsponge/tcp_helpers/ipv4_header.cc:114-131 | the contribution to the TCP checksum is the sum of the words of the pseudo-header |

## Left out

- Sockets, file descriptors, TUN devices, addresses, the event loop, threads and the socket wrapper: plumbing around the state machine.
- `apps`, `doctests`, `tests`, build scripts, the network interface: not part of the core.
- Random loss (`LossyFdAdapter`) and random initial sequence numbers: loss is a step of the network that may be taken at any time, the number is a parameter.
- Sharing in `Buffer` and `BufferList`, `to_string`, `hexdump` and other printing: would only add easy members.
- The RST sent by the destructor of a connection; `TCPConnection.SendRSTSeg` is what it calls.
- Liveness: that every byte is delivered in the end is not guaranteed by the code; `TransferProgress.RoundTripAdvances` says what one undisturbed round trip achieves.
- Undefined behaviour: reading through the end iterator of an empty map (`stream_reassembler.cc:34` and `129`) is guarded, and the use of a string after its erasure (`stream_reassembler.cc:146-151`) is modelled as storing a copy of its rest.
- 64-bit counters and the retransmission count are unbounded numbers; the members that need it ask for room below 2^63 (`Spacious`, `Small`). The wrap-around of 32-bit sequence numbers, of the 32-bit timeout and checksum, of the 16-bit window and length, of the free space and of the index before 0 is modelled.
- TcpSenders.UnAckQueue.EraseBytes: requires that the bytes to be removed are there; without that the code erases beyond the end of its queue, which is undefined. `SenderRuns.AckInv` says exactly which acknowledgments keep the records in agreement, so that it is always met.
- TcpConnections.TCPConnection.Tick: requires that the front segment recorded is there, as the accounting guarantees; without that the code reads beyond the end of its queue, which is undefined.
- WrappingIntegers.UnwrapCheckpoint: says nothing of inputs at which the signed 64-bit subtraction overflows, which is undefined.
- TransferDelivery.EndToEnd: a packet without SYN is delivered only while its number is within reach of what is written (older duplicates are gone by then), the receiver's capacity is below 2^16, as its window is advertised in 16 bits, and acknowledgments may be lost but arrive in order, since even an old one overwrites the window.
- ConversationRuns.BothWays: the channels keep order, for the same reason; reach follows from it and is not assumed. The receivers' capacities are below 2^16.
- TcpWire.SegmentRoundTrip: for segments so short that the 32-bit sum of the checksum does not overflow, which holds of everything that fits a datagram (`IPv4Wire.WireRoundTrip`).
