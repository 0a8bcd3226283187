# Verified model of the sponge TCP/IP stack

This project models the user-space TCP/IP stack under `zju-comnet-labs/libsponge`, and the message framing of `lab6`,
and proves what they are for: that bytes written at one end of a connection come out at the other, in order and
whole, over a network that drops, duplicates, delays and reorders; and that the layers below (checksums, TCP in IP,
address resolution, forwarding) carry segments there unchanged.

`dafny verify dfyconfig.toml` checks everything.

## How it is built

Each component comes in two layers. The operations are written on values, one function per public call, with the
branches, maps and word sizes of the code; the properties are proved about these. Beside them stands a class with
the fields and the loops of the source, and every method is proved to do to the fields what the function does to the
value (`Model()` is the value of an object).

| files | what |
|---|---|
| `Words`, `WrappingIntegers`, `OrderedMaps` | machine words, 32/64-bit sequence numbers, `std::map` lookups |
| `ByteStream`, `Reassembler`, `StreamReassembler`, `Leftovers`, `ReassemblyCases` | the byte stream and the interval map of fragments |
| `Receiver`, `TCPReceiver`, `Sender`, `Filling`, `TCPSender`, `RetransmissionTimer` | the two halves of an endpoint |
| `Connection`, `Outgoing`, `Application`, `TCPConnection`, `ConnectionTimer`, `TCPState` | the endpoint |
| `EndToEnd`, `RoundTrip`, `Delivery`, `Lingering`, `CloseCases` | two endpoints and the network, as a step system |
| `InternetChecksum`, `Parser`, `TCPCodec`, `IPv4`, `TCPOverIP` | the wire formats |
| `ARP`, `NetworkInterface`, `HopOrder`, `EthernetInterface`, `Router`, `EthernetRouter` | address resolution and forwarding |
| `Framing` | the length-prefixed messages of lab6 |

The main results, in order of weight:

* **End to end.** `EndToEnd` runs two connections in full duplex. Every segment ever put on the wire stays deliverable
  for ever, so loss, delay, duplication and reordering are all covered. `Safety` is about the calls: what one application
  has read is a prefix of what the other has written. It, `NoLoss` and `CleanCloseDeliversBoth` hold in every reachable
  state, in both directions; `ResendingHeals` says that what the timer resends, once delivered to an open peer, moves it
  past the oldest outstanding segment, unless the peer's window is full, and `RoundsAcknowledge` that the answer then
  brings the acknowledgment back. `DeliveryIsAlwaysPossible` puts such rounds together: from every reachable state some
  finite continuation delivers everything and has it acknowledged.
* **Reassembly.** `PushHolds`, `PushLeast`, `PushAgrees`, `RunKeepsAccepted` and `RunHoldsOnlyPushed` say that the map of
  fragments is a set of received indices with the right bytes; `SurplusLaw` is the exact law of its byte counter.
* **Sending.** The outstanding segments tile sequence space; what filling sends has a closed form (`FillSends`,
  `AckExactly`); the window an endpoint advertises never retreats (`AdvertisedEdgeNeverRetreats`); and retransmissions
  take time: on an endpoint within its limit on retransmissions the timeout never overflows, and the limit holds exactly
  as long as the endpoint is not connected again after giving up (`LimitHoldsIff`, `TimeoutNeverOverflows`).
* **Closing.** The two tests in `tick` are exactly enough, because every public call leaves the window filled; and an
  endpoint that closes without lingering leaves a peer that has everything acknowledged (`CloseWithoutLingering`).
* **Wire formats.** Round trips through two nested formats, and exact conditions for what is accepted or noticed.
* **ARP and forwarding.** The timer maps are a timestamped log; the mask loop is longest-prefix match; no datagram is
  lost or doubled on the way to an interface.

`Sender.log`, the clocks of `Timed` and `Clocked`, and `Interface.log` with its `clock` are history: no operation reads them.

Where the code and its comments disagree, the model follows the code:

* The reassembler drops the part of a push that meets a full output, without correcting its counter (`SurplusLaw`,
  `CountIsExactIff`, `DroppedByteStaysCounted`), and an early return skips the end-of-stream mark (`PushKeepsMarks`,
  `FinOnFullWindowIsLost`) and the drain loop (`LeftoverAdvancesIff`, `LeftoverStalls`); TCP does not stall there, since
  segments of one sender never begin at a leftover (`PushParts`, `RetransmissionAdvances`).
* `unwrap` does not return the nearest number when the correction leaves 64 bits (`UnwrapNearestIff`).
* The 32-bit timer misses an expiry when one tick wraps it (`LongTickMisses`, `LongTickCase`).
* `connect` makes a connection active that has given up, past its limit on retransmissions (`CappedIffNotRevived`,
  `RevivedTimeoutOverflows`).
* The reset sent after too many retransmissions is the segment just resent (`GivingUpResetsOldest`).
* `TCPSegment::parse` and `IPv4Datagram::parse` ignore what the header parsers return (both lemmas named
  `AcceptsExactly`, `ShortOffsetCase`, `WrongVersionIsAccepted`).
* An ARP request teaches an address but does not release what waits for it; only a reply does. So datagrams for one hop
  leave in order exactly as long as none is sent while a different one waits (`OrderIffNeverOvertakes`, `RequestLetsOvertake`).

## Model

| member | source | states |
|---|---|---|
| WrappingIntegers.WrapCongruent | zju-comnet-labs/libsponge/wrapping_integers.cc:8-12 | two absolute numbers wrap alike exactly when they differ by a multiple of 2^32 |
| WrappingIntegers.WrapInjective | zju-comnet-labs/libsponge/wrapping_integers.cc:8-12 | numbers less than 2^32 apart are told apart by their wrapped form |
| WrappingIntegers.UnwrapCongruent | zju-comnet-labs/libsponge/wrapping_integers.cc:24-53 | whatever the checkpoint, the result wraps back to the number it was unwrapped from |
| WrappingIntegers.UnwrapWrap | zju-comnet-labs/libsponge/wrapping_integers.cc:24-53 | unwrapping a wrapped number with a checkpoint less than 2^31 away gives that number, for all 64-bit values |
| WrappingIntegers.UnwrapNearestIff | zju-comnet-labs/libsponge/wrapping_integers.cc:24-53 | the result is the congruent 64-bit number nearest the checkpoint if and only if the forward correction does not leave 64 bits |
| WrappingIntegers.OverflowMissesNearest | zju-comnet-labs/libsponge/wrapping_integers.cc:42-49 | where it does leave them, the result is the bare 32-bit offset and a nearer number exists |
| WrappingIntegers.UnwrapOverflowExample | zju-comnet-labs/libsponge/wrapping_integers.cc:42-49 | a concrete case: offset 0 with checkpoint 2^64 - 1 gives 0 |
| ByteStreams.ReadsAreFifo | zju-comnet-labs/libsponge/byte_stream.cc:18-52 | any sequence of reads returns consecutive bytes of what was written, in order and without a gap |
| ByteStreams.ByteStream.WriteBytes | zju-comnet-labs/libsponge/byte_stream.cc:18-30 | accepts as much as fits, nothing once ended or failed; the new stream is the old one with the accepted bytes appended |
| ByteStreams.ByteStream.PopOutput | zju-comnet-labs/libsponge/byte_stream.cc:39-43 | removes at most what is buffered and counts it as read; nothing else changes |
| ByteStreams.ByteStream.Read | zju-comnet-labs/libsponge/byte_stream.cc:48-52 | returns and removes the same next bytes |
| Reassembly.PushInv | zju-comnet-labs/libsponge/stream_reassembler.cc:28-193 | no push, whatever its bytes, breaks the interval map: non-empty, disjoint, at or after the next index; the edge stays, nothing assembled is taken back |
| Reassembly.PushHolds | zju-comnet-labs/libsponge/stream_reassembler.cc:70-188 | on an open stream a push adds to the indices held below the edge exactly its own indices: nothing held is lost |
| Reassembly.HonestPushHolds | zju-comnet-labs/libsponge/stream_reassembler.cc:70-193 | the same for pushes cut from one stream, open or ended, as long as the output has not failed |
| Reassembly.PushLeast | zju-comnet-labs/libsponge/stream_reassembler.cc:145-188 | on an open stream, a push that passes the window test leaves the next index at the edge or not held: everything that could be assembled was |
| Reassembly.HonestPushLeast | zju-comnet-labs/libsponge/stream_reassembler.cc:145-188 | the same for pushes cut from one stream, open or ended, as long as the output has not failed |
| Reassembly.RejectedIsHeld | zju-comnet-labs/libsponge/stream_reassembler.cc:83-95 | a push that fails the window test brings no index below the edge that was not held already |
| Reassembly.RejectedExactly | zju-comnet-labs/libsponge/stream_reassembler.cc:28-142 | a push that fails the window test does one thing: it drops a leftover at a full output that it begins before and covers |
| Reassembly.PushAgrees | zju-comnet-labs/libsponge/stream_reassembler.cc:145-188 | pushes cut from one stream assemble and store only bytes of it, each at its own index |
| Reassembly.HonestPush | zju-comnet-labs/libsponge/stream_reassembler.cc:28-193 | the end mark is set only at the true end, and the output closes exactly when that end is assembled |
| Reassembly.PushKeepsMarks | zju-comnet-labs/libsponge/stream_reassembler.cc:140-142 | a push that fails the window test records no end of stream: a FIN that meets a full window must be sent again |
| Reassembly.PushAppends | zju-comnet-labs/libsponge/stream_reassembler.cc:28-188 | what has been assembled is final, whatever is pushed afterwards, honest or not |
| Reassembly.TrimSpec | zju-comnet-labs/libsponge/stream_reassembler.cc:97-134 | swallowing fragments keeps the structure and leaves the range to be stored free of them |
| Reassembly.TrimHolds | zju-comnet-labs/libsponge/stream_reassembler.cc:97-134 | what was held and what is pushed are what is held after trimming and what is still to be stored |
| Reassembly.DrainSpec | zju-comnet-labs/libsponge/stream_reassembler.cc:166-188 | the drain loop keeps the structure and the edge, never moves the next index back, and on an open stream stops only at the edge or where the next index is not stored |
| Reassembly.RunStructure | zju-comnet-labs/libsponge/stream_reassembler.cc:106-188 | over every run of pushes, reads and failures the structure holds, so the assertion in the loop cannot fail |
| Reassembly.RunHoldsOnlyPushed | zju-comnet-labs/libsponge/stream_reassembler.cc:28-193 | over every run, an index that is held was pushed |
| Reassembly.PushGainsOnlyPushed | zju-comnet-labs/libsponge/stream_reassembler.cc:70-188 | no push, on any stream, holds an index neither held before nor pushed |
| Reassembly.RunBound | zju-comnet-labs/libsponge/stream_reassembler.cc:135-163 | over every run: stored bytes are at most the free output space plus the longest push, at most one fragment crosses the edge, and the counter is never below what is stored |
| Reassembly.RunKeepsAccepted | zju-comnet-labs/libsponge/stream_reassembler.cc:70-188 | over every run of pushes cut from one stream, an index pushed once below the edge is held for ever |
| Reassembly.SurplusLaw | zju-comnet-labs/libsponge/stream_reassembler.cc:126-183 | the exact law of `unassembled_bytes` on an open stream: a push adds to its excess over the stored bytes exactly the bytes dropped when the output is full |
| Reassembly.InsideWindowIsExact | zju-comnet-labs/libsponge/stream_reassembler.cc:126-183 | a push that ends inside the window leaves the excess as it is |
| Reassembly.CountIsExact | zju-comnet-labs/libsponge/stream_reassembler.cc:126-183 | over a run whose pushes all end inside the window of an open stream, the counter equals the stored bytes |
| Reassembly.CounterLaw | zju-comnet-labs/libsponge/stream_reassembler.cc:126-183 | the law of the counter on every stream: one that has ended or failed drops, and leaves counted, all that is next in line |
| Reassembly.RunCounterLaw | zju-comnet-labs/libsponge/stream_reassembler.cc:126-183 | over every run the counter exceeds the stored bytes by exactly what the pushes have lost |
| Reassembly.CountIsExactIff | zju-comnet-labs/libsponge/stream_reassembler.cc:126-183 | so it is exact after a run if and only if no push lost a byte |
| StreamReassemblers.StreamReassembler.PushSubstring | zju-comnet-labs/libsponge/stream_reassembler.cc:28-193 | the object, with its map edited in place, does what the operation on values does |
| StreamReassemblers.StreamReassembler.EraseCovered | zju-comnet-labs/libsponge/stream_reassembler.cc:115-134 | the swallowing loop erases exactly the fragments the push covers and finds where the push must be cut |
| StreamReassemblers.StreamReassembler.AssembleStored | zju-comnet-labs/libsponge/stream_reassembler.cc:166-188 | the drain loop over the map |
| StreamReassemblers.StreamReassembler.Empty | zju-comnet-labs/libsponge/stream_reassembler.cc:195-197 | `empty` never says yes while something is stored |
| Leftovers.LeftoverAdvancesIff | zju-comnet-labs/libsponge/stream_reassembler.cc:140-142 | a push at a stored leftover moves the assembled end if and only if the stream is open and the leftover ends below the edge |
| ReassemblyCases.LeftoverStalls | zju-comnet-labs/libsponge/stream_reassembler.cc:140-142 | a run in which the wanted byte arrives, there is room for it, and nothing is assembled |
| ReassemblyCases.FinOnFullWindowIsLost | zju-comnet-labs/libsponge/stream_reassembler.cc:140-142 | a run in which a FIN meets a full window, leaves no mark, and ends the stream only when sent again |
| ReassemblyCases.DroppedByteStaysCounted | zju-comnet-labs/libsponge/stream_reassembler.cc:172-180 | a run after which one byte is counted as unassembled and none is stored |
| Leftovers.PushParts | zju-comnet-labs/libsponge/stream_reassembler.cc:70-188 | when only whole segments of one numbering are pushed, every fragment stays part of one segment and a leftover begins inside its segment |
| Receiving.ReceiveInv | zju-comnet-labs/libsponge/tcp_receiver.cc:5-57 | no segment, honest or not, breaks the receiver |
| Receiving.RightEdgeIsEnforced | zju-comnet-labs/libsponge/tcp_receiver.cc:59-87 | acknowledgment number plus window is bytes read plus capacity plus one, plus one once ended, and is the edge the reassembler enforces |
| Receiving.ArriveAdvances | zju-comnet-labs/libsponge/tcp_receiver.cc:5-87 | no arrival and no read takes back an acknowledgment, the right edge, or the right edge after the window is clamped to 65535 |
| Receiving.EdgesNeverRetreat | zju-comnet-labs/libsponge/tcp_receiver.cc:5-87 | the same over any list of arrivals and reads (section 3.7 of RFC 793) |
| TCPReceivers.TCPReceiver.SegmentReceived | zju-comnet-labs/libsponge/tcp_receiver.cc:5-57 | the object updates its fields and its reassembler as the operation on values does |
| TCPReceivers.TCPReceiver.Ackno | zju-comnet-labs/libsponge/tcp_receiver.cc:59-80 | the 32-bit acknowledgment, absent before a SYN |
| TCPReceivers.TCPReceiver.Window | zju-comnet-labs/libsponge/tcp_receiver.cc:82-87 | the window, from the two byte counters |
| Sending.FillInv | zju-comnet-labs/libsponge/tcp_sender.cc:33-139 | filling ends, keeps the tiling, the numbering and the accounting (one SYN first, one FIN after all data), and goes nowhere past the window |
| Fillings.FillSends | zju-comnet-labs/libsponge/tcp_sender.cc:33-139 | in closed form: filling queues, tracks and counts the SYN if it is unsent, then the buffered bytes the window allows cut into pieces of 1000, each under its number, and the FIN on the last piece, or alone, if the stream is over and a number is left |
| Fillings.TrackedIsQueued | zju-comnet-labs/libsponge/tcp_sender.cc:118-132 | every segment filling tracks is one it has put on the queue, and those make up the advance of the next number |
| Fillings.PiecesAreFull | zju-comnet-labs/libsponge/tcp_sender.cc:62-64 | only the last piece may hold less than 1000 bytes |
| Sending.FillIsMaximal | zju-comnet-labs/libsponge/tcp_sender.cc:33-139 | after filling the window is used up, or the buffer is empty and FIN is sent or not yet due |
| Sending.NextSegmentFits | zju-comnet-labs/libsponge/tcp_sender.cc:41-128 | each segment sent is non-empty, at most 1000 payload bytes, and ends inside the window |
| Sending.SendInv | zju-comnet-labs/libsponge/tcp_sender.cc:41-132 | sending the next segment keeps the invariant: it abuts the others and holds exactly the stream slice its sequence number names, SYN and FIN where they belong |
| Sending.CarriesExtends | zju-comnet-labs/libsponge/tcp_sender.cc:33-223 | what a segment means stays true of every later state, so a resent segment still means it |
| Sending.AckRemovesPrefix | zju-comnet-labs/libsponge/tcp_sender.cc:157-168 | what an acknowledgment erases precedes everything it keeps |
| Sending.AckTiles | zju-comnet-labs/libsponge/tcp_sender.cc:157-182 | after an acceptable acknowledgment the outstanding segments again abut, end at the next number, and contain the acknowledged number in the first |
| Sending.AckInv | zju-comnet-labs/libsponge/tcp_sender.cc:143-191 | whatever is acknowledged the invariant holds; unacceptable acknowledgments change nothing, acceptable ones set the window, never move the acknowledged number back and leave the window filled |
| Fillings.AckExactly | zju-comnet-labs/libsponge/tcp_sender.cc:143-191 | an acceptable acknowledgment makes its window the window and takes its number, drops exactly the segments it covers, and at once sends what the new window allows, queued and tracked: afterwards that window is used up or nothing is left to send |
| Sending.TickInv | zju-comnet-labs/libsponge/tcp_sender.cc:194-223 | time passing keeps the invariant |
| Sending.SendEmptyInv | zju-comnet-labs/libsponge/tcp_sender.cc:229-234 | an empty segment keeps the invariant |
| Sending.BytesInFlight | zju-comnet-labs/libsponge/tcp_sender.cc:25-31 | the total over the map is the distance from the oldest outstanding number to the next one |
| TCPSenders.TCPSender.Fill | zju-comnet-labs/libsponge/tcp_sender.cc:33-139 | the loop, with its map and queue edited in place, fills as specified |
| TCPSenders.TCPSender.FillValid | zju-comnet-labs/libsponge/tcp_sender.cc:33-139 | between calls, what the loop puts on the queue is the planned segments and nothing else |
| TCPSenders.TCPSender.EraseAcked | zju-comnet-labs/libsponge/tcp_sender.cc:157-168 | the erasing loop drops exactly the segments that end at or before the acknowledgment |
| TCPSenders.TCPSender.AckReceivedFromPeer | zju-comnet-labs/libsponge/tcp_sender.cc:143-191 | the object takes an acknowledgment as specified, and the window with it exactly if it is acceptable |
| TCPSenders.TCPSender.TimePasses | zju-comnet-labs/libsponge/tcp_sender.cc:194-223 | the object lets time pass as specified, with a 32-bit timer and timeout |
| TCPSenders.TCPSender.BytesInFlight | zju-comnet-labs/libsponge/tcp_sender.cc:25-31 | the loop over the map adds up its sequence lengths |
| RetransmissionTimer.RetransmissionsTakeTime | zju-comnet-labs/libsponge/tcp_sender.cc:170-223 | in every run of a sender: the timer runs exactly while something is outstanding; the timeout is the initial one doubled once per retransmission into an open window, in 32 bits; and unless that overflows, k of those took at least (2^k - 1) times the initial timeout (section 5 of RFC 6298) |
| RetransmissionTimer.TimeoutFits | zju-comnet-labs/libsponge/tcp_connection.cc:91-94 | one doubling more than the limit on retransmissions keeps any 16-bit initial timeout inside 32 bits |
| RetransmissionTimer.LongTickCase | zju-comnet-labs/libsponge/tcp_sender.cc:196-200 | a run in which 2^32 ms pass at once and the SYN is not resent |
| ConnectionTimer.CappedIffNotRevived | zju-comnet-labs/libsponge/tcp_connection.cc:82-125 | a call keeps an active connection within 8 retransmissions if and only if it is not a connect after giving up |
| ConnectionTimer.LimitHoldsIff | zju-comnet-labs/libsponge/tcp_connection.cc:82-125 | over every run of a new connection the limit holds throughout if and only if it is never connected again after giving up |
| ConnectionTimer.ReconnectRevives | zju-comnet-labs/libsponge/tcp_connection.cc:121-125 | a connection that gives up and is connected again is active beyond the limit |
| ConnectionTimer.ConnectionBacksOff | zju-comnet-labs/libsponge/tcp_connection.cc:24-125 | over every run of a connection, what the sender's timer says about the time passed |
| ConnectionTimer.TimeoutNeverOverflows | zju-comnet-labs/libsponge/tcp_connection.cc:82-94 | over every run without such a connect: at most 8 retransmissions while active, a timeout of exactly the initial one doubled once per retransmission into an open window and below 2^32, and the time for them |
| ConnectionTimer.RevivedTimeoutOverflows | zju-comnet-labs/libsponge/tcp_connection.cc:121-125 | a run with such connects in which the timeout of an active connection wraps to zero |
| RetransmissionTimer.ShortTickIsExact | zju-comnet-labs/libsponge/tcp_sender.cc:196-200 | a step that does not wrap the 32-bit timer fires it exactly when the timeout is reached |
| RetransmissionTimer.LongTickMisses | zju-comnet-labs/libsponge/tcp_sender.cc:196-200 | a step that wraps it misses the expiry exactly when the remainder is below the timeout |
| Connecting.ApplyInv | zju-comnet-labs/libsponge/tcp_connection.cc:24-125 | every public call keeps the invariant of the connection, maximal filling included |
| Connecting.ApplyQueue | zju-comnet-labs/libsponge/tcp_connection.cc:138-172 | the outgoing queue only grows, by segments that mean what the numbering says and acknowledge what is wanted at that moment; a reset is no exception |
| Connecting.ApplyAckno | zju-comnet-labs/libsponge/tcp_connection.cc:38-41 | only a delivered acknowledgment moves the acknowledged number, and only to where it unwraps |
| Connecting.ApplyReceiver | zju-comnet-labs/libsponge/tcp_connection.cc:24-125 | only a delivered segment or a reader changes more of the inbound side than its error flag |
| Applications.WritesExactly | zju-comnet-labs/libsponge/tcp_connection.cc:71-79 | what a call does to the outbound stream: a write appends the bytes it takes, none if the endpoint is inactive or the stream ended or failed, and otherwise as many as fit; ending it ends it; a reset fails it; nothing else changes it but sending |
| Applications.ReadsExactly | zju-comnet-labs/libsponge/byte_stream.cc:18-52 | reading returns the next bytes assembled, and no call takes assembled bytes back |
| Applications.CapacitiesHold | zju-comnet-labs/libsponge/tcp_connection.hh:13-14 | over every run each stream keeps its own capacity and never holds more |
| Outgoings.ApplyAdvertises | zju-comnet-labs/libsponge/tcp_connection.cc:138-155 | whatever call is made, every segment it queues but a reset carries the free space of the inbound stream, cut to 65535, and once a SYN has come the number then wanted |
| Outgoings.AdvertisedEdgeNeverRetreats | zju-comnet-labs/libsponge/tcp_connection.cc:138-155 | over every run, the right edge that number and window of a queued segment name never retreats from one segment to a later one (section 3.7 of RFC 793) |
| Outgoings.AnswersExactly | zju-comnet-labs/libsponge/tcp_connection.cc:50-66 | an active endpoint answers whatever occupies sequence space and every keep-alive, and queues an empty segment only as such an answer and only alone |
| Connecting.EveryDataSegmentIsAnswered | zju-comnet-labs/libsponge/tcp_connection.cc:50-66 | a segment that occupies sequence space is always answered, and the answer acknowledges what is now wanted |
| Connecting.AllAcked | zju-comnet-labs/libsponge/tcp_connection.cc:100-102 | end of stream and zero bytes in flight amount to: FIN sent, and acknowledged number equal to next number equal to bytes written plus two |
| Connecting.CleanClose | zju-comnet-labs/libsponge/tcp_connection.cc:82-113 | `tick` deactivates a connection that has not given up only when both streams are over and acknowledged, and after lingering if it has to (section 3.5 of RFC 793) |
| Connecting.CloseIsComplete | zju-comnet-labs/libsponge/tcp_connection.cc:96-113 | and it keeps one active only if it is not over or still lingers |
| Connecting.GivingUpResetsOldest | zju-comnet-labs/libsponge/tcp_connection.cc:157-171 | the reset queued by a tick that gives up is the segment just resent, with its number, payload and flags |
| TCPConnections.TCPConnection.SegmentArrives | zju-comnet-labs/libsponge/tcp_connection.cc:24-67 | the object, with its sender and receiver objects, handles a segment as specified |
| TCPConnections.TCPConnection.PushOut | zju-comnet-labs/libsponge/tcp_connection.cc:138-155 | the loop stamps and moves every queued segment |
| TCPConnections.TCPConnection.TimePasses | zju-comnet-labs/libsponge/tcp_connection.cc:82-113 | the object ticks as specified |
| TCPConnections.TCPConnection.Shutdown | zju-comnet-labs/libsponge/tcp_connection.cc:157-172 | the object fails both streams and, if asked, sends the front of the queue as a reset |
| TCPConnections.TCPConnection.WriteBytes | zju-comnet-labs/libsponge/tcp_connection.cc:71-79 | the object writes, fills and pushes as specified; the stream grows by exactly the bytes whose number is returned |
| TCPStates.SummaryIsExact | zju-comnet-labs/libsponge/tcp_helpers/tcp_state.cc:94-110 | the comparisons of counters say what the state names say about SYN and FIN sent and acknowledged |
| TCPStates.StateMeans | zju-comnet-labs/libsponge/tcp_helpers/tcp_state.cc:17-110 | for each of the twelve official states: an endpoint is in it if and only if its SYN, its FIN, what is acknowledged of them, its receiver, and its flags are as the name says |
| TCPStates.CleanCloseIsClosed | zju-comnet-labs/libsponge/tcp_helpers/tcp_state.cc:67-80 | a clean close is the official state CLOSED if and only if the outbound stream has not failed |
| CloseCases.CleanCloseAfterReset | zju-comnet-labs/libsponge/tcp_connection.cc:24-125 | a run in which an endpoint closes cleanly with a failed stream: a reset while it lingers, a connect, ten timeouts |
| CloseCases.ResetAfterTheEnd | zju-comnet-labs/libsponge/tcp_connection.cc:24-125 | from any endpoint whose streams are over, a reset, a connect and ten timeouts lead to such a close |
| TCPStates.ShutdownIsReset | zju-comnet-labs/libsponge/tcp_helpers/tcp_state.cc:61-66 | a shutdown by reset, sent or received, is the official state RESET |
| EndToEnd.StepInv | zju-comnet-labs/libsponge/tcp_connection.cc:24-172 | one call at either end, or one transmission, keeps the invariant that joins both connections and all segments ever sent |
| EndToEnd.Safety | zju-comnet-labs/libsponge/stream_reassembler.cc:28-193 | over every run with a network that drops, duplicates, delays and reorders, what each side has assembled, and what its application has read, is a prefix of what the application at the other side has written by its calls, and all of it once the input has ended, which only the writer brings about |
| EndToEnd.RunOwns | zju-comnet-labs/libsponge/tcp_connection.cc:71-119 | over every run a stream grows by what is written, ends when it is ended, and yields what is read |
| EndToEnd.NoLoss | zju-comnet-labs/libsponge/tcp_sender.cc:143-182 | over every run: acknowledged <= wanted by the receiver <= next to send, and every written byte is assembled, in an outstanding segment, or still in the send buffer |
| EndToEnd.EveryUnwrapIsExact | zju-comnet-labs/libsponge/tcp_receiver.cc:28-45 | over every run below 2^31 sequence numbers, whatever segment may be delivered unwraps to the number the sender gave it |
| EndToEnd.AckStaysWanted | zju-comnet-labs/libsponge/tcp_sender.cc:143-153 | an acknowledgment that arrives, however old, names a number the peer really wanted |
| EndToEnd.AllAckedIsDelivered | zju-comnet-labs/libsponge/tcp_sender.cc:155-182 | once all is acknowledged the peer has assembled everything and seen the end |
| EndToEnd.CleanCloseDeliversBoth | zju-comnet-labs/libsponge/tcp_connection.cc:82-113 | over every run, a clean close by either side means both streams were delivered whole; its state is CLOSED if and only if its own stream had not failed |
| EndToEnd.RetransmissionAdvances | zju-comnet-labs/libsponge/tcp_sender.cc:206-208 | a segment that begins no later than what an open peer wants makes it want what follows, unless its window is full: no leftover stalls the stream |
| EndToEnd.OldestIsWanted | zju-comnet-labs/libsponge/tcp_sender.cc:206-208 | the oldest outstanding segment begins no later than what the peer wants |
| EndToEnd.ResendingHeals | zju-comnet-labs/libsponge/tcp_sender.cc:194-223 | over every run, when the timer of either side fires and it does not give up, the segment its tick queues, once delivered to an open peer, makes the peer want what follows the oldest outstanding segment, unless its window is full |
| RoundTrips.RoundsAcknowledge | zju-comnet-labs/libsponge/tcp_connection.cc:24-113 | over every run, delivering that segment and then the answer the peer queues last moves the acknowledged number past the segment that was oldest, unless the peer's window is full |
| RoundTrips.AckMovesTo | zju-comnet-labs/libsponge/tcp_connection.cc:38-41 | an acknowledgment of a number within what was sent moves the acknowledged number exactly there |
| Deliveries.DeliveryIsAlwaysPossible | zju-comnet-labs/libsponge/tcp_connection.cc:24-125 | from every reachable state in which an endpoint has begun and is short of its limit on retransmissions, and its peer is open with a capacity of one byte or more, some finite continuation of transmissions, deliveries, ticks at the endpoint and reads at the peer has everything written delivered, read and acknowledged |
| Deliveries.Round | zju-comnet-labs/libsponge/tcp_connection.cc:24-113 | with something outstanding, such a continuation acknowledges more than before and leaves the count of retransmissions below its limit |
| Deliveries.Hears | zju-comnet-labs/libsponge/tcp_connection.cc:24-60 | however little the window of the peer holds, reading and delivering in turn brings a whole segment in, and its acknowledgment is queued |
| Deliveries.AckStartsOver | zju-comnet-labs/libsponge/tcp_sender.cc:143-191 | the acknowledgment of an outstanding segment resets the count of retransmissions |
| Lingering.CloseWithoutLingering | zju-comnet-labs/libsponge/tcp_connection.cc:43-46 | over every run, when a side closes cleanly without lingering, its peer has sent its FIN and has everything acknowledged |
| Lingering.LingerCleared | zju-comnet-labs/libsponge/tcp_connection.cc:43-46 | the linger flag is cleared exactly by a segment after which the inbound stream is over and the outbound one is not, which is only while the FIN is unsent |
| Lingering.LingersTenTimeouts | zju-comnet-labs/libsponge/tcp_connection.cc:82-113 | over every run an endpoint whose streams are over and that lingers stays for ten of its timeouts after the last segment it received, and closes with the first tick that completes them |
| Lingering.TakesFin | zju-comnet-labs/libsponge/tcp_connection.cc:35-41 | a peer that takes a FIN acknowledging all it sent has nothing left unacknowledged |
| Connecting.ApplyAcks | zju-comnet-labs/libsponge/tcp_connection.cc:138-155 | whatever a call queues but resets acknowledges what is wanted after it |
| InternetChecksums.VerifiesIff | zju-comnet-labs/libsponge/util/util.cc:100-108 | a sum verifies exactly when it is a positive multiple of 65535 (section 1 of RFC 1071) |
| InternetChecksums.ComplementVerifies | zju-comnet-labs/libsponge/util/util.cc:100-108 | adding the checksum of a sum to it makes it verify |
| InternetChecksums.NextMultiple | zju-comnet-labs/libsponge/util/util.cc:89-108 | filling in a checksum never carries the 32-bit accumulator past its end |
| InternetChecksums.SumConcat | zju-comnet-labs/libsponge/util/util.cc:89-98 | the pieces in which data is added do not matter, odd lengths included |
| InternetChecksums.WordChange | zju-comnet-labs/libsponge/util/util.cc:89-98 | replacing an aligned word moves the sum by the difference of the words |
| InternetChecksums.InternetChecksum.Add | zju-comnet-labs/libsponge/util/util.cc:89-98 | the loop adds the weighted bytes modulo 2^32 and keeps the parity |
| InternetChecksums.InternetChecksum.Complement | zju-comnet-labs/libsponge/util/util.cc:100-108 | the folding loop returns the complement of the folded sum |
| Parsers.FromToBytes | zju-comnet-labs/libsponge/util/parser.cc:26-60 | a number written big-endian in n bytes is read back |
| Parsers.ToFromBytes | zju-comnet-labs/libsponge/util/parser.cc:26-60 | n bytes read as a number are written back |
| Parsers.ParseWritten | zju-comnet-labs/libsponge/util/parser.cc:26-43 | reading consumes exactly what was written |
| Parsers.NetParser.Int | zju-comnet-labs/libsponge/util/parser.cc:26-43 | the loop reads big-endian; with too few bytes or an earlier error it consumes nothing and gives zero |
| Parsers.Unparse | zju-comnet-labs/libsponge/util/parser.cc:53-60 | the shifting loop appends the big-endian bytes |
| TCPCodec.HeaderRoundTrip | zju-comnet-labs/libsponge/tcp_helpers/tcp_header.cc:17-78 | a header written and parsed comes back field by field, options skipped, the rest untouched |
| TCPCodec.FieldsAt | zju-comnet-labs/libsponge/tcp_helpers/tcp_header.cc:17-48 | each field is read where section 3.1 of RFC 793 places it |
| TCPCodec.FlagsAt | zju-comnet-labs/libsponge/tcp_helpers/tcp_header.cc:27-33 | and each flag from its bit |
| TCPCodec.SegmentRoundTrip | zju-comnet-labs/libsponge/tcp_helpers/tcp_segment.cc:12-45 | a segment sent with its checksum is accepted and comes back whole, options skipped, for any payload and any pseudo-header sum |
| TCPCodec.ShortOffsetIsAccepted | zju-comnet-labs/libsponge/tcp_helpers/tcp_segment.cc:19-22 | a data offset below 5, which the header parser refuses, is taken by the segment parser |
| TCPCodec.ShortOffsetCase | zju-comnet-labs/libsponge/tcp_helpers/tcp_segment.cc:19-22 | such a segment: twenty zero bytes with a pseudo-header sum of 65535 |
| TCPCodec.LastSumCase | zju-comnet-labs/libsponge/tcp_helpers/tcp_segment.cc:12-17 | accepted bytes in which a change by 65535 of one word is noticed, since the sum was the last that fits 32 bits |
| TCPCodec.WordChangeIsNoticed | zju-comnet-labs/libsponge/tcp_helpers/tcp_segment.cc:12-17 | changing one aligned word of accepted bytes gives BadChecksum if and only if the words differ modulo 65535, or the sum drops to zero, or is carried past the end of the accumulator |
| TCPCodec.AcceptsExactly | zju-comnet-labs/libsponge/tcp_helpers/tcp_segment.cc:12-23 | exactly which bytes are accepted: a good checksum over at least 20 bytes, and room for the data offset unless it is below 5, a verdict that is dropped |
| TCPCodec.Serialize | zju-comnet-labs/libsponge/tcp_helpers/tcp_segment.cc:30-45 | two additions to the checksum, then the header again with it in place |
| TCPCodec.ReadHeader | zju-comnet-labs/libsponge/tcp_helpers/tcp_header.cc:17-48 | the header is read one field at a time |
| TCPCodec.Parse | zju-comnet-labs/libsponge/tcp_helpers/tcp_segment.cc:12-23 | checksum first, then header and payload |
| IPv4.HeaderRoundTrip | zju-comnet-labs/libsponge/tcp_helpers/ipv4_header.cc:23-110 | a well-formed header comes back field by field, and the verdict on it is its checksum's (section 3.1 of RFC 791) |
| IPv4.FieldsAt | zju-comnet-labs/libsponge/tcp_helpers/ipv4_header.cc:23-75 | each field is read where section 3.1 of RFC 791 places it |
| IPv4.PseudoChecksumIsSum | zju-comnet-labs/libsponge/tcp_helpers/ipv4_header.cc:112-131 | what goes into a TCP checksum from the IP header is the sum of the pseudo-header of section 3.1 of RFC 793 |
| IPv4.CheckedVerifies | zju-comnet-labs/libsponge/tcp_helpers/ipv4_datagram.cc:28-36 | a header sent with its checksum verifies |
| IPv4.DatagramRoundTrip | zju-comnet-labs/libsponge/tcp_helpers/ipv4_datagram.cc:11-41 | a well-formed datagram that is serialised is parsed back, checksum filled in and found correct |
| IPv4.AcceptsExactly | zju-comnet-labs/libsponge/tcp_helpers/ipv4_datagram.cc:11-21 | exactly which bytes are accepted as a datagram, although the verdict on the header is dropped |
| IPv4.WrongVersionIsAccepted | zju-comnet-labs/libsponge/tcp_helpers/ipv4_datagram.cc:11-21 | another IP version with a 20-byte header and a truthful length is accepted, although the header parser refuses it |
| IPv4.ChecksumIsIgnored | zju-comnet-labs/libsponge/tcp_helpers/ipv4_datagram.cc:11-21 | whatever is written over the header checksum, the datagram parser gives the same verdict and the same fields otherwise |
| IPv4.Serialize | zju-comnet-labs/libsponge/tcp_helpers/ipv4_datagram.cc:23-41 | the checksum is taken over the header alone; a wrong payload size, version or header length throws |
| IPv4.ReadHeader | zju-comnet-labs/libsponge/tcp_helpers/ipv4_header.cc:23-75 | the header is read field by field, and its errors are found in the order of the code |
| IPv4.Parse | zju-comnet-labs/libsponge/tcp_helpers/ipv4_datagram.cc:11-21 | header, payload, one length test |
| TCPOverIP.MirrorReceives | zju-comnet-labs/libsponge/tcp_helpers/tcp_over_ip.cc:26-90 | a wrapped segment, serialised, parsed and unwrapped under the mirrored configuration, is the same segment with ports and checksum filled in |
| TCPOverIP.WireIsLabelled | zju-comnet-labs/libsponge/tcp_helpers/tcp_over_ip.cc:75-90 | the bytes of a wrapped segment: version 4 without options, the true length, not to be fragmented, TTL 128, protocol 6, the configured addresses, and behind them the ports |
| TCPOverIP.TakesExactly | zju-comnet-labs/libsponge/tcp_helpers/tcp_over_ip.cc:26-71 | exactly which datagrams are taken, and that the adapter changes only when a listener takes one |
| TCPOverIP.ListenerLearns | zju-comnet-labs/libsponge/tcp_helpers/tcp_over_ip.cc:55-62 | a listener on the right port takes exactly a SYN that is no RST, and afterwards mirrors the sender; otherwise it does not change |
| TCPOverIP.OthersAreIgnored | zju-comnet-labs/libsponge/tcp_helpers/tcp_over_ip.cc:26-53 | an adapter that does not mirror the sender delivers nothing and does not change |
| TCPOverIP.DamageIsDropped | zju-comnet-labs/libsponge/tcp_helpers/tcp_over_ip.cc:43-47 | damage to one aligned word of the TCP bytes, not invisible modulo 65535, delivers nothing |
| TCPOverIP.TCPOverIPv4Adapter.WrapInIP | zju-comnet-labs/libsponge/tcp_helpers/tcp_over_ip.cc:75-90 | the object sets ports, addresses and length and serialises the segment |
| TCPOverIP.TCPOverIPv4Adapter.UnwrapFromIP | zju-comnet-labs/libsponge/tcp_helpers/tcp_over_ip.cc:26-71 | the object filters, learns and delivers as specified |
| ARP.RoundTrip | zju-comnet-labs/libsponge/tcp_helpers/arp_message.cc:9-73 | an ARP message comes back as it was written, whatever padding follows (RFC 826) |
| ARP.AcceptsOnlyMessages | zju-comnet-labs/libsponge/tcp_helpers/arp_message.cc:9-45 | bytes are accepted if and only if they are a supported message, written out, with padding |
| ARP.Layout | zju-comnet-labs/libsponge/tcp_helpers/arp_message.cc:9-45 | byte for byte: exactly which bytes are accepted, and where RFC 826 places the fields |
| Interfaces.SendInv | zju-comnet-labs/libsponge/network_interface.cc:21-62 | sending keeps cache, requests, queues and log in agreement, whether it frames, waits, asks or throws |
| Interfaces.ReceiveInv | zju-comnet-labs/libsponge/network_interface.cc:65-139 | so does receiving any frame |
| Interfaces.ReceivesExactly | zju-comnet-labs/libsponge/network_interface.cc:65-139 | frames for other stations, of other types or without an ARP message change nothing; a datagram is handed up exactly if it comes in an IPv4 frame for this station or for all; what an ARP message makes the interface send |
| Interfaces.SendsExactly | zju-comnet-labs/libsponge/network_interface.cc:21-62 | after any calls: a datagram leaves at once, to the address in its hop's last message, exactly if that is under 30000 ms old; otherwise it waits, and the hop is asked for, in a request given byte by byte, unless that was done under 5000 ms ago and not answered since |
| Interfaces.FramesLeaveInOrder | zju-comnet-labs/libsponge/network_interface.cc:21-139 | over every run the frames taken by the owner and those still queued are the frames sent, in order |
| Interfaces.TickInv | zju-comnet-labs/libsponge/network_interface.cc:142-166 | so does any tick |
| Interfaces.RunInv | zju-comnet-labs/libsponge/network_interface.cc:21-166 | so they agree after every run of calls |
| Interfaces.LogMatchesCalls | zju-comnet-labs/libsponge/network_interface.cc:65-89 | what the log says was heard last from an address is what the calls delivered last in a frame for this station or for all, and its clock is the sum of the ticks |
| Interfaces.CacheIsTheLastHalfMinute | zju-comnet-labs/libsponge/network_interface.cc:85-153 | after any calls and ticks the cache holds an address exactly if its last ARP message came under 30000 ms ago, with that message's Ethernet address and the exact time left |
| Interfaces.FramesGoToRecentAddresses | zju-comnet-labs/libsponge/network_interface.cc:27-34 | over every run, each IPv4 frame goes to the address in the last message from its hop, heard under 30000 ms before, and carries the datagram's bytes |
| Interfaces.RequestsAreSpaced | zju-comnet-labs/libsponge/network_interface.cc:39-60 | over every run, two requests for one address have a reply from it between them, or at least 5000 ms |
| Interfaces.FlushSpec | zju-comnet-labs/libsponge/network_interface.cc:111-134 | a flush sends the waiting datagrams in order up to one that cannot be serialised, keeps the rest, and touches no other queue |
| Interfaces.RequestIsAnswered | zju-comnet-labs/libsponge/network_interface.cc:91-109 | a request for this interface is answered to the asker, who is learnt |
| Interfaces.Resolution | zju-comnet-labs/libsponge/network_interface.cc:21-139 | when request and reply arrive, all that waited goes out in order, nothing stays behind, and the other side reads back the datagrams sent |
| HopOrder.SendKeepsOrderIff | zju-comnet-labs/libsponge/network_interface.cc:21-62 | sending keeps first-in-first-out for a hop if and only if it does not frame a datagram while a different one waits for that hop |
| HopOrder.FlushKeepsOrder | zju-comnet-labs/libsponge/network_interface.cc:115-133 | a flush keeps it for every hop |
| HopOrder.CallKeepsOrderIff | zju-comnet-labs/libsponge/network_interface.cc:21-166 | so of all calls only such a send breaks it |
| HopOrder.OrderIffNeverOvertakes | zju-comnet-labs/libsponge/network_interface.cc:21-166 | over every run, datagrams for a hop leave in the order in which they were handed over if and only if none was so sent |
| HopOrder.RequestLetsOvertake | zju-comnet-labs/libsponge/network_interface.cc:85-109 | a run that loses the order: one datagram waits, a request of its hop arrives, the next datagram goes out first |
| EthernetInterfaces.NetworkInterface.SendDatagram | zju-comnet-labs/libsponge/network_interface.cc:21-62 | the object sends, waits and asks as specified |
| EthernetInterfaces.NetworkInterface.RecvFrame | zju-comnet-labs/libsponge/network_interface.cc:65-139 | the object receives, learns, replies and flushes as specified |
| EthernetInterfaces.NetworkInterface.FlushPending | zju-comnet-labs/libsponge/network_interface.cc:115-133 | the inner loop sends what waits |
| EthernetInterfaces.NetworkInterface.AgeCache | zju-comnet-labs/libsponge/network_interface.cc:144-153 | the loop that erases while it iterates ages or erases every cache entry once |
| EthernetInterfaces.NetworkInterface.AgeRequests | zju-comnet-labs/libsponge/network_interface.cc:156-165 | likewise for the request timers |
| EthernetInterfaces.NetworkInterface.TimePasses | zju-comnet-labs/libsponge/network_interface.cc:142-166 | both loops together are a tick |
| Routing.MaskIsPrefix | zju-comnet-labs/libsponge/router.cc:43-54 | for every prefix length from 0 to 32 the mask test is equality of the high-order bits |
| Routing.BestMatchIsLongest | zju-comnet-labs/libsponge/router.cc:34-61 | the loop finds the longest matching route, the last one added on ties, and none exactly when none matches (section 5.2.4.3 of RFC 1812) |
| Routing.DecidesByLongestMatch | zju-comnet-labs/libsponge/router.cc:23-74 | a datagram is dropped exactly if its TTL is at most one or nothing matches, and otherwise forwarded by the longest match with its TTL lowered by one |
| Routing.RouteDelivers | zju-comnet-labs/libsponge/router.cc:76-85 | `route` ends, and each waiting datagram, in order, is dropped or handed to exactly one interface; if sending throws, that datagram and those behind it stay |
| Routing.ArrivalsQueue | zju-comnet-labs/libsponge/router.hh:30-35 | a datagram in an IPv4 frame for an interface joins the back of its inbox, and no other frame changes an inbox |
| Routing.RouteCompletes | zju-comnet-labs/libsponge/router.cc:76-85 | if every waiting datagram can be serialised nothing throws and all queues are emptied |
| Routing.EachOnce | zju-comnet-labs/libsponge/router.cc:23-74 | the datagrams handed to the interfaces and those dropped add up to those routed |
| Routing.RoutedExactlyOnce | zju-comnet-labs/libsponge/router.cc:76-85 | routing adds to what an interface has framed or holds for a hop exactly the datagrams the table assigns to them, each once |
| Routing.RouterRunInv | zju-comnet-labs/libsponge/router.cc:23-85 | over every run of arrivals, ticks and routing the interfaces of a router keep their agreement |
| Routing.HandoffsAreConserved | zju-comnet-labs/libsponge/router.cc:76-85 | over every such run, what an interface was handed for a hop is framed or pending there, each datagram once, and the next routing adds exactly what the table assigns |
| EthernetRouters.IPRouter.FindRoute | zju-comnet-labs/libsponge/router.cc:35-61 | the loop over the table |
| EthernetRouters.IPRouter.RouteOneDatagram | zju-comnet-labs/libsponge/router.cc:23-74 | the object routes one datagram as specified, changing only the chosen interface |
| EthernetRouters.IPRouter.DrainQueue | zju-comnet-labs/libsponge/router.cc:80-83 | the inner loop empties one queue, or stops at a throw |
| EthernetRouters.IPRouter.RouteAll | zju-comnet-labs/libsponge/router.cc:76-85 | the outer loop visits every interface |
| EthernetRouters.AsyncNetworkInterface.RecvFrame | zju-comnet-labs/libsponge/router.hh:30-35 | a received datagram joins the queue of the interface |
| Framing.RoundTripIff | lab6/code/server/server.cpp:14-27 | a message is read back as sent if and only if its payload fits the 16-bit length |
| Framing.FrameLayout | lab6/code/server/server.cpp:17-23 | type, length with the high byte first as far as two bytes hold it, payload |
| Framing.LongPayloadIsCut | lab6/code/server/server.cpp:17-23 | a longer payload is cut to its length modulo 65536, and the excess is read as further frames |
| Framing.DecodeIsFaithful | lab6/code/server/server.cpp:107-119 | the frames found and the bytes kept make up the buffer, and no whole frame is kept |
| Framing.DecodeEncoded | lab6/code/server/server.cpp:107-119 | a stream of frames with an incomplete tail decodes to those frames and that tail |
| Framing.ChunkingIsInvisible | lab6/code/client/func.cpp:131-155 | however the stream is cut into chunks, the loop finds the same frames and keeps the same bytes |
| Framing.FramesInOrder | lab6/code/client/func.cpp:131-155 | at any moment the frames handled are the first ones sent, in order, and the buffer is a proper prefix of the next |
| Framing.ServerChunkingIsInvisible | lab6/code/server/server.cpp:107-202 | the server handles the frames up to the first DISCONNECT and no more, however the stream is cut |
| Framing.Frame | lab6/code/client/func.cpp:6-15 | one frame, built byte by byte |
| Framing.Client.OnRecv | lab6/code/client/func.cpp:142-155 | the client's loop over its buffer |
| Framing.Server.OnRecv | lab6/code/server/server.cpp:107-202 | the server's loop over its buffer, which returns at DISCONNECT |

## Left out

- Wrap-around of 64-bit counters and of `size_t` arithmetic, except the subtraction in the receiver's stream index, which is modelled modulo 2^64: streams are shorter than that.
- The end-of-stream sentinel 2^64 - 1 of the reassembler is an absent value.
- Streams of 2^31 - 2 bytes or more in `EndToEnd`: beyond that, 32-bit sequence numbers of old duplicates are ambiguous.
- Fairness over infinite runs: that a fair network delivers in the end is not stated; only that a finite continuation can deliver everything (`DeliveryIsAlwaysPossible`); it is stated for a peer with some capacity and an endpoint that has a retransmission left, since without them nothing more need arrive.
- Sockets, file descriptors, the event loop, threads, the `TCPSpongeSocket` wrapper, TUN and TAP devices.
- DNS and address text; an address is a 32-bit number and a port.
- Random initial sequence numbers and Ethernet addresses are arbitrary inputs.
- Sharing and views in `Buffer` and `BufferList`: byte sequences. A list of several buffers, which cannot be converted to one, is taken as concatenated, as it is on the wire.
- The reset sent by the destructor of `TCPConnection`.
- The byte format of Ethernet headers: the interface takes and gives frames as values.
- Exceptions are flags or absent values; what state they leave behind is modelled for the interface and the router only.
- Prefix lengths above 32 and routes to interfaces that do not exist: the code's behaviour there is undefined.
- `to_string`, `summary`, `name` and other output; the comparison of `TCPState` values.
- The commands of lab6, its client table and its locks; `send` sending only part of a frame.
