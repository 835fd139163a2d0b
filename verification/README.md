# Verified model of the DPDK echo server, its clients and its log analysis

The repository measures how fast a user-space server can echo IPv4/UDP packets and whether it has to
recompute checksums to do so. This project models the parts that carry an argument and proves it:

* **Checksum modes** (`OnesComplement`, `Frames`, `EchoModes`, `EchoProofs`, `ReplyTests`): one's-complement sums
  over bytes (RFC 1071), the header test of RFC 791 section 3.1 and the checksum rules of RFC 768, the endpoint
  swap, and the modes `software`, `offload`, `preserve` and `none`. The experiment's claim that leaving the
  checksums alone "may be correct" becomes an exact condition.
* **The staged burst passes** (`BurstPasses`): parse, rewrite and checksum passes over real mbufs through
  header-pointer arrays, in place, with and without look-ahead prefetch.
* **The workers** (`TxBuffering`, `TransmitCalls`, `TxTurns`, `WorkerModel`, `WorkerProofs`, `WindowProofs`,
  `StageLedger`, `LoopLedger`, `EchoWorkers`, `MbufBuffering`, `BurstPipeline`): the poll loop with its bounded
  transmit buffer, drop counter, cycle timers and report windows. `EchoWorkers` holds the loops as methods of a
  class; each method is proved equal to a step of `WorkerModel`, and the other modules prove what every run of
  those steps keeps, which transmit calls it makes, when it prints a report and what the report counts.
  `BurstPipeline` runs the loop on real mbufs that are received into, echoed in place, buffered and reused.
  The buffer of `MbufBuffering` takes the bytes from the mbufs at each transmit call, and these are proved to
  be those of the state machine.
* **Whole servers** (`Servers`, `WorkerLaunch`): buffered against unbuffered servers in different modes,
  several queues under any interleaving, and the mapping of queues to lcores.
* **The clients** (`ClientPackets`, `ClientBuild`, `EndToEnd`, `FlowSchedule`, `ClientWorkers`,
  `LatencyClient`, with `Arithmetic` beneath them): request packets from scratch and from the template
  table, the reply test, the flow-id schedule, transmit and receive accounting, and recorded latencies.
* **The analysis** (`RoundCollection`, `Aggregation`, `StageStack`, `Selection`): regrouping log lines into
  rounds, weighted averages, stacked stage averages, and the choice of representative rounds.
* **Inputs that surprise** (`CounterExamples`): concrete frames, logs and rounds for the differences below.

Run `dafny verify dfyconfig.toml` in this directory.

## What is assumed

The DPDK calls and the hardware are outside the code and enter as parameters or as small definitions:

* a receive call returns at most `burstSize` packets, in distinct buffers (`WorkerModel.WellBehaved`,
  `BurstPasses.ValidBurst`);
* a transmit call takes a prefix of what it is offered (`TxBuffering.Taken`) and the NIC sends the bytes that
  these mbufs hold at the call; the buffered calls append, flush when full, and hand the unsent suffix to the counting callback, which frees it;
* timer reads never go back and stay within 64 bits;
* `rte_ipv4_cksum`, `rte_ipv4_phdr_cksum` and `rte_ipv4_udptcp_cksum` follow the RFCs (the UDP one joins two
  folded sums with one carry, and sends a zero result as 0xFFFF);
* checksum completion needs the IPv4 type flag and, for UDP, the length of the UDP header
  (`EchoModes.Transmittable`);
* checksum completion in the NIC sums the bytes as they are, including the seeded UDP field, and sends a
  UDP result of 0 as 0xFFFF (`EchoModes.NicUdpChecksum`; `OffloadCompletesToSoftware` needs it).

## Where the code differs from what its documentation or shape suggests

* `preserve` is not equal to `software` on every valid request: an IPv4 checksum of 0xFFFF and a UDP
  checksum of 0 are the verifying inputs where they differ (`EchoProofs.PreserveEqualsSoftwareIff`;
  `CounterExamples.AllOnesHeaderDiffers` and `NoUdpChecksumDiffers` give one frame each).
* The server looks for the UDP header at a fixed offset. With IPv4 options a `preserve` reply still
  verifies, but the ports are exchanged in no mode, unless they are equal
  (`EchoProofs.PortsExchangedIff`, `CounterExamples.OptionsKeepPorts`). With exactly four bytes of options the
  fixed place of the checksum is the destination port. Every mode but `preserve` replaces it: `software` by
  the UDP checksum, `offload` by the pseudo-header sum, `none` by zero
  (`EchoProofs.DestinationPortOverwritten`); even equal ports survive that only if they are that very word
  (`CounterExamples.FourOptionsMisdirect`).
* A `software` reply does not always verify. Behind a header of 28 bytes or more the UDP checksum is stored
  inside the options, after the header checksum was computed over them, and the reply fails the IPv4 test
  unless it meets the word that was there already (`ReplyTests.SoftwareIpVerifiesIff`,
  `CounterExamples.OptionsSpoilHeader`). With 24 bytes the real UDP checksum is never recomputed although the
  destination port changes (`ReplyTests.UdpReplyVerifiesIff`). Without options the server sums the bytes that
  the total length promises, a receiver those that the UDP length names
  (`ReplyTests.SoftwareUdpVerifiesIff`).
* The client's reply test never looks at a checksum, so it accepts replies of every mode, also of `none`
  (`EndToEnd.ReplyMatchesIff`).
* `craft_packet` cuts the 64-bit flow id to 32 bits and the template lookup does not
  (`ClientBuild.AllIdsMatchIff`, `CounterExamples.TemplateDiffers`). Past 2^32 the two clients therefore reach
  different sets of flows (`FlowSchedule.CutFlowUsedIff` against `FlowUsedIff`).
* After a reply that does not match, the latency client sends a request for the same flow again, so stray
  frames leave it behind for good: after d of them, with two or more flows, only one reply in d + 1 is counted
  as correct, and each sample pairs the last request for a flow with the echo of the first
  (`LatencyClient.StaysBehind`).
* `collect_rounds`: the append in the repeat branch can be reached, but only when one queue is expected and
  other queue ids occur (`RoundCollection.RepeatAppendUnreachableIff`); and a complete block of lines is
  missed when it starts while another, still unrepeated, group is being collected
  (`RoundCollection.BlockReturnedIff`, `CounterExamples.BlockMissed`). A returned round need not come from one
  report of the queues: a log that lost its first lines yields only rounds torn from two reports, to its end
  (`RoundCollection.LostLinesTearRounds`).
* Weighted averages of per-packet figures lose the cycles of queues that received nothing
  (`Aggregation.AverageExactIff`, `CounterExamples.IdleQueueLost`).
* Transmit cycles are divided by transmitted packets but weighted by received ones. The average is too high
  as soon as a queue with transmit cycles has sent less than it received (`Aggregation.TxAverageExactIff`,
  `CounterExamples.DropsInflate`); cycles of queues that sent nothing pull the other way
  (`Aggregation.TxAverageBalanceIff`). For the same reason the stage averages of a round, which are drawn on
  top of each other under the average of the total, add up to it only if the transmit excess of the loaded
  queues cancels out (`StageStack.PrintedStagesAddUpIff`).

## Model

| member | source | states |
|---|---|---|
| OnesComplement.FoldUnique | app/echo_server_checksum_exp.c:442-446 | The folded sum is the one 16-bit value congruent to the sum modulo 0xFFFF that is zero only for a zero sum. |
| OnesComplement.AddCarries | app/echo_server_checksum_exp.c:442-446 | The end-around-carry loop computes the folded sum for accumulators of any size. |
| OnesComplement.CarriesNeeded | app/echo_server_checksum_exp.c:442-446 | Two carries finish a 32-bit accumulator; one finishes the sum of two folded words. |
| OnesComplement.OneCarryJoinsParts | app/echo_server_checksum_exp.c:446-446 | Partial checksums joined with a single carry equal the one-pass checksum. |
| OnesComplement.VerifyingWords | app/echo_server_checksum_exp.c:442-446 | Which checksum words make a block verify: the complement, and 0xFFFF in place of 0. |
| OnesComplement.ByteOrderIndependence | app/echo_server_checksum_exp.c:442-446 | RFC 1071 section 2 (B): summing in little-endian order gives the byte-swapped checksum, so the host's byte order does not matter. |
| OnesComplement.OddBytePadded | app/echo_server_checksum_exp.c:442-446 | An odd last byte counts as if a zero byte followed it, in either byte order. |
| Frames.SwapTwice | app/echo_server_checksum_exp.c:420-431 | Exchanging the endpoints twice restores the frame. |
| Frames.SwapKeepsWordSum | app/echo_server_checksum_exp.c:425-431 | The exchange permutes whole words of any header range holding both ends, odd ends included, so its sum stays. |
| EchoProofs.EndpointsExchanged | app/echo_server_checksum_exp.c:412-432 | In every mode the MAC addresses, the IPv4 addresses and the two words at the UDP ports trade places, and nothing else but the checksum fields changes. |
| EchoProofs.EchoOnlySwapsOutsideChecksums | app/echo_server_checksum_exp.c:412-463 | In every mode each byte outside the checksum fields is where the swap puts it, and nothing else changes. |
| EchoProofs.PreserveVerifiesIff | docs/checksum_modes_experiment.md:27-34 | A preserve reply passes the IPv4 test, and the UDP test, exactly when the request did, with any header length and any payload. |
| EchoProofs.PortsExchangedIff | app/echo_server_checksum_exp.c:403-406 | For every mode and header length: the reply has exchanged ports exactly when there are no options, or the ports are equal and, behind 24 bytes of header, are also the word stored in the destination port. |
| EchoProofs.DestinationPortOverwritten | app/echo_server_checksum_exp.c:441-462 | With a 24-byte header the source port stays and the destination port becomes the word the mode stores: the UDP checksum, the pseudo-header sum, zero, or under preserve itself. |
| EchoProofs.EchoStoresWord | app/echo_server_checksum_exp.c:441-462 | The word a mode leaves at the place of the UDP checksum, for every header length it accepts. |
| EchoProofs.EchoStoresIpWord | app/echo_server_checksum_exp.c:441-462 | What every mode leaves as IPv4 header checksum, and its transmit metadata: lengths 14, 20 and 8 with the IPv4, IP-checksum and UDP-checksum flags for offload, the received ones otherwise. |
| CounterExamples.FourOptionsMisdirect | app/echo_server_checksum_exp.c:403-462 | A frame with a 24-byte header and equal ports whose reply goes to port 0xE7B8, 0x163E or 0 in the modes other than preserve. |
| CounterExamples.OptionsKeepPorts | app/echo_server_checksum_exp.c:403-406 | A frame with options whose reply has, in every mode, the request's source port. |
| EchoProofs.PreserveTwice | app/echo_server_checksum_exp.c:420-431 | Under preserve the second echo undoes the first. |
| EchoProofs.IpWordVerifies | app/echo_server_checksum_exp.c:442-443 | Recomputation never stores 0xFFFF, and exactly which header checksums verify. |
| EchoProofs.UdpWordVerifies | app/echo_server_checksum_exp.c:445-446 | Recomputation stores the one-pass RFC 768 checksum, never 0, and exactly which nonzero UDP checksums verify. |
| EchoProofs.SoftwareVerifies | app/echo_server_checksum_exp.c:441-446 | Whatever the request's checksums were, the software reply is canonical (it verifies under both tests and uses neither special value) exactly when the request has the fixed format. |
| ReplyTests.SoftwareIpVerifiesIff | app/echo_server_checksum_exp.c:441-446 | For every header length: the software reply passes the IPv4 test exactly when the header has at most 24 bytes or the word at byte 40 is the stored UDP checksum modulo 0xFFFF. |
| ReplyTests.SoftwareUdpVerifiesIff | app/echo_server_checksum_exp.c:445-446 | Without options the software reply passes the UDP test exactly when the sums over the promised and over the named length agree modulo 0xFFFF, so always for equal lengths, or 0 was stored, which needs another protocol. |
| ReplyTests.UdpReplyVerifiesIff | app/echo_server_checksum_exp.c:441-462 | For every mode and header length, when the reply passes the UDP test; behind 28 bytes or more, exactly when the request did. |
| CounterExamples.OptionsSpoilHeader | app/echo_server_checksum_exp.c:441-446 | A request with options that passes both tests, as does its preserve reply, while its software reply fails the IPv4 test. |
| EchoProofs.PreserveEqualsSoftwareIff | docs/checksum_modes_experiment.md:19-34 | preserve and software give the same packet exactly when the request is canonical: it verifies, with a header checksum other than 0xFFFF and a nonzero UDP checksum. |
| CounterExamples.AllOnesHeaderDiffers | docs/checksum_modes_experiment.md:27-34 | A frame with header checksum 0xFFFF that passes both tests and is answered differently. |
| CounterExamples.NoUdpChecksumDiffers | docs/checksum_modes_experiment.md:27-34 | A frame without UDP checksum that passes both tests and is answered differently. |
| EchoProofs.OffloadCompletesToSoftware | app/echo_server_checksum_exp.c:447-458 | The offload reply carries all that the NIC needs to complete both checksums, and once completed it is byte for byte the software reply. |
| EchoProofs.ModesAgreeOnCanonical | docs/checksum_modes_experiment.md:27-39 | On requests with canonical checksums the three modes put the same bytes on the wire, and these are again canonical. |
| BurstPasses.SwapInPlace | app/echo_server_checksum_exp.c:420-431 | The in-place exchange through temporaries moves every byte of the buffer as the swap permutation says. |
| BurstPasses.ParseBurst | app/echo_server_checksum_txbuf_prefetch_exp.c:457-470 | All header pointers are set, and the look-ahead touches exactly the positions from the offset on, each inside the burst. |
| BurstPasses.RewriteBurst | app/echo_server_checksum_txbuf_prefetch_exp.c:475-495 | The rewrite pass swaps every frame of the burst; bytes of the data rooms behind the frames, and everything else, stay. |
| BurstPasses.TreatChecksumsInPlace | app/echo_server_checksum_txbuf_prefetch_exp.c:504-525 | The in-place treatment of one mbuf, bytes and metadata, is the pure one for the mode. |
| BurstPasses.EchoBurst | app/echo_server_checksum_txbuf_prefetch_exp.c:456-528 | The three staged passes leave every mbuf of a burst of distinct mbufs equal to the pure per-packet echo and the bytes behind the frames as they were, with and without prefetch. |
| MbufBuffering.MbufTxBuffer.Transmit | app/echo_server_checksum_txbuf_exp.c:107-117 | At a transmit call the bytes sent grow by what the mbufs taken hold then, and the bytes dropped by what the others hold. |
| MbufBuffering.MbufTxBuffer.AppendAll | app/echo_server_checksum_txbuf_exp.c:524-527 | Buffering a burst of mbufs moves the bytes sent, dropped and waiting as buffering the packets in them does. |
| BurstPipeline.EchoAndBuffer | app/echo_server_checksum_txbuf_exp.c:450-527 | Echoing a burst in place and buffering its mbufs sends, drops and keeps the bytes of the mbufs that waited, untouched, followed by the echoes; so a full buffer never hands out a packet that is not echoed yet. |
| BurstPipeline.RunTurn | app/echo_server_checksum_txbuf_exp.c:416-548 | One iteration on mbufs, from receive to flush: the bytes read at its transmit calls, the bytes freed and the bytes waiting are what one turn on the echoed packets says. |
| BurstPipeline.RunPolls | app/echo_server_checksum_txbuf_exp.c:400-555 | Over any run on a pool of mbufs reused once sent or freed, the bytes read at the transmit calls, those freed unsent, and those in the mbufs still waiting are the echoes of all received packets, accounted for in receive order; the last burst's mbufs hold its echoes. |
| BurstPipeline.MbufRunIsWorkerRun | app/echo_server_checksum_txbuf_exp.c:400-555 | On the polls of a worker these are the bytes of the worker's state machine. |
| TxTurns.BufferedRunIsTxRun | app/echo_server_checksum_txbuf_exp.c:424-537 | The transmit side of every buffered run is the run of its turns: flush on an empty poll, else buffer and flush when overdue. |
| TxBuffering.FlushAccounts | app/echo_server_checksum_txbuf_exp.c:95-118 | A flush empties the buffer and keeps the account of every offered packet: sent, dropped or buffered, each in offered order. |
| TxBuffering.PushAllAccounts | app/echo_server_checksum_txbuf_exp.c:524-527 | Buffering a burst adds it to the account and leaves less than a full buffer. |
| TxBuffering.TransmitAccounts | app/echo_server_checksum_exp.c:467-481 | The unbuffered burst with its partial-burst drop loop keeps the same account with nothing waiting. |
| TxBuffering.FlushSends | app/echo_server_checksum_txbuf_exp.c:107-117 | Of a flushed buffer exactly as many packets as the NIC took are sent, the first ones in order; the others are counted and freed. |
| TxBuffering.PushCallsIff | app/echo_server_checksum_txbuf_exp.c:524-527 | Buffering a packet makes a transmit call exactly when it fills the buffer; otherwise the packet only waits. |
| TransmitCalls.BufferedCallsExplained | app/echo_server_checksum_txbuf_exp.c:424-537 | Over any run the transmit calls follow from the burst lengths and flush checks alone (full buffers, and a rest at a flush); the lifetime and reported transmissions are the sum of what the NIC accepted of each, the drops the sum of what it left, and the fate of every packet is named. |
| TransmitCalls.DirectCallsExplained | app/echo_server_checksum_exp.c:467-481 | The same for the unbuffered worker, which makes one call for each burst. |
| TransmitCalls.OverdueIff | app/echo_server_checksum_txbuf_exp.c:534-537 | The early flush of an iteration happens exactly when its twelfth timer read finds the report period over. |
| TxBuffering.Conservation | app/echo_server_checksum_txbuf_exp.c:95-118 | Accounted packets are conserved: as a count, and as a multiset over sent, dropped and buffered. |
| TxBuffering.TxBuffer.FlushBuffer | app/echo_server_checksum_txbuf_exp.c:107-117 | The array buffer's flush is the pure flush: it returns, sends and counts as many packets as the NIC takes, and drops the others. |
| TxBuffering.TxBuffer.AppendAll | app/echo_server_checksum_txbuf_exp.c:520-527 | Appending a burst packet by packet is the pure buffering, and the 16-bit transmit count never wraps. |
| TxBuffering.TxBuffer.TransmitDirectly | app/echo_server_checksum_exp.c:469-480 | One transmit call and the loop freeing the rest are the pure transmission: as many as the NIC takes are sent and returned, each other one is freed and counted. |
| EchoWorkers.EchoWorker.FlushTxBuffer | app/echo_server_checksum_txbuf_exp.c:95-118 | flush_tx_buffer leaves the worker in the state of the model's timed flush: nothing on an empty buffer, else timers, transmit and drop counts. |
| EchoWorkers.EchoWorker.PollBuffered | app/echo_server_checksum_txbuf_exp.c:400-555 | One iteration of the buffered loop is one step of the model, in every field, counter, timer and report. |
| EchoWorkers.EchoWorker.PollDirect | app/echo_server_checksum_exp.c:351-498 | The same for the unbuffered loop. |
| EchoWorkers.RunBuffered | app/echo_server_checksum_txbuf_exp.c:362-400 | From its start-up state, n iterations of the buffered worker reach the n-step run. |
| EchoWorkers.RunDirect | app/echo_server_checksum_exp.c:332-351 | The same for the unbuffered worker. |
| WorkerProofs.BufferedRunBalanced | app/echo_server_checksum_txbuf_exp.c:424-444 | Over every run, with any bursts and any accepted prefixes: the processed receive stream is accounted for in order, reports and current window add up to it, and an empty poll leaves the buffer empty. |
| WorkerProofs.LifetimeConservation | app/echo_server_checksum_txbuf_exp.c:519-537 | Lifetime rx = tx + drops + buffered, each packet in exactly one place, and the buffer is never full at a loop head. |
| WorkerProofs.WaitBounded | app/echo_server_checksum_txbuf_exp.c:424-537 | Every packet received by a poll has been sent or dropped after at most bufferSize - 1 further polls, whatever arrives and whatever the NIC takes. |
| WorkerProofs.DirectRunBalanced | app/echo_server_checksum_exp.c:467-481 | The unbuffered worker keeps the same account with nothing ever waiting. |
| WorkerProofs.BufferedRefinesDirect | app/echo_server_checksum_txbuf_exp.c:519-537 | With NICs that take everything, the buffered worker's transmissions followed by its buffer are what the unbuffered worker transmits; after an empty poll they are equal. |
| LoopLedger.ReportsPrinted | app/echo_server_checksum_txbuf_exp.c:434-438 | For both workers: an iteration prints a report exactly when its last timer read is a report period after the previous report, or the start; it closes at that read, the counters are cleared and the next window opens there; so a report is never late. |
| LoopLedger.ReportsTallied | app/echo_server_checksum_txbuf_exp.c:400-555 | For both workers: each report counts exactly the iterations since the one before: how many, how many were empty, the packets received, and the time from the first to the last read of each, in total and for empty ones. |
| LoopLedger.DirectStagesTallied | app/echo_server_checksum_exp.c:365-497 | Each stage sum of each report of the unbuffered worker is the time between that stage's two reads, over the iterations of the report. |
| LoopLedger.BufferedReads | app/echo_server_checksum_txbuf_exp.c:400-555 | How many timer reads an iteration makes: 4 or 6 for an empty poll, 13 or 15 with a burst. |
| WindowProofs.BufferedRunTimely | app/echo_server_checksum_txbuf_exp.c:414-554 | Every report of every run: poll and loop-cycle sums agree, stages fit in the loop time so the clamp never acts, the packet balance is the growth of the buffer, packets stay behind only if the deadline passed after the flush check; windows are adjacent. |
| StageLedger.LedgersExplainReports | app/echo_server_checksum_txbuf_exp.c:414-554 | Each stage sum of each report of every run is the total of that stage's timer intervals; all intervals of a window are disjoint, in loop order, and inside it. |
| WindowProofs.DirectRunTimely | app/echo_server_checksum_exp.c:365-497 | The same for the unbuffered worker, where each report has rx = tx + drops. |
| Servers.FastServerRefinesSimple | app/echo_server_checksum_txbuf_exp.c:400-555 | On traffic to which two modes reply alike (any for equal modes, well-formed for software against offload, canonical for the rest), a buffered server in one mode puts on the wire what an unbuffered one in the other does, in order and byte for byte, up to what it still buffers. |
| Servers.WorkersIndependent | app/echo_server_checksum_txbuf_exp.c:662-693 | Under any interleaving of the queues' steps each worker is in the state it would have alone. |
| Servers.EachWorkerAccounts | app/echo_server_checksum_txbuf_exp.c:662-693 | Under any interleaving each worker accounts in order for its own receive stream, with each packet sent, dropped or buffered. |
| Servers.SystemConservation | app/echo_server_checksum_txbuf_exp.c:662-693 | Under any interleaving the packets received by all queues are, as a multiset, those sent, dropped and buffered by all. |
| WorkerLaunch.LaunchWorkers | app/echo_server_checksum_exp.c:598-634 | With enough lcores queue q gets its own lcore, queue 0 the main one; "Only mapped" is unreachable; a failed launch is reported for the first queue it hits. |
| ClientPackets.Request | app/packet_gen_client_fast.c:45-86 | The finished request is well formed, verifies, and has canonical checksums, for every port and payload length. |
| ClientPackets.RequestLayout | app/dpdk.h:233-263 | Every field of the request outside the checksums, for every flow and payload length. |
| ClientBuild.CraftPacket | app/dpdk.h:227-271 | craft_packet on a fresh mbuf leaves the request of the flow and its metadata, whatever the data room held. |
| ClientBuild.RetargetedPort | app/dpdk.h:212-225 | Changing the source port afterwards gives the bytes of building with that port, header checksum included. |
| ClientBuild.BlocksDisjoint | app/packet_gen_client_fast.c:94-105 | Template blocks neither overlap nor leave the table. |
| ClientBuild.PrepareTemplates | app/packet_gen_client_fast.c:88-105 | Every block of the table is the finished request of its flow. |
| ClientBuild.PrepareFromTemplate | app/packet_gen_client_fast.c:114-130 | The copy has the bytes, length and metadata of the flow's request, exactly when the mbuf has room. |
| ClientBuild.TemplateMatchesCraftIff | app/packet_gen_client_fast.c:39-43 | Template and crafted packet of a flow id are equal exactly when cutting the id to 32 bits keeps its remainder. |
| ClientBuild.AllIdsMatchIff | app/packet_gen_client.c:200-217 | They are equal for all 64-bit ids exactly when the flow count divides 2^32. |
| CounterExamples.TemplateDiffers | app/dpdk.h:212-227 | With three flows the id 2^32 is flow 1 in the table and flow 0 for craft_packet. |
| EndToEnd.MatchedFrame | app/packet_gen_client.c:77-94 | What the client's chain asks of a frame, byte by byte. |
| EndToEnd.OnlyCheckedBytesMatter | app/packet_gen_client.c:77-94 | Next to an accepted frame the chain accepts exactly the frames that equal it in both MAC addresses, the type, the protocol, the destination address and both ports. |
| EndToEnd.ReplyMatchesIff | app/packet_gen_client.c:77-94 | In every mode the reply to flow f, as it arrives after NIC completion, passes the client's chain for flow g exactly when f and g agree modulo the flow count. |
| EndToEnd.RoundTrip | app/packet_gen_client.c:52-99 | The three modes answer a request with the same verifying, matching bytes, and echoing those gives the request back. |
| FlowSchedule.IdsNeverRepeat | app/packet_gen_client_fast.c:169-172 | No flow id is generated twice, by one worker or by two. |
| FlowSchedule.IdsCoverPrefix | app/packet_gen_client_fast.c:153-172 | k packets from each of w workers use exactly the ids below k w. |
| FlowSchedule.FlowUsedIff | app/packet_gen_client_fast.c:153-172 | Worker q uses flow f exactly when they agree modulo gcd(w, n), and then within its first n / gcd(w, n) packets. |
| FlowSchedule.FlowUsedOncePerPeriod | app/packet_gen_client_fast.c:153-172 | In any n / gcd(w, n) packets in a row a worker uses each of its flows exactly once. |
| FlowSchedule.SameFlowIff | app/packet_gen_client_fast.c:153-172 | Two packets of a worker have the same flow exactly when whole such periods lie between them. |
| FlowSchedule.CutFlowUsedIff | app/packet_gen_client.c:200-217 | With ids cut to 32 bits, worker q uses flow f exactly when they agree modulo gcd(gcd(w, 2^32), n), then within its first 2^32 packets, given room for n steps. |
| FlowSchedule.RoomForCounts | app/dpdk.h:26-26 | Queue and flow counts that fit 16 bits always have that room. |
| ClientWorkers.ClientWorker.GenerateAndSend | app/packet_gen_client_fast.c:169-183 | The burst is offered and the loop frees what is left, so each generated mbuf is sent or freed once, in order; the next flow is the initial one plus w times the packets generated. |
| ClientWorkers.ClientWorker.DrainRx | app/packet_gen_client_fast.c:132-145 | Whatever arrives while it runs, the drain takes batches up to the first that is not full, frees each mbuf of these once, in order, and completes exactly these. |
| ClientWorkers.DrainStopsAtShort | app/packet_gen_client_fast.c:138-144 | A batch is taken by a drain exactly when all batches before it are full. |
| ClientWorkers.QueueDrained | app/packet_gen_client_fast.c:138-144 | Without arrivals the drain takes the whole queue. |
| ClientWorkers.ClientWorker.FastIteration | app/packet_gen_client_fast.c:159-187 | One iteration keeps the transmit account; it counts exactly the failed allocations, generates a burst for each other one, and frees every reply it received once and in order. |
| ClientWorkers.ClientWorker.ThroughputIteration | app/packet_gen_client.c:206-240 | The slow client's iteration does the same for any number of allocated packets, with one receive call. |
| ClientWorkers.WorkersShareIds | app/packet_gen_client_fast.c:236-253 | However many packets each worker has generated, an id is in use exactly by the worker its remainder names, and exactly when below that worker's count; no other worker ever uses it. |
| LatencyClient.LatencyTest | app/packet_gen_client.c:45-112 | Reading the timer call by call: exactly the replies that pass the client's chain for the flow in flight are counted correct, the other replies incorrect, and sample i holds the stamps of the i-th matched round. |
| LatencyClient.StampReads | app/packet_gen_client.c:54-98 | Of all timer reads, the send stamp of a round is its last one of that kind and the receive stamp the very last read of the round, with the reads of all polls in between. |
| LatencyClient.StampedInOrder | app/packet_gen_client.c:45-112 | With a monotone timer every recorded reply is after its request and before the next recorded request. |
| LatencyClient.RoundTripCoversPolls | app/packet_gen_client.c:65-98 | A recorded round trip is at least as long as all polls of its wait took, the successful one included. |
| LatencyClient.EchoedRoundsMatch | app/packet_gen_client.c:77-100 | If every round is answered with the server's echo, in any mode, every round is recorded. |
| LatencyClient.StaysBehind | app/packet_gen_client.c:45-112 | After any number d of stray frames with in-order replies, the matched rounds are exactly d, 2d+1, 3d+2, ... for two or more flows, and all from round d on for one flow. |
| LatencyClient.AddUpLatency | app/packet_gen_client.c:117-121 | The loop over a range of samples adds up their round trips. |
| LatencyClient.LatencySplit | app/packet_gen_client.c:117-121 | The total over a range is that of its parts, down to receive minus send of one sample. |
| LatencyClient.LatencyFitsInRun | app/packet_gen_client.c:115-121 | The summed round trips of any range of samples are nonnegative and fit in the time the range took. |
| RoundCollection.CollectRounds | analysis/plot_checksum_modes_comparison.py:74-96 | The loop over rounds, current and seen returns the rounds of the scan. |
| RoundCollection.RoundsAreBlocks | analysis/plot_checksum_modes_comparison.py:74-96 | Every returned round is a contiguous block holding each queue id once; rounds are disjoint and in input order. |
| RoundCollection.CompleteMembers | analysis/plot_checksum_modes_comparison.py:78-91 | A round whose distinct ids are the expected set has n samples, all ids below n, each of them present. |
| RoundCollection.CollectFlatten | analysis/plot_checksum_modes_comparison.py:74-96 | Collecting the concatenation of any complete rounds gives the rounds back. |
| RoundCollection.LostLinesTearRounds | analysis/plot_checksum_modes_comparison.py:74-96 | Where queues report in one order, a log without its first j lines (0 < j < n) yields exactly the ends of rounds joined to the beginnings of the next. |
| RoundCollection.BlockReturnedIff | analysis/plot_checksum_modes_comparison.py:80-94 | Which complete blocks of the log are returned, for any number of queues: those starting on an empty group or on a repeated queue; with one queue a repeat also needs that queue's next line right behind it. |
| RoundCollection.RepeatAppendsExample | analysis/plot_checksum_modes_comparison.py:82-84 | A log on which the repeat branch does append. |
| RoundCollection.RepeatAppendUnreachableIff | analysis/plot_checksum_modes_comparison.py:82-84 | That append is unreachable on all logs with ids below m exactly when n is not 1 or m is at most 1. |
| CounterExamples.BlockMissed | analysis/plot_checksum_modes_comparison.py:80-94 | With three queues the lines 0, 1, 0, 2 give no round although 1, 0, 2 is complete. |
| Aggregation.AverageBetween | analysis/plot_checksum_modes_comparison.py:99-103 | The average of a loaded round lies between the extreme figures of its loaded queues. |
| Aggregation.AverageExactIff | analysis/plot_checksum_modes_comparison.py:99-103 | It is total cycles over total packets exactly when no cycles were spent on queues that received nothing, and never more. |
| Aggregation.TxAverageBalanceIff | app/echo_server.c:147-148 | For transmit cycles, over any round: exact exactly when what the weighting adds makes up for the cycles of queues that sent nothing. |
| Aggregation.TxAverageExactIff | app/echo_server.c:147-148 | Where no queue sent more than it received or spent cycles on sending nothing, the transmit average is never too low, and exact exactly when every queue with transmit cycles sent all it received. |
| CounterExamples.IdleQueueLost | analysis/plot_checksum_modes_comparison.py:99-103 | A round with an idle queue whose average is half of total cycles over total packets. |
| CounterExamples.DropsInflate | analysis/plot_checksum_modes_comparison.py:99-103 | A round with one drop whose transmit average is twice total cycles over received packets. |
| Aggregation.SummarizeRound | analysis/plot_checksum_modes_comparison.py:106-129 | All numeric fields: both rates, the three totals, the average of total cycles, the drop percentage (zero without received packets), and one weighted average per stage. |
| Aggregation.TotalsOfColumns | analysis/plot_checksum_modes_comparison.py:107-115 | Each total and rate adds up its own column of the lines. |
| StageStack.ColumnsHoldStages | analysis/plot_checksum_modes_comparison.py:124-127 | Which cycles each stage column averages: times the received packets, the column of a stage is the sum of that stage's cycles over the loaded queues. |
| StageStack.TransmitColumn | app/echo_server.c:147-148 | For the transmit column that sum is off by the loaded queues' transmit excess. |
| StageStack.StagesAddUpIff | analysis/plot_checksum_modes_comparison.py:106-129 | The stage averages of a loaded round add up to the average of the total cycles exactly when the loaded queues' transmit excess is zero, and are too high exactly when it is positive. |
| StageStack.PrintedStagesAddUpIff | app/echo_server.c:132-150 | The same for reports that workers print in any run; where loaded queues send no more than they receive and something if they spend cycles on it, they add up exactly when those queues sent all. |
| Selection.FilterCounts | analysis/plot_checksum_modes_comparison.py:178-188 | The comprehensions keep every occurrence of what passes the test and nothing else. |
| Selection.SortSorted | analysis/plot_checksum_modes_comparison.py:190-199 | Sorting by a strict order leaves nothing that should come earlier behind. |
| Selection.SortMultiset | analysis/plot_checksum_modes_comparison.py:190-199 | Sorting keeps the rounds. |
| Selection.SortStable | analysis/plot_checksum_modes_comparison.py:190-199 | Rounds of which neither has to come first keep their order. |
| Selection.StableSortUnique | analysis/plot_checksum_modes_comparison.py:190-199 | Being sorted with ties in their given order names the result, so also which tied rounds the top_n cut takes. |
| Selection.HighLoadFallbackIff | analysis/plot_checksum_modes_comparison.py:177-183 | With nonnegative rates some round reaches the threshold exactly when the ratio is at most one or the peak is zero. |
| Selection.PickedSound | analysis/plot_checksum_modes_comparison.py:172-199 | For any parameters: between 1 and max(top_n, 1) rounds are taken, as many as there are. Candidates are the rounds at the ratio of the greatest rate (all, if none reaches it) within the drop limit, and none left has a higher rate than one taken; if none is within the limit, all count, and the taken ones have fewer drops, or as many and a rate at least as high. |
| Selection.RankedInLogOrder | analysis/plot_checksum_modes_comparison.py:190-199 | Of equally good rounds the earlier ones are taken. |
| Selection.MedianBetween | analysis/plot_checksum_modes_comparison.py:152-153 | The median splits the sorted values at the middle and lies between two of them. |
| Selection.MedianExact | analysis/plot_checksum_modes_comparison.py:152-153 | The median is the middle of any sorted arrangement, or half the sum of its two middles. |
| Selection.MedianOrderFree | analysis/plot_checksum_modes_comparison.py:152-153 | The median does not depend on the order of the rounds. |
| Selection.MedianSummaries | analysis/plot_checksum_modes_comparison.py:132-155 | One median per numeric field, each between two of the selected rounds. |
| Selection.ChoosePeak | analysis/plot_scaling_stage_cycles.py:102-108 | No round has more packets than the chosen one, or as many and a higher rate, and it is the first of these. |
| Selection.ChooseRoundSummary | analysis/plot_checksum_modes_comparison.py:158-201 | The fields of the first round with the most packets and then the highest rate, or the field-wise medians over rightly picked rounds. |

## Left out

- EAL start-up, port and queue configuration, RSS, mempools and device capabilities: library and hardware plumbing.
- Console output, regular-expression parsing of log lines, CSV, plots and argument parsing: a report is modelled as a record of the counters.
- The bodies of the library calls, including the carry loop inside the checksum functions: their contracts are listed under "What is assumed"; `AddCarries`, `CarriesNeeded` and `OneCarryJoinsParts` show that carrying in any of the usual ways meets them.
- 64-bit wrap of packet counters and flow ids: both need 2^64 packets. Cycle counters are shown to stay below the timer's value, so they cannot wrap before it does.
- Floating-point rounding and the one-decimal precision of logged figures: the analysis is over reals.
- Frames of more than 65535 bytes, whose lengths do not fit the header fields; and `craft_packet` on an mbuf without room, which the program does not check.
- What the NIC completes after offload on packets with IPv4 options or inconsistent lengths: only the bytes handed to it are covered there.
- EchoWorkers.EchoWorker.PollBuffered: the in-place packet passes enter as the pure function `cfg.process`; `BurstPipeline.RunPolls` runs them on mbufs and `MbufRunIsWorkerRun` shows that its bytes are the worker's.
- EchoWorkers.EchoWorker.PollDirect: the same pure function; nothing waits between its bursts, so `BurstPasses.EchoBurst` is all that its mbufs need.
- Servers.WorkersIndependent: each worker of the model has its own queue, buffer and counters, as in the program; contention for the common memory pool and the port is not modelled.
- Ownership of the mbufs after the first of a burst in `client_latency_test`, which leaves its loop after one.
- The slow client's fallback to the default flow count when five arguments are given, and `client_throughput_test`, a single-queue copy of the worker loop.
- String fields of summaries (`queues_seen`, `sample_lines`, paths).
