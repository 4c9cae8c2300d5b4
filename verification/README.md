# scshr: a verified model of the media path, the control channel and the pairing codes

scshr is a screen-sharing client. Encrypted RTP packets arrive over UDP, are decrypted, sorted back into
access units, split into NAL units and handed to a decoder thread; lost packets and broken pictures are
repaired through RTCP requests; a control channel runs over TCP in encrypted records; two hosts pair by
exchanging short text codes; and a relay on the remote machine routes one user's session audio to the
viewer. This project models the stateful and the codec-like core of that system in Dafny and proves what
holds over all its inputs and all its runs.

Code that changes state is written as classes and methods with loops. Each such method is proved against a
function on values, and the properties over whole runs are lemmas about those functions. Bytes are numbers
below 256, fixed-width arithmetic is written out, and clocks, randomness, account look-ups and the order in
which a Go map is walked are parameters that the theorems quantify over. Block ciphers, keystreams and
hashes are parameters too. What is asked of them is named: `Srtp.BindsRoc` and `RecordLayer.BindsCounter`
say that for one message different counters give different tags, `RecordLayer.Sound` that block decryption
undoes encryption and that digests have 20 bytes. `Srtp.KeysExist` and `RecordWitness.PlainMeets` show that
these can be met, `RecordWitness.GapPremiseMet` that the conditions of the gap theorem can.

`dafny verify dfyconfig.toml` checks everything.

## Modules

| modules | subject |
|---|---|
| `Wire`, `Bytes`, `Decimal` | circular 16-bit arithmetic, big-endian numbers, exclusive or, decimal numerals |
| `CircularSort`, `AssemblerModel`, `AssemblerSteps`, `AssemblerInvariants`, `AssemblerRuns`, `AssemblerOutput`, `AssemblerReordering`, `AssemblerFresh`, `AssemblerHevc`, `AssemblerRelease`, `AssemblerDeadlines`, `AssemblerTimeout`, `RtpAssembler` | the access-unit assembler and its packet pool |
| `Srtp` | SRTP sender and receiver |
| `SpscRing`, `DecoderQueue` | the lock-free ring and the decoder's buffer recycling |
| `RecordLayer`, `RecordWitness` | the encrypted TCP records |
| `Bplist`, `BplistReader`, `BplistForeign` | binary property lists, their reader as written, and the files of any writer |
| `Base64`, `Pairing`, `Ipv4Spelling`, `EndpointHosts` | strict base64, the pairing codes, the spellings of addresses and host names |
| `SpsPatch`, `SpsWriter` | the H.264 SPS rewrite, and SPS headers as the standard writes them |
| `Nalu`, `NaluLayout`, `NaluReassembly`, `NalPacketiser`, `NalAccessUnit` | NAL units to RTP payloads and back |
| `Nack` | RTCP generic NACK |
| `GateModel`, `GateRuns`, `GateRequests`, `GateBooks`, `QualityGate` | the keyframe gate |
| `RelayModel`, `RelayRuns`, `AudioRelay` | the session audio relay |

## Where the code does less than it seems to

Each of these is proved with the exact condition under which the expected behaviour holds.

- The record layer computes the end of its counter window in 32 bits, so for the last six counter values the
  window is empty: a stream is returned if and only if no window wraps (`RecordLayer.StreamRoundTrip`).
- Six or more vanished records end a control session for good, five cost one more record
  (`RecordLayer.GapOnTheWire`).
- The HEVC packetiser turns a NAL of `mtu - 3` bytes into one fragment marked first and last, which the
  reassembler never completes; parameter sets above 65535 bytes and types 48 and 49 in single packets are
  lost as well. `NalPacketiser.SurvivesIff` gives the exact condition for both codecs, and
  `NalAccessUnit.AccessUnitRecovered` what happens to the other NALs of the access unit.
- A NAL that arrives inside an open fragment chain can leave a range outside the output or out of order;
  `NaluLayout.LayoutIffUntangled` says exactly when.
- An audio agent that disconnects while started and connects again as the same object would stay started
  without being active (`RelayRuns.ReconnectBreaks`, `RelayRuns.ConnectSoundIff`); the daemon creates a new
  agent for each connection.
- The comment in `parse_ipv4` says that leading zeros are rejected, but "10.77.77.010" passes
  (`Ipv4Spelling.LeadingZeroAccepted`). An accepted text is the canonical spelling of its address if and only
  if no octet has three digits and begins with zero (`Ipv4Spelling.CanonicalIff`). The model follows the code.
  Pairing codes stay canonical all the same, because they carry addresses as text.
- NACK pairs that wrap past 65535 could save one pair. The packing is shortest among pairs that do not wrap
  (`Nack.PackShortest`), and `Nack.ShorterIff` says exactly for which lost sets any list of pairs is shorter.
- The property list reader promises no value on any structural error, but adds sizes in 64 bits, so a size near
  2^64 passes the test against the end of the data and the reader runs over it. A string or byte string does so
  if and only if its position plus its size reaches 2^64 (`BplistReader.BytesOverrunIff`). A file is read as
  promised unless one of its objects has such a size (`BplistReader.LoadAgrees`), so every file without an
  eight-byte size is (`BplistReader.NarrowFilesAgree`). `BplistReader.WideFileOverruns` gives a file of 51 bytes
  for which it is not.
- A record of one block is delivered without a tag: a delivered message carried one if and only if its record
  was longer (`RecordLayer.DeliveredTaggedIff`).
- For an SSRC nothing has been flushed for, the assembler has no number to continue, so it flushes the unit of the
  first packet to arrive as soon as what has arrived of it is a suffix of the unit, whatever is missing before
  (`AssemblerFresh.FirstFlush`, `AssemblerFresh.LoneMarkerFlushed`). `AssemblerFresh.FreshTransparentIff` says
  exactly when the stream is followed from its first unit on all the same.
- An eviction that drops a unit flushes the whole units directly behind it, in sending order, if the unit had its
  marker. Without it the number to continue from is lost, and a unit that was overtaken can be passed over
  (`AssemblerTimeout.OvertakenSkips`); `AssemblerTimeout.TimeoutReleasesIff` has the exact condition.

## Model

| member | source | states |
|---|---|---|
| CircularSort.CircularOrder | src/media/rtp_assembler.cpp:37-51 | distinct sequence numbers that fit any half circle from `base` come out in order of distance from `base`, wherever the numbering wraps |
| CircularSort.SortedPacketsDistinct | src/media/rtp_assembler.cpp:37-51 | sorting keeps sequence numbers distinct |
| CircularSort.SortedPackets | src/media/rtp_assembler.cpp:37-51 | the result is a permutation of the input |
| CircularSort.ComputeSortedPackets | src/media/rtp_assembler.cpp:37-51 | the gap-search loop, with its tie-break to the last maximum, computes `SortedPackets` |
| AssemblerSteps.OrderedKeysExact | src/media/rtp_assembler.cpp:61-78 | the ordered keys are exactly the pending keys of the SSRC, each once while `group_order_` has no repeats |
| AssemblerSteps.QueuePacketRuns | src/media/rtp_assembler.cpp:80-107 | every arrival is one intake or give-back followed by flushes and armings of that SSRC only |
| AssemblerSteps.EvictStaleRuns | src/media/rtp_assembler.cpp:168-180 | every eviction is a run of drops, flushes, armings and forgetting; it touches an SSRC without timeouts in no other way than forgetting |
| AssemblerInvariants.StepKeepsValid | src/media/rtp_assembler.cpp:80-180 | each step keeps `group_order_` equal to the pending keys, `deadline_order_` equal to those with a deadline, both without repeats, pending keys disjoint from recently flushed ones, and each group's numbers distinct |
| AssemblerInvariants.StepOwns | src/media/rtp_assembler.cpp:80-166 | each step moves slots between free list and pending groups without making or losing one |
| AssemblerRuns.SlotConservation | src/session/session.cpp:382-399 | in every reachable state of acquire, queue, release, evict and reset, the containers agree and each pool slot is in exactly one of free list, one pending packet or the caller's hands |
| AssemblerRuns.DeadlineFixed | src/media/rtp_assembler.cpp:95-120 | while a key stays pending, through any events, its group keeps its arrival and its armed deadline, and only gains packets |
| AssemblerRuns.EvictionSweeps | src/media/rtp_assembler.cpp:168-180 | after `evict_stale(now)` every pending group is due later than `now` or at most the TTL old |
| AssemblerRuns.BoundedWaiting | src/media/rtp_assembler.cpp:150-180 | a group older than the TTL at one eviction is gone after any eviction a repair wait later, in every run of either codec |
| AssemblerOutput.FlushesChain | src/media/rtp_assembler.cpp:53-59 | in every reachable state each AVC flush is gap-free, ends in a marker and starts right after the previous flush unless a drop or reset lies between |
| AssemblerOutput.GaplessBetweenDrops | src/media/rtp_assembler.cpp:102-131 | all packets flushed for an AVC SSRC between two drops or resets form one run of consecutive numbers mod 2^16 |
| AssemblerReordering.CompleteIsNext | src/media/rtp_assembler.cpp:53-59 | the only complete group is the next unit of the stream, and then it is whole |
| AssemblerReordering.FullIsComplete | src/media/rtp_assembler.cpp:53-59 | the next unit, once all its packets have arrived, is complete and its sorted packets are the unit in sending order |
| AssemblerReordering.HeadIsNext | src/media/rtp_assembler.cpp:61-78 | the next unit, once anything of it is pending, is first among the ordered keys |
| AssemblerReordering.ReorderingTransparent | src/media/rtp_assembler.cpp:53-148 | for every arrival order with duplicates, interleaved with any other SSRCs, the flushed units are exactly the longest fully arrived prefix of the stream, once each, in sending order, packets in order |
| AssemblerReordering.AnyFirstArrivalOrderly | src/media/rtp_assembler.cpp:80-107 | the conditions of that theorem can be met with any packet of the first full circle arriving first |
| AssemblerReordering.SwappedUnitFlushed | src/media/rtp_assembler.cpp:80-148 | a run that meets them in which the two packets of a unit arrive in the wrong order and the unit is flushed whole and in order |
| AssemblerFresh.CompleteIsSuffix | src/media/rtp_assembler.cpp:53-59 | a complete group of a unit holds exactly the packets of the unit from some packet on |
| AssemblerFresh.SuffixIsComplete | src/media/rtp_assembler.cpp:53-59 | without an anchor such a group is complete, and its sorted packets are that part of the unit in sending order |
| AssemblerFresh.LeadingIsFirst | src/media/rtp_assembler.cpp:61-78 | without an anchor the group that arrived first is first among the ordered keys, also among groups of the same arrival time |
| AssemblerFresh.QueueUnopened | src/media/rtp_assembler.cpp:80-107 | before the first flush of an SSRC an arrival flushes nothing, or completes a suffix of the unit that arrived first and flushes that unit |
| AssemblerFresh.FirstFlush | src/media/rtp_assembler.cpp:53-148 | in every orderly run of a new SSRC nothing is flushed until what has arrived of the first unit is a suffix of it; then exactly that suffix is, as complete |
| AssemblerFresh.FreshTransparentIff | src/media/rtp_assembler.cpp:53-148 | up to any event a new SSRC has at all times flushed exactly the fully arrived leading units, if and only if whenever a suffix of the first unit or all of unit 0 had arrived, the first unit was unit 0 and complete |
| AssemblerFresh.PacketZeroOpens | src/media/rtp_assembler.cpp:53-148 | so it is in every run in which packet 0 arrives first, in whatever order the others follow |
| AssemblerFresh.LoneMarkerFlushed | src/media/rtp_assembler.cpp:57-58 | a run in which only the marker packet of a unit arrives and is flushed at once as a complete unit |
| AssemblerHevc.PendingIsArrived | src/media/rtp_assembler.cpp:80-89 | in every run of either codec a pending group holds exactly the packets that arrived for its key since it began, the first copy of each number |
| AssemblerHevc.HevcArrival | src/media/rtp_assembler.cpp:80-90 | every arrival of an HEVC run for a key not remembered: if a packet that arrived for it since the group began has the marker, exactly those packets are flushed at once, in circular order, reported incomplete if and only if two neighbours are more than one apart, and the key is pending no more; if none has, nothing is put out |
| AssemblerHevc.HevcOtherEvents | src/media/rtp_assembler.cpp:80-90 | no other event of an HEVC run flushes anything, and a packet of a remembered key only goes back to the pool |
| AssemblerHevc.HoleFlushedAtOnce | src/media/rtp_assembler.cpp:90 | packets 10 and 12 with the marker are flushed at once as incomplete |
| AssemblerRelease.FlushReadySettles | src/media/rtp_assembler.cpp:109-120 | `flush_ready` leaves no pending group of the SSRC, or a first one that is incomplete and has a deadline |
| AssemblerRelease.AnchorLeftIs | src/media/rtp_assembler.cpp:158-161 | the anchor a dropped group leaves is the marked number furthest along the circle, and none without a marker |
| AssemblerRelease.DroppingAnchor | src/media/rtp_assembler.cpp:168-176 | after the drops of an eviction the anchor of an SSRC is the one its last dropped group leaves |
| AssemblerRelease.EvictReports | src/media/rtp_assembler.cpp:168-180 | an eviction reports exactly the groups past their deadline, or past the TTL without one, each once with marker, reason, packet count and age, and after that it only flushes |
| AssemblerRelease.EvictSettles | src/media/rtp_assembler.cpp:168-180 | after an eviction every SSRC that lost a group has no pending group, or a first one that is incomplete and waits for an armed deadline |
| AssemblerDeadlines.DeadlineIsFullWait | src/media/rtp_assembler.cpp:95-118 | in every run a deadline lies the full repair wait after the event that armed it |
| AssemblerDeadlines.NeverStuck | src/media/rtp_assembler.cpp:92-120 | in every reachable state of an AVC assembler, while a group with its marker is pending, some group of its SSRC has an armed deadline |
| AssemblerDeadlines.ArrivalQueues | src/media/rtp_assembler.cpp:92-105 | an AVC arrival that leaves its group pending with a marker leaves a deadline on every unmarked group before it, and on the group or one not behind it |
| AssemblerDeadlines.RememberedUntil | src/media/rtp_assembler.cpp:178-179 | in every run a retired key is refused until an eviction more than the dedup time later or a reset, and no longer |
| AssemblerDeadlines.RetiredRemembered | src/media/rtp_assembler.cpp:122-160 | a key that stops being pending is remembered with the time of that event |
| AssemblerDeadlines.ResetForgets | src/media/rtp_assembler.cpp:9-12 | after a reset nothing is pending, remembered or anchored |
| AssemblerTimeout.AnchorOfUnit | src/media/rtp_assembler.cpp:158-161 | a dropped unit of a stream leaves the number of its last packet if that had arrived, and none otherwise |
| AssemblerTimeout.TimeoutReleasesIff | src/media/rtp_assembler.cpp:168-180 | units of a stream time out, `v` the last: the same eviction flushes exactly the whole units directly behind `v`, in sending order, if and only if the last packet of `v` had arrived or the condition for a new SSRC holds behind it |
| AssemblerTimeout.TimeoutInRun | src/media/rtp_assembler.cpp:168-180 | the same at any eviction of a run from a new pool after any orderly events of the stream |
| AssemblerTimeout.ExampleReleased | src/media/rtp_assembler.cpp:168-180 | a unit with a lost packet is dropped at its deadline and the unit behind it flushed by that eviction |
| AssemblerTimeout.OvertakenSkips | src/media/rtp_assembler.cpp:158-161 | a unit without its marker is dropped, and the whole unit behind it is passed over |
| RtpAssembler.PacketPool.constructor | src/media/packet_pool.h:24-27 | the loop fills the free list with every slot, highest first |
| RtpAssembler.PacketPool.Acquire | src/media/packet_pool.h:32 | takes the last free slot, or reports exhaustion and changes nothing |
| RtpAssembler.PacketPool.Release | src/media/packet_pool.h:33 | appends the slot to the free list |
| RtpAssembler.Assembler.ReleaseGroup | src/media/rtp_assembler.cpp:18 | returns exactly the group's slots to the pool, in order |
| RtpAssembler.Assembler.HasGap | src/media/rtp_assembler.cpp:135 | finds a gap if and only if there is one |
| RtpAssembler.Assembler.FindLastMarker | src/media/rtp_assembler.cpp:131 | the backward scan finds the last packet with a marker |
| RtpAssembler.Assembler.GroupComplete | src/media/rtp_assembler.cpp:53-59 | decides completeness against marker, gaps and anchor |
| RtpAssembler.Assembler.OrderKeys | src/media/rtp_assembler.cpp:61-78 | the loop and stable sort give the specified order |
| RtpAssembler.Assembler.ArmDeadline | src/media/rtp_assembler.cpp:116 | new state of arming a deadline |
| RtpAssembler.Assembler.FlushGroup | src/media/rtp_assembler.cpp:122-148 | new state and record of a flush |
| RtpAssembler.Assembler.DropGroup | src/media/rtp_assembler.cpp:150-166 | new state and record of a drop |
| RtpAssembler.Assembler.FlushReadyGroups | src/media/rtp_assembler.cpp:109-120 | the flush loop terminates in the state of `FlushReady` |
| RtpAssembler.Assembler.IsDuplicate | src/media/rtp_assembler.cpp:86 | true exactly if the number is already in the group |
| RtpAssembler.Assembler.ArmEarlier | src/media/rtp_assembler.cpp:95-98 | the loop arms exactly the earlier unmarked groups without a deadline |
| RtpAssembler.Assembler.IsBlocked | src/media/rtp_assembler.cpp:99-100 | true exactly if an earlier group has a deadline |
| RtpAssembler.Assembler.FindKey | src/media/rtp_assembler.cpp:93-94 | index of the key, or the length |
| RtpAssembler.Assembler.SettleGroup | src/media/rtp_assembler.cpp:92-107 | new state after ordering, arming, blocking, completing and flushing |
| RtpAssembler.Assembler.Enqueue | src/media/rtp_assembler.cpp:80-107 | `queue_packet` computes `QueuePacket`, which the run lemmas are about |
| RtpAssembler.Assembler.DropGroups | src/media/rtp_assembler.cpp:173-176 | drops the listed groups in order and collects the unblocked SSRCs in ascending order |
| RtpAssembler.Assembler.ExpiredKeys | src/media/rtp_assembler.cpp:171-172 | the keys with an expired deadline, in arming order |
| RtpAssembler.Assembler.StaleKeys | src/media/rtp_assembler.cpp:174-175 | the keys past the TTL without a deadline, in arrival order |
| RtpAssembler.Assembler.FlushUnblocked | src/media/rtp_assembler.cpp:177 | flushes what is ready, SSRC by SSRC |
| RtpAssembler.Assembler.Evict | src/media/rtp_assembler.cpp:168-180 | `evict_stale` computes `EvictStale`, which the run lemmas are about |
| RtpAssembler.Assembler.ReleaseAll | src/media/rtp_assembler.cpp:10 | returns the slots of all pending groups |
| RtpAssembler.Assembler.ResetAll | src/media/rtp_assembler.cpp:9-12 | empties all containers and returns every pending slot |
| Srtp.IvInjective | src/crypto/srtp.cpp:17-24 | equal initialisation vectors under one salt mean equal SSRC and equal 48-bit index |
| Srtp.CryptTwice | src/crypto/srtp.cpp:121-124 | applying the keystream twice gives the data back |
| Srtp.OpensOnlyWithItsRoc | src/crypto/srtp.cpp:100-126 | a protected packet with any contributing sources and header extension opens under a rollover counter if and only if it is the sender's, and then yields the sender's whole header, its length, its fields and the payload behind it |
| Srtp.HeaderRead | src/crypto/srtp.cpp:106-114 | the length read off any RTP header with up to 15 contributing sources and an extension of any number of words is the number of bytes written |
| Srtp.HeaderWritten | src/crypto/srtp.cpp:106-114 | whatever is taken for a header is one that can be written |
| Srtp.OpensIffHeader | src/crypto/srtp.cpp:100-126 | a packet with a right tag opens if and only if it starts with an RTP header that fits |
| Srtp.AcceptedIff | src/crypto/srtp.cpp:71-98 | a packet is accepted if and only if its sender's counter is among the candidates, and then under that counter |
| Srtp.WithinReach | src/crypto/srtp.cpp:77-89 | any index within 98303 of the highest accepted one has its own counter among the candidates |
| Srtp.ReachIsSharp | src/crypto/srtp.cpp:77-89 | one index further ahead a packet can be refused |
| Srtp.StateIsHighest | src/crypto/srtp.cpp:128-133 | under any loss, duplication and reordering the state of every SSRC is the greatest accepted index |
| Srtp.DeliveredInReach | src/crypto/srtp.cpp:71-133 | in any arrival sequence a packet in reach of the highest accepted one, or a first packet with counter 0 or 1, is accepted under the sender's counter with the sender's header and payload |
| Srtp.SrtpEncryptor.Encrypt | src/crypto/srtp.cpp:169-186 | emits the protected packet for the current index and advances to the next 48-bit index and timestamp |
| Srtp.SrtpDecryptor.CandidateList | src/crypto/srtp.cpp:77-89 | the deduplicating list equals the candidates |
| Srtp.SrtpDecryptor.Decrypt | src/crypto/srtp.cpp:71-133 | decrypts in place exactly as `Open` says, raises the state, and leaves a refused packet untouched |
| SpscRing.StepKeeps | src/common/ring.h:18-33 | every atomic step of either thread keeps the ring invariant with wrapping 64-bit indices |
| SpscRing.StepContents | src/common/ring.h:18-33 | publishing appends the pushed value, advancing removes and returns the oldest, and no other step changes the queue |
| SpscRing.RingIsQueue | src/common/ring.h:18-33 | in every interleaving what was popped is a prefix of what was pushed, capacity is kept, no unread cell is overwritten and the threads never touch one cell at once |
| SpscRing.RefusalsAreReal | src/common/ring.h:21-29 | push refuses if and only if the ring was full, pop finds nothing if and only if it was empty, when the other index was loaded |
| DecoderQueue.MoveKeeps | src/media/decoder.cpp:315-351 | every atomic step of packet thread and worker keeps each buffer in exactly one place |
| DecoderQueue.StartInv | src/media/decoder.cpp:46-55 | the constructor's loop puts each of the 64 buffers into the free ring once |
| DecoderQueue.NoBufferLost | src/media/decoder.cpp:315-351 | in every interleaving each buffer is in exactly one of free ring, work ring, feeder or worker, and no push is ever refused |
| RecordLayer.CbcRoundTrip | src/protocol/record_layer.cpp:40-49 | chained decryption undoes chained encryption from the same chaining block |
| RecordLayer.OpenedGenuine | src/protocol/record_layer.cpp:45-70 | an intact record under an agreeing chain is delivered if and only if its counter is in the receiver's window, and the receiver's counter afterwards |
| RecordLayer.DeliveredTaggedIff | src/protocol/record_layer.cpp:52-69 | a delivered message ended in a tag of the counter window if and only if its record is longer than one block |
| RecordLayer.OneBlockDelivered | src/protocol/record_layer.cpp:52 | every record of one block is delivered, with no tag in it |
| RecordLayer.DeliveredIffNoWrap | src/protocol/record_layer.cpp:55-56 | in step, a record is delivered if and only if its counter is not among the last six of 2^32 |
| RecordLayer.DrainResumes | src/protocol/record_layer.cpp:72-82 | draining a buffer and then its remainder with more data equals draining all at once |
| RecordLayer.ChunkingInvisible | src/session/session.cpp:598-608 | for every byte stream messages, state and remainder do not depend on how TCP split it |
| RecordLayer.ChannelOutcome | src/protocol/record_layer.cpp:45-82 | over a channel that loses and damages records, the delivered messages and the final counter lag are exactly the predicted ones |
| RecordLayer.DamageCostsNoStep | src/protocol/record_layer.cpp:45-70 | if records are damaged but none vanishes, every intact record under an intact chain is delivered once, in order, counters in step |
| RecordLayer.StreamRoundTrip | src/protocol/record_layer.cpp:24-82 | the concatenated records of any messages that fit the framing return exactly those messages if and only if no counter window wraps |
| RecordLayer.LostForever | src/protocol/record_layer.cpp:55-69 | a lag of six or more is never made up |
| RecordLayer.GapCosts | src/protocol/record_layer.cpp:45-70 | at most five vanished records cost exactly one more and the counters agree again; more end all delivery |
| RecordLayer.GapOnTheWire | src/protocol/record_layer.cpp:45-82 | the same for the sender's actual bytes with the first records cut out |
| RecordWitness.PlainMeets | src/protocol/record_layer.cpp:24-43 | a cipher and digest that meet the two assumptions |
| RecordWitness.GapShows | src/protocol/record_layer.cpp:45-70 | with that cipher, after any lost records that moved the chain, the next record fails its tag and all later ones are intact |
| RecordWitness.GapPremiseMet | src/protocol/record_layer.cpp:45-70 | a sender and receiver in step, five or six lost and two sent messages that meet all conditions of `GapOnTheWire`, on either side of its limit |
| RecordLayer.RecordCipher.EncryptMessage | src/protocol/record_layer.cpp:24-43 | emits the length-prefixed sealed record and advances counter and chain |
| RecordLayer.RecordCipher.DecryptMessage | src/protocol/record_layer.cpp:45-70 | computes `Opened`, every block consumed whatever the tag says |
| RecordLayer.RecordCipher.SearchCounter | src/protocol/record_layer.cpp:56-68 | the loop finds the first counter of the window with the tag, or none |
| RecordLayer.RecordCipher.Verify | src/protocol/record_layer.cpp:50-69 | computes the message and the next counter from the decrypted record: untagged if it is one block, else by the first counter of the window with its tag |
| RecordLayer.RecordCipher.DecryptStream | src/protocol/record_layer.cpp:72-82 | consumes exactly the complete records and yields their messages |
| RecordLayer.ReadAll | src/session/session.cpp:598-608 | the receive loop over any chunks ends with the messages and remainder of one drain of the whole stream |
| Bplist.ReprInjective | src/protocol/bplist.cpp:43-48 | two scalars share an object only if they are equal |
| Bplist.ScalarReadBack | src/protocol/bplist.cpp:91-98 | a string, byte string or integer written at an offset is read back from it |
| Bplist.LoadDump | src/protocol/bplist.cpp:110-208 | `load(dump(d))` is d for every flat dictionary within the reader's limits |
| Bplist.ShareScalars | src/protocol/bplist.cpp:49-57 | the two passes over keys and values build the shared object list |
| Bplist.WriteObjects | src/protocol/bplist.cpp:85-118 | object bytes and their offsets |
| Bplist.WriteTable | src/protocol/bplist.cpp:122 | fixed-width big-endian table |
| Bplist.WriteFile | src/protocol/bplist.cpp:110-125 | computes `Dump` |
| BplistReader.ReadAgrees | src/protocol/bplist.cpp:142-191 | the reader as written gives the promised value or refusal at every reference and depth, unless an object has a size whose 64-bit sum wraps into the data |
| BplistReader.WrapsOverruns | src/protocol/bplist.cpp:166-177 | an object with such a size makes the reader run over the data |
| BplistReader.BytesOverrunIff | src/protocol/bplist.cpp:167-168 | a string or byte string does so if and only if its position plus its size reaches 2^64 |
| BplistReader.NarrowNeverWraps | src/protocol/bplist.cpp:142-177 | no size of at most four bytes wraps |
| BplistReader.TableTestRight | src/protocol/bplist.cpp:198-201 | the test of the offset table is always right |
| BplistReader.LoadAgrees | src/protocol/bplist.cpp:195-208 | every file below 2^63 bytes is loaded as promised, unless an object in it has a size that wraps |
| BplistReader.NarrowFilesAgree | src/protocol/bplist.cpp:195-208 | every file below 2^63 bytes in which no eight-byte size occurs is loaded as promised |
| BplistReader.LoadsWhatIsDumped | src/protocol/bplist.cpp:110-208 | the reader as written returns every dictionary the writer accepts |
| BplistReader.WideFileOverruns | src/protocol/bplist.cpp:167-168 | a file of 51 bytes over which the reader runs, where no value is promised |
| BplistForeign.PutAllIs | src/protocol/bplist.cpp:181-187 | entries in any order: the dictionary is sorted and holds the last value of each key |
| BplistForeign.ObjectBack | src/protocol/bplist.cpp:153-191 | booleans, integers of 1, 2, 4 and 8 bytes, strings and byte strings with sizes in any form, and nested dictionaries up to the depth limit are read back wherever they are placed |
| BplistForeign.ForeignLoad | src/protocol/bplist.cpp:195-208 | a file of any writer, with references and offsets of any size, loads as the object its trailer names |
| BplistForeign.ForeignLoadAsWritten | src/protocol/bplist.cpp:195-208 | so it does with the reader as written |
| BplistReader.ReadTable | src/protocol/bplist.cpp:204-205 | reads the offset table back |
| BplistReader.AllBelow | src/protocol/bplist.cpp:206 | true exactly if every offset lies before the table |
| BplistReader.ReadObjectAt | src/protocol/bplist.cpp:153-191 | computes `ReadAsWritten`, error cases, depth limit and wrapped tests included |
| BplistReader.ReadDict | src/protocol/bplist.cpp:178-188 | the two reference loops and the entry loop of a dictionary |
| BplistReader.LoadFile | src/protocol/bplist.cpp:195-208 | computes `LoadAsWritten` |
| Base64.DecodeEncode | src/tunnel/pairing.cpp:22-70 | decoding an encoding gives the bytes back |
| Base64.EncodeDecode | src/tunnel/pairing.cpp:44-70 | an accepted text is the encoding of what it decodes to |
| Base64.Base64Bijection | src/tunnel/pairing.cpp:22-70 | a text decodes to some bytes if and only if it is their one canonical encoding |
| Base64.EncodeText | src/tunnel/pairing.cpp:22-42 | the encoder's loop and tail, with or without padding |
| Base64.DecodeSymbols | src/tunnel/pairing.cpp:56-69 | the accumulator loop in 32 bits computes the decoder |
| Pairing.KeySpelling | src/tunnel/pairing.cpp:238-243 | a valid key is the padded standard encoding of 32 bytes |
| Pairing.PortBijection | src/tunnel/pairing.cpp:206-213 | a text is a port if and only if it is that port's canonical numeral |
| Pairing.ParseJoined | src/tunnel/pairing.cpp:184-204 | printable non-empty values written as lines are read back |
| Pairing.JoinParsed | src/tunnel/pairing.cpp:184-204 | an accepted body is the joining of its values |
| Pairing.SubnetParses | src/tunnel/pairing.cpp:171-180 | the tunnel subnet constant parses |
| Pairing.TunnelRouteAllowed | src/tunnel/pairing.cpp:267-292 | the /32 route of every valid tunnel address is allowed, so that check of the decoders never fails |
| Pairing.ServerRoundTrip | src/tunnel/pairing.cpp:312-350 | every valid server descriptor decodes from its own code |
| Pairing.ServerCanonical | src/tunnel/pairing.cpp:330-350 | every accepted server code is the encoding of what it decodes to |
| Pairing.ServerBijection | src/tunnel/pairing.cpp:312-350 | server codes and valid descriptors correspond one to one |
| Pairing.ClientBijection | src/tunnel/pairing.cpp:324-366 | client codes and valid descriptors correspond one to one |
| Ipv4Spelling.OctetCanonicalIff | src/tunnel/pairing.cpp:79-85 | an accepted octet is a canonical numeral if and only if it is not three digits beginning with zero |
| Ipv4Spelling.CanonicalIff | src/tunnel/pairing.cpp:72-97 | an accepted address text is the canonical dotted spelling of its value if and only if no octet is padded like that |
| Ipv4Spelling.DottedParses | src/tunnel/pairing.cpp:72-97 | every 32-bit address is read from its canonical spelling |
| Ipv4Spelling.LeadingZeroAccepted | src/tunnel/pairing.cpp:79-85 | "10.77.77.10" and "10.77.77.010" are read as one address |
| EndpointHosts.HostnameIff | src/tunnel/pairing.cpp:150-169 | a name is accepted if and only if it is labels of 1 to 63 letters, digits and inner hyphens with dots between, at most 253 long and not only digits and dots |
| EndpointHosts.UsableIpv4Iff | src/tunnel/pairing.cpp:142-148 | an address is usable if and only if it is not 0.0.0.0 and its first octet is below 224 and not 127 |
| EndpointHosts.HexValueIff | src/tunnel/pairing.cpp:112-116 | the value of a hexadecimal digit in either case |
| EndpointHosts.Ipv6Iff | src/tunnel/pairing.cpp:101-140 | a literal of at most 45 characters is read as an address if and only if it is eight groups of one to four digits, or at most seven with one gap for the zeros, that spell it |
| EndpointHosts.HostIff | src/tunnel/pairing.cpp:250-265 | a host is a bracketed literal of an address that is not unspecified, loopback or multicast, a usable IPv4 address, or a name |
| EndpointHosts.TunnelIpIff | src/tunnel/pairing.cpp:267-277 | a tunnel address is one of 10.77.77.1 to 10.77.77.254 |
| EndpointHosts.RouteAllowedIff | src/tunnel/pairing.cpp:279-292 | a route is allowed if and only if it is a tunnel address and "/32" |
| Pairing.ReadDigits | src/tunnel/pairing.cpp:80-83 | the digit loop reads the maximal run and its value |
| Pairing.ReadIpv4 | src/tunnel/pairing.cpp:72-97 | the octet loop computes `ParseIpv4` |
| Pairing.ReadFields | src/tunnel/pairing.cpp:185-204 | the line loop computes `ParseFields` |
| SpsPatch.BitsOfBytesOf | src/media/avc_util.cpp:73-78 | packing loses nothing but adds zero bits to the last byte |
| SpsPatch.BytesOfBitsOf | src/media/avc_util.cpp:25-26 | packing what was unpacked gives the bytes back |
| SpsPatch.PatchMeaning | src/media/avc_util.cpp:21-80 | an SPS changes only if its header parses; it then parses again to the same fields but level 60 and at least 16 reference frames, with all later bits kept up to zero padding; if it had 16 only the level byte changes |
| SpsPatch.PatchIdempotent | src/media/avc_util.cpp:21-80 | rewriting twice equals rewriting once, for all bytes |
| SpsWriter.GolombRead | src/media/avc_util.cpp:30-39 | every Exp-Golomb code of a value below 2^32 - 1 is read as that value |
| SpsWriter.WrittenParses | src/media/avc_util.cpp:40-59 | every header written field by field, of any profile, chroma format and order count type, is read with the same values up to max_num_ref_frames and the rest behind it |
| SpsWriter.PatchWritten | src/media/avc_util.cpp:21-80 | the rewrite of any written SPS is the SPS written with level 60 and at least 16 reference frames, every other field and all later bits the same up to the zeros that filled the last byte |
| SpsWriter.ScalingUnchanged | src/media/avc_util.cpp:50 | a header with a scaling matrix comes back unchanged, whatever follows |
| SpsWriter.OffsetsUnchanged | src/media/avc_util.cpp:58 | so does one with more than 255 offsets |
| SpsWriter.RewrittenIff | src/media/avc_util.cpp:21-80 | a NAL unit is rewritten if and only if it is an SPS of at least four bytes that holds a written header without these, not cut short |
| SpsPatch.BitCursor.U | src/media/avc_util.cpp:29 | reads `u(n)` or sets the sticky error |
| SpsPatch.BitCursor.SkipZeros | src/media/avc_util.cpp:32 | counts the zeros of the run, or sets the sticky error beyond 31 |
| SpsPatch.BitCursor.Ue | src/media/avc_util.cpp:30-39 | reads an Exp-Golomb code of at most 31 zeros or sets the sticky error |
| SpsPatch.BitCursor.Chroma | src/media/avc_util.cpp:45-54 | follows the element order of the high profiles; a scaling matrix ends the walk |
| SpsPatch.BitCursor.OrderCount | src/media/avc_util.cpp:55-58 | follows the element order of the picture order count part |
| SpsPatch.BitCursor.Offsets | src/media/avc_util.cpp:58 | reads the counted offsets; more than 255 end the walk |
| SpsPatch.BitCursor.Walk | src/media/avc_util.cpp:40-58 | reaches max_num_ref_frames exactly when the element-by-element grammar does, with the same values |
| SpsPatch.UnpackBits | src/media/avc_util.cpp:26 | the bits of the bytes, most significant first |
| SpsPatch.PackBits | src/media/avc_util.cpp:72-78 | the bytes of the bits |
| SpsPatch.PatchSps | src/media/avc_util.cpp:21-80 | computes `Patch` |
| Nalu.PrefixReassembles | src/media/nalu.cpp:16-104 | any prefix of the payloads of single, aggregated and fragmented NALs yields exactly the NALs complete in it, appended as start code and NAL with their ranges, for both codecs |
| Nalu.UnitDelivers | src/media/nalu.cpp:16-104 | a complete unit appends exactly its NALs |
| Nalu.UnitCut | src/media/nalu.cpp:57-60 | a unit cut short leaves no trace |
| Nalu.UnitsReadBack | src/media/nalu.cpp:87-96 | the units of an aggregate are read back from their length-prefixed form |
| NaluLayout.LayoutIffUntangled | src/media/nalu.cpp:16-104 | for every payload list the ranges are in bounds, ordered, disjoint and each behind a start code if and only if no fragment chain interrupted by whole NALs was completed or left open at the end of the list |
| NaluLayout.TangledExample | src/media/nalu.cpp:97-103 | a single NAL inside an open chain that never ends: the recorded layout is broken |
| NaluLayout.RangesHoldNals | src/media/nalu.cpp:7-13 | the i-th range holds the i-th NAL |
| NaluLayout.PrefixLayout | src/media/nalu.cpp:16-104 | what any prefix of properly sent units yields is laid out well and holds exactly the complete NALs |
| NaluLayout.HevcIgnoredIff | src/media/nalu.cpp:20-56 | an HEVC payload changes no output if and only if it is too short for its kind or an aggregate without a whole unit |
| NaluLayout.AvcIgnoredIff | src/media/nalu.cpp:66-102 | an H.264 payload so, or if its type is not handled, it is an empty inner fragment, or it marks the configuration |
| NaluReassembly.Reassembler.EmitNal | src/media/nalu.cpp:7-13 | appends start code, NAL and range |
| NaluReassembly.Reassembler.EmitUnits | src/media/nalu.cpp:25-33 | the aggregate loop appends the well-formed units and stops at the first malformed one |
| NaluReassembly.Reassembler.AddFragment | src/media/nalu.cpp:40-50 | opens, extends or completes a chain |
| NaluReassembly.Reassembler.AddHevc | src/media/nalu.cpp:20-56 | one HEVC payload |
| NaluReassembly.Reassembler.AddAvc | src/media/nalu.cpp:66-102 | one H.264 payload |
| NaluReassembly.Reassembler.Close | src/media/nalu.cpp:57-60 | truncates an unfinished chain |
| NaluReassembly.ReassembleHevc | src/media/nalu.cpp:16-61 | computes `Reassemble` for HEVC |
| NaluReassembly.ReassembleAvc | src/media/nalu.cpp:63-104 | computes `Reassemble` for H.264 |
| NalPacketiser.SurvivesIff | tools/synth.cpp:138-169 | packetising and reassembling returns the NAL if and only if a stated size and type condition holds |
| NalPacketiser.SingleFragment | tools/synth.cpp:147-155 | a NAL of `mtu - 3` bytes becomes one fragment that only opens a chain |
| NalPacketiser.SentAsUnit | tools/synth.cpp:138-169 | a deliverable NAL is sent as one proper unit carrying just it |
| NalPacketiser.PacketiserPrefix | tools/synth.cpp:135-169 | cut the packets of an access unit anywhere: exactly the NALs whose packets all came through are recovered |
| NalAccessUnit.NalEffect | tools/synth.cpp:138-169 | what the packets of any one NAL, deliverable or not and of any type and size, do to any output, a chain left open included |
| NalAccessUnit.OpenerFate | tools/synth.cpp:147-155 | an HEVC NAL of `mtu - 3` bytes opens a chain that holds it |
| NalAccessUnit.OutcomeIs | tools/synth.cpp:135-169 | the output for any access unit cut anywhere, effect by effect |
| NalAccessUnit.AccessUnitRecovered | tools/synth.cpp:135-169 | for any access unit cut anywhere, exactly the tallied NALs get ranges, in order; those before a chain left open are held by them, those after its start have ranges past the output |
| NalAccessUnit.TallyNals | tools/synth.cpp:135-169 | where no packet is taken for an aggregate or a fragment, the tallied NALs are the deliverable ones whose packets all came through |
| NalAccessUnit.AllKept | tools/synth.cpp:147-155 | all of them are held if no NAL of `mtu - 3` bytes is among them, and always for H.264 |
| NalPacketiser.PacketiseFragments | tools/synth.cpp:149-155 | the fragmentation loop |
| NalPacketiser.PacketiseHevc | tools/synth.cpp:138-156 | computes the HEVC packets |
| NalPacketiser.PacketiseAvc | tools/synth.cpp:157-168 | computes the H.264 packets |
| Nack.PackExact | src/protocol/rtcp.cpp:18-37 | the pairs report a number if and only if it is lost |
| Nack.PackShortest | src/protocol/rtcp.cpp:18-37 | no list of non-wrapping pairs that covers the lost numbers is shorter |
| Nack.PackWithinOne | src/protocol/rtcp.cpp:18-37 | no list of pairs at all is shorter by more than one |
| Nack.ShorterIff | src/protocol/rtcp.cpp:18-37 | some list of pairs at all is shorter if and only if a tail and a head of the lost numbers fit one wrapping pair and the rest packs into two pairs fewer |
| Nack.WrappingCover | src/protocol/rtcp.cpp:18-37 | then there is a shorter list that reports exactly the lost numbers |
| Nack.ShortestUnlessClose | src/protocol/rtcp.cpp:18-37 | no list at all is shorter unless first and last number lie within 16 across the wrap |
| Nack.WrappingSavesOne | src/protocol/rtcp.cpp:27-30 | 0 and 65535 are such numbers |
| Nack.NackRoundTrip | src/protocol/rtcp.cpp:18-37 | a receiver of the bytes reads the right length, sender and media source, and exactly the lost set |
| Nack.PackOne | src/protocol/rtcp.cpp:24-30 | the inner loop computes mask and next start |
| Nack.PackAll | src/protocol/rtcp.cpp:21-33 | the outer loop writes the packed pairs |
| Nack.BuildNackPacket | src/protocol/rtcp.cpp:18-37 | computes `BuildNack`, empty for an empty set |
| GateRuns.ObservedAreRequired | src/media/quality_gate.cpp:9-73 | in every run the tiles with an observed IDR are required tiles |
| GateRuns.ObservedIffSeen | src/media/quality_gate.cpp:31-36 | a tile counts as observed if and only if a non-suspicious IDR came since it became required |
| GateRuns.LeavesIffRecovered | src/media/quality_gate.cpp:38-73 | a required tile leaves if and only if it is reset, or marked clean after such an IDR and the quiet time after the last unreliable concealment |
| GateRuns.EntersIffError | src/media/quality_gate.cpp:9-29 | a tile becomes required if and only if an error or forced keyframe hits it outside the grace time of its last IDR |
| GateRuns.RequestsPaced | src/media/quality_gate.cpp:50-62 | the k-th request of an unreset sequence comes at least min(k-1, cap-1) fast and max(0, k-cap) slow intervals after the first |
| GateRuns.RequestsPacedByDefault | src/media/quality_gate.h:29-31 | the same in the source's numbers: one second each up to the eighth, four seconds after |
| GateRequests.RequestIff | src/media/quality_gate.cpp:50-62 | in every run a request goes out if and only if it is asked for, some tile is required and the interval since the last request is over, the slow one once the cap is reached since tile 0 was last reset, entered or left |
| GateRequests.StreakIs | src/media/quality_gate.cpp:9-48 | in every run the bad streak of a tile counts its errors outside the grace time since it was last clean or reset |
| GateBooks.CyclesAre | src/media/quality_gate.cpp:20-47 | in every run the cycles of a tile count how often it became required since its last reset, or since a recovery that found three or more |
| GateBooks.FlickersAre | src/media/quality_gate.cpp:20-27 | in every run the flicker count is the number of times any tile became required |
| GateBooks.ConcealmentIs | src/media/quality_gate.cpp:9-12 | the last concealment is the last error of any tile or forced keyframe, suppressed or not |
| GateBooks.WarningIs | src/media/quality_gate.cpp:54-60 | the cap warning stands if and only if more requests than the cap went out since tile 0 was last reset, entered or left |
| QualityGate.FrameQualityGate.constructor | src/media/quality_gate.cpp:6-7 | the initial state |
| QualityGate.FrameQualityGate.NoteDecodeError | src/media/quality_gate.cpp:9-29 | whole new state of `mark_decode_error` |
| QualityGate.FrameQualityGate.Require | src/media/quality_gate.cpp:20-28 | whole new state when a tile that was not required becomes so |
| QualityGate.FrameQualityGate.NoteIdr | src/media/quality_gate.cpp:31-36 | whole new state of `mark_idr_observed` |
| QualityGate.FrameQualityGate.NoteClean | src/media/quality_gate.cpp:38-48 | whole new state of `mark_clean` |
| QualityGate.FrameQualityGate.ConsumeFirRequest | src/media/quality_gate.cpp:50-62 | whole new state, and the request is for tile 0 or none |
| QualityGate.FrameQualityGate.ForceKeyframeAll | src/media/quality_gate.cpp:64 | the loop over all tiles |
| QualityGate.FrameQualityGate.ForgetTile | src/media/quality_gate.cpp:68-73 | whole new state of `reset_tile` |
| QualityGate.FrameQualityGate.Reset | src/media/quality_gate.cpp:66 | the loop over all tiles |
| RelayModel.SubscribeIff | tools/mac-tunnel/audio_relay.go:126-140 | a datagram subscribes to an account if and only if it is the command, a valid account and line ends |
| RelayModel.ByeIff | tools/mac-tunnel/audio_relay.go:127-131 | a datagram is a goodbye if and only if it is that text and line ends |
| RelayRuns.AlwaysSound | tools/mac-tunnel/audio_relay.go:78-201 | in every run exactly the active one among the connected agents is started, and it is connected, of the subscriber's account and with a subscriber present, whichever agent a map walk picks |
| RelayRuns.ConnectSoundIff | tools/mac-tunnel/audio_relay.go:78-83 | connecting an agent keeps this if and only if it is not already started, or is the active one |
| RelayRuns.ReconnectBreaks | tools/mac-tunnel/audio_relay.go:78-93 | the run in which a started agent object is connected again |
| RelayRuns.TimeoutStopsAll | tools/mac-tunnel/audio_relay.go:192-201 | a tick past the timeout leaves no subscriber and no connected agent started |
| RelayRuns.CommandsAlternate | tools/mac-tunnel/audio_relay.go:116-190 | in every run each agent is told start and stop in turn, beginning with start, and counts as started exactly after a start |
| RelayRuns.AudioToSubscriber | tools/mac-tunnel/audio_relay.go:95-112 | audio leaves only as the frame just received from the active agent, to the subscriber whose account it serves, and every such frame is forwarded |
| RelayRuns.SubscriberAsked | tools/mac-tunnel/audio_relay.go:142-201 | whoever is the subscriber last sent a subscription that resolved to just that account, at the remembered time, with no change since |
| RelayRuns.SubscriptionEndsIff | tools/mac-tunnel/audio_relay.go:149-201 | in every run a subscription ends at an event if and only if that is a goodbye from the subscriber's own address or a tick more than the timeout after the last renewal; the active agent is told to stop, and nobody stays active or started |
| RelayRuns.OtherByeIgnored | tools/mac-tunnel/audio_relay.go:149-155 | a goodbye from any other address changes nothing |
| RelayRuns.SubscribedIff | tools/mac-tunnel/audio_relay.go:142-201 | there is a subscriber if and only if some renewal was neither replaced nor ended since |
| RelayRuns.RenewalStarts | tools/mac-tunnel/audio_relay.go:156-190 | after a renewal an agent of the account is active and started if and only if one is connected; an agent that served the same subscription is told nothing, else the old one is stopped first, and a missing one is reported |
| RelayRuns.ResolvedOnce | tools/mac-tunnel/audio_relay.go:156-166 | once an account has been resolved it keeps its user id, whatever a later look-up says |
| RelayRuns.StatusToSubscriber | tools/mac-tunnel/audio_relay.go:103-112 | a status text of the active agent goes to the subscriber, any other nowhere |
| RelayRuns.UnknownAccountAnswered | tools/mac-tunnel/audio_relay.go:156-164 | an account that does not resolve is reported to the sender and changes nothing else |
| RelayRuns.OtherDatagramsIgnored | tools/mac-tunnel/audio_relay.go:142-146 | any other datagram changes nothing |
| RelayRuns.ForwardedIs | tools/mac-tunnel/audio_relay.go:96-124 | in every run the packet count is that of the active agent's audio frames since the subscription last changed or ended |
| AudioRelay.SessionRelay.Add | tools/mac-tunnel/audio_relay.go:78-83 | whole new state for any agent; the relay stays sound if and only if the agent is not started or is the active one |
| AudioRelay.SessionRelay.Remove | tools/mac-tunnel/audio_relay.go:85-93 | whole new state |
| AudioRelay.SessionRelay.OnAgentFrame | tools/mac-tunnel/audio_relay.go:95-114 | whole new state and what is sent |
| AudioRelay.SessionRelay.Stop | tools/mac-tunnel/audio_relay.go:116-124 | whole new state and the stop command |
| AudioRelay.SessionRelay.Choose | tools/mac-tunnel/audio_relay.go:174-181 | returns a connected agent of the account, and none only if there is none |
| AudioRelay.SessionRelay.OnDatagram | tools/mac-tunnel/audio_relay.go:142-190 | whole new state for some legal pick; the relay stays sound |
| AudioRelay.SessionRelay.Handle | tools/mac-tunnel/audio_relay.go:142-190 | the branches of the handler |
| AudioRelay.SessionRelay.Resubscribe | tools/mac-tunnel/audio_relay.go:167-173 | whole new state when subscriber or account changes or stays |
| AudioRelay.SessionRelay.Start | tools/mac-tunnel/audio_relay.go:174-189 | whole new state of activating and starting |
| AudioRelay.SessionRelay.OnTick | tools/mac-tunnel/audio_relay.go:193-201 | whole new state |

## Left out

- Sockets, audio and video devices, FFmpeg, the GUI, telemetry, logging, settings and command-line parsing.
- The arithmetic of AES, SHA-1, HMAC and key derivation: functions with the named properties.
- Memory ordering below the level of single atomic loads, stores and cell accesses in the ring, and `drain_queue` of a restarting decoder.
- `track_seq`, `first_donl`, `parse_avc_config`, the other RTCP packets, SRTCP, `primary_ssrc_group` and HEVC parameter parsing.
- Statistics: byte counts, receive times and payload views of flushed groups, drop counters, log lines, and the overflow of `int` counters in the keyframe gate.
- AssemblerReordering.ReorderingTransparent: starts from an anchor, and asks that no group of the SSRC times out and that a unit has at most 0x8000 packets, as the source's ordering needs; a packet may lie up to a full circle ahead of the anchor. `AssemblerFresh` covers the start without an anchor, `AssemblerTimeout` a timeout.
- AssemblerTimeout.TimeoutReleasesIff: the units that time out in one eviction are all pending ones up to `v`, and `v` is dropped last; `AssemblerRelease.EvictSettles` has no such condition.
- AssemblerFresh.FreshTransparentIff: asks the same of the events.
- RtpAssembler.Assembler.ResetAll: releases slots in arrival order, where the source walks an unordered map.
- SpscRing.RingIsQueue: cells are values in a sequence indexed by remainder, for capacities that are powers of two.
- RecordLayer.ChannelOutcome: damaged records keep their length and fail their tag, and the counters stay below the wrap that `StreamRoundTrip` describes.
- BplistReader.ReadObjectAt: reals, UTF-16 strings and arrays count as unreadable; `Overrun` stands for reading past the input, where the source has no defined result.
- BplistReader.LoadFile: the same.
- BplistForeign.ForeignLoad: reals, UTF-16 strings and arrays are left out here too.
- Bplist.LoadDump: strings are ASCII; the reader does not rejoin surrogate pairs.
- Pairing.ServerBijection: `parse_ipv6` and `valid_hostname` are functions on values, error texts are dropped, and tunnel addresses are compared as text like in the source.
- SpsPatch.PatchSps: the code word for 16 is a constant instead of a loop over its bits.
- NalPacketiser.PacketiserPrefix: is for access units of deliverable NALs; `NalAccessUnit.AccessUnitRecovered` covers the others. The RTP headers, sequence numbers and record writing around the payloads are not modelled; `mtu` is large enough to leave room for a payload byte.
- Nack.BuildNackPacket: the set of lost numbers is given as its ascending list.
- AudioRelay.SessionRelay.OnAgentFrame: the trimming of status text is a parameter; each call under the relay's mutex is one step.
