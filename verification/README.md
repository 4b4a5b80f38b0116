# A verified model of the EJFAT transport, the ring supply and the EVIO tree iterators

The repository moves event buffers over UDP (EJFAT), hands items round on a Disruptor ring, and walks
EVIO structure trees. This project models the parts of it that are hard to get right, and proves what
they keep over every input, every run and every interleaving.

Four systems are modelled, each in the form its code has. `dafny verify dfyconfig.toml` covers them all.

* **Packets** (`Bytes`, `Headers`, `Packetizer`, `PacketizerTheorems`, `Attempts`, `Reassembler`,
  `ReassemblerTheorems`, `Completion`, `Contents`, `MixedStreams`, `Recovery`, `StagedReader`, `StagedStreams`,
  `EndToEnd`). The senders and receivers are methods over arrays. `send` is an oracle: a sequence of outcomes (accepted, EMSGSIZE, another error). The network is an
  arbitrary sequence of datagrams. A call that wants more answers than the sequence has is *pending*
  or *waiting*, so every finite prefix of every behaviour is covered. Each method is proved equal to a
  fold (`Transmit`, `Run`, `ReadStage`) and the theorems are about the fold. What each fold does is also told
  without it, from the data, the answers of the link or the stream of packets alone (`Attempts.WireExactly`,
  `MixedStreams.NextExactly`, `StagedStreams.NextRead`, `EtLoop.TurnExactly`).
* **The multi-tick assembler** (`EtAssembler`, `EtTheorems`, `EtSafety`, `EtRuns`, `EtCompletion`, `EtStreams`,
  `EtLoop`). The class `Assembler` has the variables of `getBuffers`. An ET fifo entry is a number with one
  (bytes, length, hasData) record for each source; the entry that the set of free entries yields first is
  an arbitrary choice.
* **The ring supply** (`Counting`, `Supplier`, `SupplierTheorems`). The class `SupplierN` has the
  counters; the theorems are about a system of atomic steps: a producer that waits, claims and publishes,
  and N consumers that get, are alerted, release and take the lock, interleaved at will.
* **The tree iterators** (`TreeIterators`). The classes have the stack or queue of sibling ranges, the
  current node and the end flag.

"World" below is the map from (tick, source) to the buffer that was really sent. A packet is *genuine* if
it carries a stretch of such a buffer under its true offset and length. A stream is *duplicate-free* if no
byte of any buffer arrives twice. Packets may be lost, reordered and interleaved.

## Where code and expectation part

* The fast and the copying sender attempt, send and report the same, byte for byte on the wire, also with payloads
  below 36 bytes: a header written in front of the unsent data never reaches into it. They part on exactly two
  families of inputs (`PacketizerTheorems.SendersAgree`, `PacketizerTheorems.SendersSameWire`). An empty first
  buffer whose packet is answered with EMSGSIZE: the fast one tries again, the copying one returns 0 with nothing
  sent (`PacketizerTheorems.EmptyRetryDiffers`). And a first packet with 65501 to 65536 bytes of data, which with
  its headers does not fit the 65536-byte buffer of the copying sender, but fits the storage of the fast one, which
  has 36 bytes more (`PacketizerTheorems.BigPacketDiffers`).
* What does need payloads of 36 bytes is the memory in front of the fast sender's buffer: with a smaller payload a
  second packet's header is written there (`Packetizer.SendFast`).
* Completion counts bytes. A packet that arrives twice can make the receiver report a buffer with a hole
  (`ReassemblerTheorems.DuplicateFoolsTheCount`). Exactly when a reported buffer is right, whatever the bytes
  sent and whatever was in memory, is `Contents.RightExactly`; for a buffer that was not given up and taken up
  again this means that no byte is carried twice by the packets stored for it (`Contents.RightIfNoByteTwice`).
  For fixed bytes there is no such condition on packets alone: a byte left over from an abandoned tick can
  happen to be right (`Contents.StaleByteStandsIn`).
* Out of order, one doubling may not make room: the growing receiver is safe for every order exactly if no
  buffer is longer than twice its memory (`ReassemblerTheorems.AnyOrderIsSafe`). When all packets of a buffer
  make a receiver complete it is `Completion.CompletesExactly`. With ticks and sources mixed, a packet completes
  its buffer exactly if every byte has come since the packet with which the attempt began
  (`MixedStreams.CompletesMixedExactly`). A receiver that has dumped ticks, or is in the middle of one, takes the
  next buffer exactly if its first packet comes in front and begins a buffer there (`Recovery.RecoversExactly`).
* `getPacketizedBuffer` documents a buffer of more than 9000 bytes but tests for 9978; in between it
  returns success at once with nothing read, and hands an uninitialised tick on
  (`StagedReader.ShortBufferReadsNothing`). From 9978 bytes on a call that succeeds has read a packet
  (`StagedReader.SuccessReads`), and calls with such buffers read a source in order to its end
  (`StagedStreams.StagesFinish`).
* The receivers start with prevTick = UINT_MAX, a 32-bit value in a 64-bit variable. A new receiver stores the
  first packet exactly if its offset is 0 or its tick is 4294967295 (`Completion.FirstPacketStored`), so that
  tick may start with any packet (`Completion.CompletesExactly`).
* In `getBuffers` a count does not survive a change of tick, a flag does. An event is flagged exactly if some
  run of packets of its tick carried the whole of its source's buffer, and a tick is given back complete
  exactly if every source had such a run (`EtCompletion.FlaggedExactly`, `EtCompletion.CompletedExactly`); the
  events of an evicted entry are flagged by the same rule (`EtCompletion.EvictedExactly`). So two ticks
  whose packets come in turns are never complete, though every byte arrives
  (`EtStreams.AllBytesNothingComplete`).
* `getBuffers` looks up its tick only when the tick changes. So a packet is written to an entry that has gone back
  to the ET system exactly if it has the tick of the last packet from an expected source and that tick is closed
  (`EtStreams.StaleExactly`); two late packets of one tick in a row are enough (`EtStreams.LatePacketsGoStale`).
* `getBuffers` uses event arrays that it has not fetched exactly if the first packet from an expected source has
  tick 2^64-1 (`EtSafety.UnfetchedExactly`).
* `next(n)`, when it has to wait, first sets the cursor to everything claimed, and `publish` sets it to the
  sequence it is given. So a step exposes unpublished items exactly if it is a `next(n)` that has to wait while
  something is unpublished, or a `publish` past something unpublished (`SupplierTheorems.PrivateStep`); all of a
  run is free of this exactly if every step is (`SupplierTheorems.PrivateExactly`); and after any such step some
  continuation hands an unpublished item out (`SupplierTheorems.UnguardedStepHandsOut`). Whether a `next(n)` has to
  wait depends on the minimum that ended the last wait (`SupplierTheorems.WaitsExactly`).
* Publishing out of order moves the cursor back. A get that uses the cached availability agrees with one that always
  waits as long as no consumer knows of anything past the cursor (`SupplierTheorems.CacheAgrees`). A step keeps that
  so exactly if it is not a `publish` of a sequence below what some consumer knows of (`SupplierTheorems.BehindStep`),
  all of a run has it exactly if every step is of that kind (`SupplierTheorems.BehindExactly`), and after any other
  publish some continuation hands an item past the cursor out (`SupplierTheorems.BackwardStepHandsPast`). It happens
  when 1 is published, a consumer gets 0, and then 0 is published (`SupplierTheorems.HandedPastTheCursor`).
* The gate moves over everything pending or not at all (`Supplier.CommitRefines`), so it can lag behind
  sequences that are free: releasing 2 and then 0 leaves it behind the freed 0. It catches up when the gaps close
  (`SupplierTheorems.NoLostCapacity`).

## Model

| member | source | states |
|---|---|---|
| `Headers.ParseSetRe` | installation/include/ejfat_packetize.hpp:309-319 | Parsing gives back the version 2 reassembly header that was set, whatever follows it, except that four bits of the version survive. |
| `Headers.SetParseRe` | installation/include/ejfat_assemble_ersap.hpp:479-488 | Setting a parsed header gives back the bytes exactly if the low nibble of the first byte is 0 and the second byte is the reserved value. |
| `Headers.ParseSetLb` | installation/include/ejfat_packetize.hpp:201-211 | Parsing the load balancer header that was set succeeds and gives its fields, truncated to their widths. |
| `Headers.ReBytes` | installation/include/ejfat_packetize.hpp:309-319 | Every byte of the reassembly header in arithmetic: version in the upper half of byte 0, the source at 2-3, the offset at 4-7, the length at 8-11, the tick at 12-19, most significant byte first. |
| `Headers.ReFieldsAt` | installation/include/ejfat_assemble_ersap.hpp:479-488 | The number at each of these places is the field that is parsed, whatever the bytes. |
| `Headers.LbBytes` | installation/include/ejfat_packetize.hpp:201-211 | Every byte of the load balancer header: L, B, version, protocol, two bytes of 0, the entropy at 6-7, the tick at 8-15. |
| `Headers.LbFieldsAt` | installation/include/ejfat_assemble_ersap.hpp:354-372 | Where its fields are parsed, and that exactly headers without L and B are refused. |
| `Packetizer.TilesConcat` | installation/include/ejfat_packetize.hpp:888-971 | The reference cut of a buffer: the pieces join to the buffer and follow each other without gap or overlap. |
| `Packetizer.TilesCount` | installation/include/ejfat_packetize.hpp:888-971 | The number of pieces is the length divided by the payload size, rounded up, and 1 for no data. |
| `Packetizer.TileSizes` | installation/include/ejfat_packetize.hpp:888-971 | No piece of the reference cut is longer than the payload size, and none is empty unless there is no data. |
| `Packetizer.Compose` | installation/include/ejfat_packetize.hpp:888-935 | Headers and data copied into a packet buffer are the packet, with or without the load balancer header. |
| `Packetizer.TurnCopying` | installation/include/ejfat_packetize.hpp:888-971 | One turn of the copying loop changes its variables as the step of the send state machine says and puts the right packet on the wire. |
| `Packetizer.SendCopying` | installation/include/ejfat_packetize.hpp:846-978 | For every buffer, offset, payload size and link: the attempts, the return value, *offset and the packet count are those of the send state machine, and an overrun exactly when the first packet is longer than the 65536-byte packet buffer. |
| `Packetizer.ComposeInPlace` | installation/include/ejfat_packetize.hpp:548-573 | Writing the headers in front of the data yields the packet and changes only the 36 bytes before the data. |
| `Packetizer.TurnInPlace` | installation/include/ejfat_packetize.hpp:536-625 | A turn that writes its header over sent bytes still sends the original data, and leaves all unsent data as it was. |
| `Packetizer.SendInPlace` | installation/include/ejfat_packetize.hpp:536-625 | All packets after the first are those of the send state machine on the original data, although every header overwrites the buffer. |
| `Packetizer.TurnFirst` | installation/include/ejfat_packetize.hpp:536-594 | One try of the first packet: sent, started again with a smaller payload, or failed. |
| `Packetizer.SendFirst` | installation/include/ejfat_packetize.hpp:536-594 | The first packet goes out with ever smaller payloads until the link takes it, refuses it for good or has not answered; nothing is written in place. |
| `Packetizer.SendFast` | installation/include/ejfat_packetize.hpp:506-633 | The whole fast send is the send state machine on the original data, and an overrun exactly when the data of the first packet is longer than 65536 bytes; memory behind the buffer is untouched, and memory in front of it is untouched exactly unless a second packet went out with a payload below 36 bytes. |
| `PacketizerTheorems.AcceptedAreSent` | installation/include/ejfat_packetize.hpp:929-960 | What a call counts as sent are exactly the attempts that the link answered with success, in order. |
| `PacketizerTheorems.AttemptsAreAnswered` | installation/include/ejfat_packetize.hpp:929-960 | Attempt i of a call is the one answered by answer i of the link, and a call that is not over has used all answers. |
| `PacketizerTheorems.FailsExactly` | installation/include/ejfat_packetize.hpp:938-951 | A call returns -1 if and only if the last answer it used is an error other than EMSGSIZE, or EMSGSIZE when the buffer is not the first or an earlier packet was sent. |
| `PacketizerTheorems.CuttingAlways` | installation/include/ejfat_packetize.hpp:888-971 | In every state of every call what was accepted and what remains make up the reference cut for the payload size in force: nothing is skipped or repeated. |
| `PacketizerTheorems.CallSendsTiles` | installation/include/ejfat_packetize.hpp:846-978 | Every call of either sender, offsets that wrap included: it overruns its packet storage, with nothing sent, exactly if its first packet does not fit there; one that returns 0 has sent exactly the reference cut and moved *offset by dataLen, any other has sent a strict initial part of it; only an empty buffer that the copying sender lets go is returned with 0 and nothing sent. |
| `PacketizerTheorems.CallTilesItsPart` | installation/include/ejfat_packetize.hpp:857-977 | Every successful call's packets tile its part of the buffer, *offset moves by dataLen modulo 2^32, and packetsSent is dataLen over the payload size rounded up. |
| `PacketizerTheorems.SeriesTilesBuffer` | installation/include/ejfat_packetize.hpp:857-977 | However a buffer is split over successful calls, and whatever payload size each ends up with, all packets together tile it without gap or overlap. |
| `PacketizerTheorems.SendersAgree` | installation/include/ejfat_packetize.hpp:506-632 | What a call attempts, sends and reports, overruns included, is the same for the fast and the copying sender if and only if the input is not an empty first buffer answered with EMSGSIZE and the first packet has not 65501 to 65536 bytes of data. |
| `PacketizerTheorems.SendersSameWire` | installation/include/ejfat_packetize.hpp:506-633 | On all those inputs the two senders put the same datagrams on the wire, byte for byte. |
| `PacketizerTheorems.EmptyRetryDiffers` | installation/include/ejfat_packetize.hpp:574-583 | On that input the copying sender returns 0 after one attempt with nothing sent, while the fast one tries again. |
| `PacketizerTheorems.BigPacketDiffers` | installation/include/ejfat_packetize.hpp:506-905 | With 65536 bytes of data in one packet the copying sender overruns its buffer and the fast one sends the packet. |
| `PacketizerTheorems.RetryProgress` | installation/include/ejfat_packetize.hpp:888-971 | On a link that takes exactly payloads up to a limit of at least 1, the payload size never reaches 0, and each attempt uses up part of a budget of p + dataLen + 1. |
| `PacketizerTheorems.RetryTerminates` | installation/include/ejfat_packetize.hpp:888-978 | On such a link the send of a first buffer is over after that many attempts, without error and with every piece sent once. |
| `Attempts.ReducedByAFifth` | installation/include/ejfat_packetize.hpp:939-944 | A reduction takes away a fifth of the payload size and less than one byte more. |
| `Attempts.PayloadInForce` | installation/include/ejfat_packetize.hpp:938-947 | The payload size of every call is the one asked for, reduced by a fifth and rounded down once for each EMSGSIZE before the first other answer to a first buffer. |
| `Attempts.WireExactly` | installation/include/ejfat_packetize.hpp:506-978 | Every datagram that a call of either sender hands to the link, in closed form: the retries with the front of the data, then the pieces of the reference cut one by one. |
| `Attempts.OverrunsExactly` | installation/include/ejfat_packetize.hpp:861-879 | The longest payloads that fit the packet storage: 65500 bytes copied, 65516 direct, 65536 fast. |
| `Attempts.PacketFields` | installation/include/ejfat_packetize.hpp:906-918 | What load balancer and receiver read in a packet: both headers with the fields of the call, the reserved byte, and the data behind 36 bytes. |
| `Attempts.DirectPacketFields` | installation/include/ejfat_packetize.hpp:906-918 | The same for a packet that goes direct: one header, and the data behind 20 bytes. |
| `Reassembler.Judge` | installation/include/ejfat_assemble_ersap.hpp:862-950 | Whether a packet is stored, skipped or makes the receiver abandon its tick, as the transition function decides it. |
| `Reassembler.TurnFixed` | installation/include/ejfat_assemble_ersap.hpp:845-1010 | One turn of the loop, on the caller's array, is one step of the receive state machine, errors included. |
| `Reassembler.GetCompletePacketizedBuffer` | installation/include/ejfat_assemble_ersap.hpp:815-1013 | A call on any sequence of datagrams returns and leaves in dataBuf what the receive state machine does. |
| `Reassembler.StartSize` | installation/include/ejfat_assemble_ersap.hpp:1096-1120 | The memory allocated at the start: what is asked for, but never less than one jumbo packet, and 100000 bytes if nothing is asked for and nothing given. |
| `Reassembler.StartFails` | installation/include/ejfat_assemble_ersap.hpp:1096-1120 | A call fails before it has read anything if and only if the caller gave no buffer of 9978 bytes and that size is more than can be had. |
| `Reassembler.TurnGrowing` | installation/include/ejfat_assemble_ersap.hpp:1272-1294 | A turn that has to grow the memory doubles it once and keeps what it holds. |
| `Reassembler.GetCompleteAllocatedBuffer` | installation/include/ejfat_assemble_ersap.hpp:1081-1334 | The same for the growing receiver: start size, one doubling per packet, failure of malloc and realloc, and overrun. |
| `ReassemblerTheorems.HoldingStore` | installation/include/ejfat_assemble_ersap.hpp:952-1000 | Storing a genuine, not duplicated packet adds exactly its own bytes to those known to be right, so the byte count is their number. |
| `ReassemblerTheorems.SoundRun` | installation/include/ejfat_assemble_ersap.hpp:845-1010 | After every packet of every genuine duplicate-free stream the bytes counted are bytes of the buffer under construction, in place. |
| `ReassemblerTheorems.DeliveredIsGenuine` | installation/include/ejfat_assemble_ersap.hpp:845-1013 | Whenever either receiver reports tick t and source s complete, its buffer holds exactly the buffer s sent for t, and the length is right; nothing of an abandoned tick or rejected source survives there. |
| `ReassemblerTheorems.DuplicateFoolsTheCount` | installation/include/ejfat_assemble_ersap.hpp:952-1000 | A stream with one packet twice that is reported complete with a wrong byte. |
| `ReassemblerTheorems.DoublingSuffices` | installation/include/ejfat_assemble_ersap.hpp:1272-1294 | For streams that are in order within each buffer, any ticks and sources mixed, one doubling per packet always makes room. |
| `ReassemblerTheorems.LongSourceOverruns` | installation/include/ejfat_assemble_ersap.hpp:1272-1294 | For every buffer more than twice as long as the memory there are two packets that make the receiver write past its memory. |
| `ReassemblerTheorems.AnyOrderIsSafe` | installation/include/ejfat_assemble_ersap.hpp:1272-1294 | No order of packets makes the growing receiver overrun if and only if no buffer is longer than twice its memory. |
| `Completion.FirstPacketStored` | installation/include/ejfat_assemble_ersap.hpp:820-950 | A new receiver stores the first packet exactly if its offset is 0 or its tick is UINT_MAX; else it dumps the tick. |
| `Completion.NeverStarted` | installation/include/ejfat_assemble_ersap.hpp:905-960 | If the first packet of a tick is not stored, none of that tick is. |
| `Completion.AnyOrderRoomy` | installation/include/ejfat_assemble_ersap.hpp:1272-1294 | Memory as long as the buffer, or half as long and free to double, has room for every packet in any order. |
| `Completion.InOrderRoomy` | installation/include/ejfat_assemble_ersap.hpp:1096-1294 | In order, with payloads of at most a jumbo packet and room for one at the start, doubling makes room for every packet as long as memory lasts. |
| `Completion.CompleteWithTheLastPacket` | installation/include/ejfat_assemble_ersap.hpp:862-1012 | All packets of one buffer, in any order, the first of them stored and each with room, doubling included: the receiver completes with the last one, not before, with the right bytes. |
| `Completion.CompletesExactly` | installation/include/ejfat_assemble_ersap.hpp:862-1012 | All packets of one buffer make a receiver complete it if and only if the first to arrive has offset 0 or tick UINT_MAX, and each finds room, doubling included. |
| `MixedStreams.AttemptIsRun` | installation/include/ejfat_assemble_ersap.hpp:862-1000 | In every stream the variables of the receiver are those of the attempt that the stream says is under way: its source and tick, and the count of all packets of that source since it began; or of no attempt, and the tick given up last. |
| `MixedStreams.AttemptStands` | installation/include/ejfat_assemble_ersap.hpp:866-950 | An attempt goes on exactly as long as its source sends no other tick, whatever other sources send. |
| `MixedStreams.StoredExactly` | installation/include/ejfat_assemble_ersap.hpp:866-960 | In every stream exactly the packets of the attempts under way are stored. |
| `MixedStreams.NextExactly` | installation/include/ejfat_assemble_ersap.hpp:845-1012 | For every stream and kind of memory, what the next packet makes of a receiver that waits, each error and completion included, told by the stream alone. |
| `MixedStreams.CompletesMixedExactly` | installation/include/ejfat_assemble_ersap.hpp:862-1012 | On every genuine duplicate-free stream a waiting receiver that has room for the next packet completes with it if and only if the packet is of the attempt under way and every byte of its buffer is carried by a packet since that began. |
| `Recovery.RecoversExactly` | installation/include/ejfat_assemble_ersap.hpp:906-960 | After every stream that leaves a receiver waiting, all packets of a buffer not seen before make it complete if and only if the first of them begins a buffer there and each finds room. |
| `Recovery.RecoversWithTheLastPacket` | installation/include/ejfat_assemble_ersap.hpp:906-1012 | It then completes with the last packet and not before, with the right bytes. |
| `Recovery.RecoversFromDumped` | installation/include/ejfat_assemble_ersap.hpp:906-951 | In particular after any packets of other ticks whose first packets were lost. |
| `Recovery.RecoversFromUnfinished` | installation/include/ejfat_assemble_ersap.hpp:926-944 | And after any part of another buffer of the same source that was begun and not finished. |
| `Contents.WrittenAlways` | installation/include/ejfat_assemble_ersap.hpp:952-1000 | After every packet each position of the memory holds the byte of the last packet stored there, or what was there before. |
| `Contents.RightExactly` | installation/include/ejfat_assemble_ersap.hpp:952-1012 | For every genuine stream, duplicates and all, that makes a call complete: the buffer reported is right, whatever the bytes sent and whatever was in memory, if and only if the count equals the length and the last packet stored at each position is of that buffer. |
| `Contents.RightIfNoByteTwice` | installation/include/ejfat_assemble_ersap.hpp:952-1012 | For a buffer not given up and taken up again this is so if and only if no byte is carried twice by the packets stored for it; duplicates elsewhere do no harm. |
| `Contents.StaleByteStandsIn` | installation/include/ejfat_assemble_ersap.hpp:945-1000 | A stream with a packet twice that is right for every memory, because a byte of an abandoned tick happens to be right. |
| `EndToEnd.TilingAt` | installation/include/ejfat_packetize.hpp:888-971 | Every piece of a tiling is a stretch of the data, under its offset as a uint32_t. |
| `EndToEnd.SeriesDelivers` | installation/include/ejfat_packetize.hpp:857-977 | The datagrams of a series of calls that the links accepted are exactly the packets of what the calls count as sent. |
| `EndToEnd.ForwardPacket` | installation/include/ejfat_assemble_ersap.hpp:479-488 | A packet without its first 16 bytes is received as exactly the offset, length, tick, source and data that were sent. |
| `EndToEnd.RoundTrip` | installation/include/ejfat_assemble_ersap.hpp:862-1012 | A buffer sent by either sender, in one call or in pieces, over any links: the accepted datagrams, forwarded in any order with the first in front, come out of either receiver, one that has to grow included, as the buffer with its length, tick and source, and no fewer datagrams are enough. |
| `StagedReader.Examine` | installation/include/ejfat_assemble_ersap.hpp:1410-1470 | The tests a packet has to pass and the variables after it, every error exit included. |
| `StagedReader.TurnInPlace` | installation/include/ejfat_assemble_ersap.hpp:1397-1481 | One turn of the staged reader is one step of its state machine, every error exit included. |
| `StagedReader.GetPacketizedBuffer` | installation/include/ejfat_assemble_ersap.hpp:1371-1482 | A call on any sequence of datagrams reports and leaves in its buffer what the state machine does. |
| `StagedReader.InStepAlways` | installation/include/ejfat_assemble_ersap.hpp:1397-1481 | After every packet a call has in front of its buffer exactly the source from its first offset to the next one expected, stays in bounds, and sets *last exactly when that is the end. |
| `StagedReader.StagesJoin` | installation/include/ejfat_assemble_ersap.hpp:1397-1481 | If successive calls all succeed, their slices join to the source from the first offset to the last, from one source and tick, and *last is set exactly by a call that reaches the length. |
| `StagedReader.ShortBufferReadsNothing` | installation/include/ejfat_assemble_ersap.hpp:1352-1410 | With a buffer below 9978 bytes a call succeeds with nothing read and a garbage tick. |
| `StagedReader.SuccessReads` | installation/include/ejfat_assemble_ersap.hpp:1352-1481 | Whatever arrives, a call that succeeds has read no packet if and only if its buffer is below 9978 bytes. |
| `StagedStreams.NextRead` | installation/include/ejfat_assemble_ersap.hpp:1397-1481 | For every stream, what the next packet makes of a call that goes on, told by the stream alone: out of order exactly if its offset is not the end of those kept, rejected exactly if source or tick differ from the first, over with the hundredth rejected, done exactly at the end or with less than a jumbo packet free. |
| `StagedStreams.ReadsInOrder` | installation/include/ejfat_assemble_ersap.hpp:1443-1481 | On the packets of a source in order a call succeeds with exactly the first packet that reaches the end or leaves less than a jumbo packet free, and has that stretch of the source. |
| `StagedStreams.ReadsAll` | installation/include/ejfat_assemble_ersap.hpp:1443-1481 | With room for the rest of the source and a jumbo packet one call reads it to its end. |
| `StagedStreams.StagesFinish` | installation/include/ejfat_assemble_ersap.hpp:1397-1481 | Calls with buffers of at least a jumbo packet each read a source in order to its end, all successful, joined to the whole, and only the last one sets *last. |
| `EtAssembler.Sweep` | installation/include/ejfat_assemble_ersap_et.hpp:447-494 | The walk over the open ticks takes out exactly the expired ones, frees their entries and hands back their contents. |
| `EtAssembler.Assembler.constructor` | installation/include/ejfat_assemble_ersap_et.hpp:140-180 | All entries of the pool are free and no tick is open. |
| `EtAssembler.Assembler.FetchInfo` | installation/include/ejfat_assemble_ersap_et.hpp:223-257 | At a change of tick the counters restart at zero and the control words of the entry are cached. |
| `EtAssembler.Assembler.SelectTick` | installation/include/ejfat_assemble_ersap_et.hpp:212-353 | Finding or opening the packet's tick: the whole new state. |
| `EtAssembler.Assembler.WriteData` | installation/include/ejfat_assemble_ersap_et.hpp:360-412 | Copying, counting and flagging, with the cached control words written back: the whole new state, and the two ways it can fail. |
| `EtAssembler.Assembler.Finish` | installation/include/ejfat_assemble_ersap_et.hpp:397-433 | A tick whose events are all flagged goes back when a source's last packet arrives. |
| `EtAssembler.Assembler.CleanHouse` | installation/include/ejfat_assemble_ersap_et.hpp:447-494 | Eviction of the ticks that fell out of the window: the whole new state. |
| `EtAssembler.Assembler.Receive` | installation/include/ejfat_assemble_ersap_et.hpp:190-497 | One turn of the endless loop is one step of the assembler's state machine. |
| `EtTheorems.EntriesConserved` | installation/include/ejfat_assemble_ersap_et.hpp:212-489 | In every reachable state, duplicates and late packets included, each entry ever created is free or in use for exactly one open tick, and the cached entry belongs to prevTick if that is open and is free otherwise. |
| `EtTheorems.WindowAlways` | installation/include/ejfat_assemble_ersap_et.hpp:447-494 | After every packet each open tick t satisfies t <= biggestTick <= t + 4 * tickPrescale, in 64-bit arithmetic. |
| `EtTheorems.OpenTicks` | installation/include/ejfat_assemble_ersap_et.hpp:447-494 | If ticks are multiples of the prescale, at most five are open between packets. |
| `EtTheorems.FreeEntriesLeft` | installation/include/ejfat_assemble_ersap_et.hpp:261-285 | Entries that are not in use are free, counted. |
| `EtTheorems.SelectPooled` | installation/include/ejfat_assemble_ersap_et.hpp:261-285 | Within a packet at most six ticks are open and no entry is created. |
| `EtTheorems.PoolSuffices` | installation/include/ejfat_assemble_ersap_et.hpp:160-285 | With ticks that are multiples of the prescale a pool of six entries, so also the ten of the source, never runs out. |
| `EtSafety.PartialWrite` | installation/include/ejfat_assemble_ersap_et.hpp:360-412 | A packet written into its event adds exactly its bytes; when the count reaches the length, the event is the sent buffer and no packet of it is still to come. |
| `EtSafety.SelectSound` | installation/include/ejfat_assemble_ersap_et.hpp:212-353 | Switching to a tick, old or new, leaves counters that describe its events, although they restart at zero. |
| `EtSafety.WriteSound` | installation/include/ejfat_assemble_ersap_et.hpp:360-412 | A write keeps every open entry sound and disturbs no other tick. |
| `EtSafety.CompleteSound` | installation/include/ejfat_assemble_ersap_et.hpp:397-433 | What is given back complete is genuine, and its tick is over. |
| `EtSafety.EvictSound` | installation/include/ejfat_assemble_ersap_et.hpp:447-494 | What is given back by eviction is genuine as far as it is flagged, and its tick is too old to come back. |
| `EtSafety.GivenBackIsGenuine` | installation/include/ejfat_assemble_ersap_et.hpp:212-494 | On every duplicate-free genuine stream whose packets are inside the window, each event flagged as having data, in an entry given back by completion or by eviction, holds exactly its source's buffer with its length; a completed entry has all of them; no entry is written after it went back. |
| `EtSafety.UnfetchedExactly` | installation/include/ejfat_assemble_ersap_et.hpp:170-222 | For every stream: event arrays that were not fetched are used if and only if the first packet from an expected source has tick 2^64-1. |
| `EtSafety.UndefinedExactly` | installation/include/ejfat_assemble_ersap_et.hpp:190-387 | On a genuine stream nothing else is undefined but a datagram shorter than its header; no write leaves an event. |
| `EtRuns.RunsHere` | installation/include/ejfat_assemble_ersap_et.hpp:360-397 | A packet completes a run that carries its source's buffer exactly if the longest run of its tick that ends with it does. |
| `EtCompletion.SelectExact` | installation/include/ejfat_assemble_ersap_et.hpp:212-353 | Whatever tick is found or opened, its counters are those of its current run and its flags tell of the runs before. |
| `EtCompletion.WriteExact` | installation/include/ejfat_assemble_ersap_et.hpp:360-412 | The packet leaves the flags and counters exact, and flags its event exactly if its own count reaches the length. |
| `EtCompletion.FlaggedExactly` | installation/include/ejfat_assemble_ersap_et.hpp:212-412 | In every reachable state an event of an open tick is flagged if and only if some run of packets of that tick, with nothing but packets from unknown sources between, carried the whole of its source's buffer. |
| `EtCompletion.EvictedExactly` | installation/include/ejfat_assemble_ersap_et.hpp:397-494 | After every packet, whatever came since: an event of an entry that was evicted is flagged if and only if its source has had such a run. |
| `EtCompletion.CompletedExactly` | installation/include/ejfat_assemble_ersap_et.hpp:360-433 | After every packet a tick has been given back complete if and only if every source has had such a run. |
| `EtCompletion.CompletedWhen` | installation/include/ejfat_assemble_ersap_et.hpp:397-433 | Ticks are given back one by one, each with the packet that completes the last of its runs. |
| `EtCompletion.NotYet` | installation/include/ejfat_assemble_ersap_et.hpp:397-433 | While a packet of a tick is still to come, the tick is not given back. |
| `EtStreams.LoopsOn` | installation/include/ejfat_assemble_ersap_et.hpp:360-387 | A genuine packet from an expected source ends the loop if and only if its buffer is longer than an event or nothing was fetched. |
| `EtStreams.StaleExactly` | installation/include/ejfat_assemble_ersap_et.hpp:212-412 | For every stream: a packet is written to an entry that was given back if and only if it has the tick of the last packet from an expected source, that tick is closed, and its bytes fit the event. |
| `EtStreams.LatePacketsGoStale` | installation/include/ejfat_assemble_ersap_et.hpp:212-494 | Two packets in a row of a tick that has left the window: the second is written to an entry that was given back. |
| `EtStreams.BurstCompletes` | installation/include/ejfat_assemble_ersap_et.hpp:360-433 | When all sources of a tick are carried whole without other ticks in between, whatever came before, the tick is given back with the last packet and not before, and no other tick meanwhile. |
| `EtStreams.SwitchingNeverCompletes` | installation/include/ejfat_assemble_ersap_et.hpp:223-237 | A stream of partial packets that changes ticks at every packet, genuine or not, never completes a tick and never flags an event. |
| `EtStreams.AllBytesNothingComplete` | installation/include/ejfat_assemble_ersap_et.hpp:223-237 | Two ticks whose packets come in turns, with events of two bytes or more: every byte arrives once and inside the window, the loop runs on, and neither is given back. |
| `EtLoop.CountsExactly` | installation/include/ejfat_assemble_ersap_et.hpp:196-412 | For every stream, as long as the loop runs: invalidPkts is the number of packets from sources not expected, biggestTick the biggest tick of the others, and the length of an event of the current tick the bytes written since the tick changed. |
| `EtLoop.LoopEndsExactly` | installation/include/ejfat_assemble_ersap_et.hpp:181-387 | For every stream, exactly which packets end the loop, and how: among them the 101st from a source not expected. |
| `EtLoop.TurnExactly` | installation/include/ejfat_assemble_ersap_et.hpp:212-494 | For every stream, genuine or not: what a packet does to its event, the open ticks and what goes back, from the bytes since the tick changed, the flags the tick had then and the four prescales of the window. |
| `EtLoop.TakenWhole` | installation/include/ejfat_assemble_ersap_et.hpp:181-194 | A datagram of at most 9100 bytes is taken whole, of a longer one the header and 9080 bytes of data. |
| `Supplier.SlotIsRemainder` | installation/include/Disruptor/RingBuffer.h:186-189 | The slot of a sequence is its remainder by the ring size. |
| `Supplier.PowersOf2` | installation/include/SupplierN.h:178-200 | The ring sizes that pass the test are exactly the powers of two. |
| `Supplier.SupplierN.constructor` | installation/include/SupplierN.h:178-236 | The state of a new supplier. |
| `Supplier.SupplierN.Make` | installation/include/SupplierN.h:178-200 | Exactly which sizes and consumer counts are refused. |
| `Supplier.SupplierN.BeginWait` | installation/include/Disruptor/SingleProducerSequencer.h:87-110 | When next(n) leaves its fast path, and that it then moves the cursor to everything claimed. |
| `Supplier.SupplierN.Get` | installation/include/SupplierN.h:329-341 | The n items claimed are labelled with their sequences and nothing else in the ring changes. |
| `Supplier.SupplierN.PublishItem` | installation/include/SupplierN.h:476-479 | The cursor becomes the sequence stored in the item. |
| `Supplier.SupplierN.ConsumerGet` | installation/include/SupplierN.h:377-399 | Which item and sequence a consumer is given, when it waits, and that an alert or a bad id changes nothing. |
| `Supplier.SupplierN.BeginRelease` | installation/include/SupplierN.h:408-431 | The sequence read from the item, and that one use of this consumer is given up. |
| `Supplier.SupplierN.CommitRelease` | installation/include/SupplierN.h:438-465 | The new counters after the block under the mutex. |
| `Supplier.GapsByCounting` | installation/include/SupplierN.h:458-463 | The largest minus the gate equals the number of released sequences exactly if there is no gap. |
| `Supplier.CommitRefines` | installation/include/SupplierN.h:438-465 | The three counters do what the set of released sequences would: the gate moves if and only if no gap is left, then to the largest, and the counters again describe what is pending. |
| `SupplierTheorems.PreparedEffect` | installation/include/SupplierN.h:329-341 | Claiming touches the claimed slots only, and there nothing that belongs to consumers. |
| `SupplierTheorems.ClaimedSlotsAreFree` | installation/include/SupplierN.h:302-341 | In every reachable state a slot the producer obtains is held by no consumer, is not on its way back, and was read by every consumer. |
| `SupplierTheorems.ReleaseReadsItsSequence` | installation/include/SupplierN.h:408-431 | In every reachable state the sequence in a held item is the one it was handed out under, so release reads the right one. |
| `SupplierTheorems.LockConsumer` | installation/include/SupplierN.h:438-465 | A commit keeps the consumer's invariant, never moves the gate back, and moves it only over sequences that have all been released. |
| `SupplierTheorems.StepKeeps` | installation/include/SupplierN.h:302-492 | Every step of producer, consumers and releasers that can happen keeps the invariant. |
| `SupplierTheorems.EveryReachableState` | installation/include/SupplierN.h:302-492 | The invariant holds in every state that some interleaving reaches, for every ring size and number of consumers. |
| `SupplierTheorems.GateNeverPasses` | installation/include/SupplierN.h:438-465 | In every reachable state a consumer's gate is below everything still out, and if something above the gate was released, then something below the largest released sequence is still out. |
| `SupplierTheorems.NoLostCapacity` | installation/include/SupplierN.h:408-467 | In every reachable state in which a consumer has released all it obtained, in any order, its gate is its last sequence and between is 0. |
| `SupplierTheorems.WaitsExactly` | installation/include/Disruptor/SingleProducerSequencer.h:87-115 | In every reachable state a next(n) has to wait, and so moves the cursor, if and only if it claims more than a ring beyond the minimum that ended the last wait. |
| `SupplierTheorems.WaitRemembers` | installation/include/Disruptor/SingleProducerSequencer.h:104-115 | The claim that ends a wait keeps the minimum it saw and leaves the cursor where it is. |
| `SupplierTheorems.ClaimsWithoutWait` | installation/include/Disruptor/SingleProducerSequencer.h:87-115 | Any number of further claims within a ring of that minimum follow one another without a wait and leave the cursor where it is. |
| `SupplierTheorems.LastUserReleases` | installation/include/SupplierN.h:408-436 | In every reachable state a held item knows how many of its users have not released it, and exactly the last release sends its sequence on its way to the lock. |
| `SupplierTheorems.HandedInSequence` | installation/include/SupplierN.h:377-399 | In every reachable state each consumer has been handed 0, 1, 2, ... without gap or repeat, never past what is claimed, and an alert loses no item. |
| `SupplierTheorems.BehindStep` | installation/include/Disruptor/SingleProducerSequencer.h:182-197 | A step keeps every consumer behind the cursor if and only if it is not a publish of a sequence below what some consumer knows of. |
| `SupplierTheorems.BehindExactly` | installation/include/SupplierN.h:377-479 | In every run consumers stay behind the cursor throughout if and only if every step is of that kind. |
| `SupplierTheorems.CacheAgrees` | installation/include/SupplierN.h:377-399 | While they do, a consumer can get an item, cached or not, if and only if waitFor would let it through, and nothing handed out is past the cursor. |
| `SupplierTheorems.CacheRunsAhead` | installation/include/SupplierN.h:377-399 | A consumer that knows of more than the cursor is handed an item past it by further gets. |
| `SupplierTheorems.BackwardStepHandsPast` | installation/include/Disruptor/SingleProducerSequencer.h:182-197 | After any step not of that kind some continuation hands an item past the cursor out. |
| `SupplierTheorems.HandedPastTheCursor` | installation/include/SupplierN.h:377-479 | A run with both items published, second one first: the cache gives an item that waitFor would block on, past the cursor. |
| `SupplierTheorems.PrivateStep` | installation/include/Disruptor/SingleProducerSequencer.h:87-197 | A step keeps unpublished items out of sight if and only if it is not a next(n) that has to wait while something is unpublished, nor a publish past something unpublished. |
| `SupplierTheorems.PrivateExactly` | installation/include/SupplierN.h:302-492 | In every run unpublished items stay out of sight throughout if and only if every step is of that kind. |
| `SupplierTheorems.UnguardedStepHandsOut` | installation/include/Disruptor/SingleProducerSequencer.h:87-197 | After any step not of that kind some continuation hands an unpublished item to any consumer one likes. |
| `SupplierTheorems.OnlyPublishedItems` | installation/include/SupplierN.h:377-399 | In a run of such steps no consumer is ever handed an item past the cursor, or one that is not published. |
| `SupplierTheorems.UnpublishedItemHandedOut` | installation/include/Disruptor/SingleProducerSequencer.h:100-110 | A run in which a consumer is handed an item that is not published. |
| `SupplierTheorems.OrderedReleaseAgrees` | installation/include/Supplier.h:394-449 | The lock-free path moves the gating sequence as the locked one does, at every release, if and only if items are released in order. |
| `TreeIterators.SameNodes` | installation/Linux-x86_64/include/BaseStructure.h:288-326 | Level order and pre-order have the same nodes, each as often. |
| `TreeIterators.LevelsByDepth` | installation/Linux-x86_64/include/BaseStructure.h:288-326 | Level order lists the nodes by depth, and within a depth as a descent from left to right finds them. |
| `TreeIterators.DepthStep` | installation/Linux-x86_64/include/BaseStructure.h:146-182 | A step of the stack visits the first node to come in pre-order and leaves the rest to come; no range becomes empty. |
| `TreeIterators.StepStack` | installation/Linux-x86_64/include/BaseStructure.h:155-178 | One step of the stack: the top range is dropped or moved on, and the children of its node go on top. |
| `TreeIterators.DepthIterator.constructor` | installation/Linux-x86_64/include/BaseStructure.h:73-79 | The node and what is pending are its pre-order. |
| `TreeIterators.DepthIterator.Increment` | installation/Linux-x86_64/include/BaseStructure.h:146-182 | The next node in pre-order, one fewer pending; the end exactly when none is left, and never left again. |
| `TreeIterators.WalkDepthFirst` | installation/Linux-x86_64/include/BaseStructure.h:73-182 | Iterating to the end terminates and visits exactly the pre-order of the tree. |
| `TreeIterators.BreadthStep` | installation/Linux-x86_64/include/BaseStructure.h:288-326 | A step of the queue takes the first node queued and queues its children last; no range becomes empty. |
| `TreeIterators.StepQueue` | installation/Linux-x86_64/include/BaseStructure.h:299-322 | One step of the queue: the front range is dropped or moved on, and the children of its node go last. |
| `TreeIterators.LevelStep` | installation/Linux-x86_64/include/BaseStructure.h:288-326 | The queue always flattens to the rest of the level followed by the children of the part behind; a step moves along the level or on to the next. |
| `TreeIterators.BreadthIterator.constructor` | installation/Linux-x86_64/include/BaseStructure.h:213-219 | The node and what is pending are its level order. |
| `TreeIterators.BreadthIterator.Increment` | installation/Linux-x86_64/include/BaseStructure.h:288-326 | The next node in level order, one fewer pending; the end exactly when none is left, and never left again. |
| `TreeIterators.WalkBreadthFirst` | installation/Linux-x86_64/include/BaseStructure.h:213-326 | Iterating to the end terminates and visits exactly the levels of the tree, one after the other. |

## Left out

- Sockets, MTU discovery, delays, debug output, files, and the setup in getBuffer and sendBuffer: I/O around the packet loops. Delay counters and the veryLastPacket flag have no effect on packets.
- Dropped and discarded statistics of the receivers and the packetCnts array of getBuffers: documented as estimates.
- A received packet of no data on the very first read: the source divides by its length, so the model ends in a crash there, and completion is claimed for buffers whose packets are not empty.
- Short writes of send (reported on stderr and otherwise ignored by the source): an accepted packet is a whole packet.
- Packetizer.SendFast: models memory that has 36 bytes in front of the buffer, so that a header written there can be seen.
- Contents.RightIfNoByteTwice: a buffer that is begun, given up and taken up again may be right with a byte twice, because what was stored before still counts; for that case RightExactly gives the condition.
- EtSafety.GivenBackIsGenuine: an empty packet counts as duplicated when another packet of its buffer exists, and ticks stay four prescales below 2^64, so that the eviction test does not wrap.
- EtCompletion.CompletedExactly: source ids are distinct, since with a repeated id only its last event is ever filled.
- ET calls: the fifo system is reduced to entries of events with a flag that et_fifo_newEntry clears; blocking and errors of ET are not modelled.
- SupplierTheorems.StepKeeps: waitFor and getMinimumSequence are guards of steps (a published value at least the one asked for; a minimum that no gate falls below), because other threads run on while they are computed; memory ordering is not modelled.
- SupplierTheorems.HandedInSequence: in all runs only what is claimed bounds what is handed out; that the cursor does is false of runs that publish backward, and BehindStep, BehindExactly and CacheAgrees say exactly when it holds.
- Items: decrementCounter and setUsers are declared without a body; the model follows their documentation, with one count of users for each consumer, set when the item is handed out.
- Supplier used without a consumer (get and release only), tryNext, getFillLevel, and sequences beyond 63 bits. Supplier with one consumer is SupplierN with one consumer.
- Iterator equality by address, the copy that post-increment returns, and the reference to a popped range that operator++ uses: the model advances by value. Nodes are values, so "each node once" counts equal subtrees by how often they occur.
- Version 1 senders, the gRPC variants, block headers, byte buffers and EVIO banks: no harder property than those above.
