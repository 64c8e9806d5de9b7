# Verification of the SeekWave Bluetooth vendor library

A Dafny model of the hard parts of the SeekWave Bluetooth vendor library (`skwbt`) and of the mask
translations of the Wi-Fi HAL (`wlan/wifi_hal`), with proofs. `dafny verify dfyconfig.toml` checks
all of it.

| module | what it models |
|---|---|
| `HciFraming`, `HciPackets` | packet types and lengths, and the packets of both directions written out from their fields |
| `Reassembly`, `Chunking`, `HeldBack` | the H4/HCI stream reassembler of the receive thread as functions on byte strings, a one-shot parser, how the two relate, and exactly what a read leaves waiting |
| `ReceivePort` | the same thread as it is written: an in-place buffer, overlapping copies, the log sink, the host socket written in pieces |
| `LockedStream` | any number of threads sharing one stream under a mutex, step by step (host writes, snoop file) |
| `SharedHost` | the readers of all ports with their closers, the lock and the host stream they share, as one small-step system |
| `CloseHandshake`, `ReaderRefinement`, `LeavingCauses`, `CloseOutcome` | closing a port against its reader thread, step by step; that this stepwise reader does what the reassembler does; why it leaves its loop; and how closing ends, told by the bytes read |
| `NvImage`, `NvRecords` | cutting an NV image into upload blocks: greedy packing of records (6316) and fixed blocks (6160), with address patches; 6316 files told by their tags and values |
| `ConfigMachine`, `ConfigRuns`, `ConfigCompletion`, `ConfigTranscript`, `ConfigWire` | the firmware configuration state machine, its runs, and what they put on the wire |
| `Transmit` | one host packet read in three parts and routed to a port |
| `Btsnoop` | the snoop recorder, a decoder for its files, and the agreement of the three length computations |
| `BitFacts`, `MaskTranslation`, `UsableChannels` | the lowest-set-bit loops of the Wi-Fi HAL and the channel copy loop |
| `Bytes` | byte strings and lists of them |

Methods that change state are specified by functions on values; the results are lemmas about those
functions. Reads, writes and polls are nondeterministic, so a result holds for every outcome of every
call. Lengths held in 16 bits wrap in the model where they wrap in the code.

## What the proofs show of the code

- A length field of 0xFFFB (ACL, ISO) or 0xFFFC (log) makes the 16-bit packet length wrap to zero. The
  parse loop then never ends (`HciFraming.ZeroCutExactly`), and closing the port waits for ever: the five
  bytes 02 00 00 FB FF are enough (`CloseOutcome.CloseCanWaitForEver`). Closing ends if and only if the
  bytes read do not make the reassembler spin (`CloseOutcome.CloseEndsByBytes`); well-formed packets
  never do (`CloseOutcome.WellFormedLetsCloseThrough`).
- A packet longer than the 2056-byte buffer leaves the buffer full and the reader asking for zero bytes
  (`Chunking.StallsExactly`).
- A junk run ends at any accepted type if that type comes first in the next read, but passes over ISO
  bytes within one read. For streams whose packets fit the buffer, and counting packets that wait whole in
  the buffer as delivered, the result is independent of how the stream is split into reads if and only if
  no ISO byte follows directly on junk (`Chunking.ChunkIndependenceExactly`). If one does, the bytes up to
  it and four zeros are a stream of which one split delivers a packet that another does not
  (`Chunking.SplitChangesDelivery`); an example is FF 05 00 00 00 00 (`Chunking.GarbageDropped`,
  `Chunking.GarbageDelivered`).
- An event without parameters at the end of a read waits for the next read, unless it was alone
  (`HeldBack.HeldBackExactly`), and whole packets behind junk wait for the next read too
  (`HeldBack.JunkThenAnything`).
- A 6316 image configures the controller exactly if it holds a record after its header and all its records
  are complete and have at most 249 value bytes (`ConfigCompletion.ConfiguresExactly`): without a
  record, or at a longer one, a callback transmits nothing and so no further callback comes.
- A missing NV file ends the configuration with a failure report, and the event buffer of that callback is
  not freed (`ConfigWire.FailureExactly`). A refused upload command is freed although the transmit callback
  was given it (`ConfigWire.GivesUpExactly`).
- The 6160 block number is one byte, and its patches are applied by block number. From byte 64519 on
  they are applied again. The image is sent as it is meant if and only if from there on each byte under
  the address is the address byte already, or the address invalid, and each byte under the bit has it
  set already (`NvImage.WrapPatchesAgain`).
- The snoop recorder does not wrap its length to 16 bits, the receive thread does
  (`Btsnoop.SnoopAgreesWithReassembler`).
- Bit 31 of a HAL mask cannot be isolated: the loops look up 0 instead (`BitFacts.TopBitIsLost`).

## Model

| member | source | states |
|---|---|---|
| `HciFraming.CutLength` | skwbt/src/scom_vendor.c:758-782 | The computed packet length is the length the header promises, modulo 2^16. |
| `HciFraming.HeaderIsPrefixStable` | skwbt/src/scom_vendor.c:755-783 | A complete header decides its packet's length: bytes that arrive later change neither it nor whether a packet is ready. |
| `HciFraming.ZeroCutExactly` | skwbt/src/scom_vendor.c:782-798 | The computed length is zero for exactly two values of the 16-bit length fields. |
| `HciPackets.WellFormedExactly` | skwbt/src/scom_vendor.c:755-782 | The reassembler takes for a packet exactly the events, ACL, SCO and ISO data packets and log frames, written out from their fields, of less than 65536 bytes. |
| `HciPackets.HostPacketExactly` | skwbt/src/scom_vendor.c:408-465 | The transmitter takes for a packet exactly the commands and ACL, SCO and ISO data packets, written out from their fields, of at most 4096 bytes. |
| `HciPackets.RecorderMeasures` | skwbt/src/skw_btsnoop.c:188-213 | The recorder measures every such packet, a log frame apart, at its whole length. |
| `HciPackets.HardwareErrorIsEvent` | skwbt/src/scom_vendor.c:635-646 | The report of a failed controller is the event with code 0x10 and the one parameter 0x10. |
| `Reassembly.FindValidType` | skwbt/src/scom_vendor.c:657-681 | The index returned is that of the first byte of type 2, 3, 4 or 7, or the length; ISO is passed over. |
| `Reassembly.DrainByPasses` | skwbt/src/scom_vendor.c:753-829 | The parse loop is its iterations one after the other; each one that is followed by another shortens the buffer, by at least three bytes unless a length wrapped. |
| `Reassembly.SegmentationConserves` | skwbt/src/scom_vendor.c:752-829 | Segments in order, then the buffer, spell exactly the bytes received. |
| `Reassembly.DrainSegments` | skwbt/src/scom_vendor.c:752-829 | One run of the parse loop cuts any buffer into exactly framed packets and junk runs that hold no byte that would end them; after a discard the buffer is empty or starts with a valid type. |
| `Reassembly.RunSegments` | skwbt/src/scom_vendor.c:713-840 | The same for every byte stream, garbage included, under every split into reads, and when the reader spins. |
| `Reassembly.ZeroHeaderSpins` | skwbt/src/scom_vendor.c:782-802 | A header at the front of the buffer whose computed length is zero makes the reader spin with the next bytes read, if it does not already. |
| `Reassembly.OneShotResumes` | skwbt/src/scom_vendor.c:755-829 | Parsing a stream at once is parsing a first part and going on from what it leaves. |
| `Reassembly.DrainKeepsMeaning` | skwbt/src/scom_vendor.c:752-829 | A run of the parse loop leaves unchanged what a one-shot parser makes of the bytes. |
| `Reassembly.RunRefinesOneShot` | skwbt/src/scom_vendor.c:713-840 | Under every split into reads, packets delivered and still to come are those of the one-shot parser, for every stream with no ISO byte directly after junk. |
| `Chunking.BytewiseIsOneShot` | skwbt/src/scom_vendor.c:713-840 | The one-shot parser is the reader itself when it reads one byte at a time, on every stream whose packets fit the buffer. |
| `Chunking.ChunkIndependenceExactly` | skwbt/src/scom_vendor.c:657-681 | For streams whose packets fit the buffer: packets delivered or whole in the buffer, and what is left besides, do not depend on the split into reads if and only if no ISO byte comes directly after junk. |
| `Chunking.DeliveredIsFirstPart` | skwbt/src/scom_vendor.c:752-829 | On a stream without ISO after junk, every split delivers a first part of the one-shot parser's packets and holds the others whole in the buffer. |
| `Chunking.SplitChangesDelivery` | skwbt/src/scom_vendor.c:816-826 | On every stream whose packets fit the buffer and that has ISO directly after junk, two splits of the bytes up to there and four zeros deliver different packets. |
| `Chunking.GarbageDropped` | skwbt/src/scom_vendor.c:816-826 | Read as FF 05 and 00 00 00 00, this stream delivers nothing. |
| `Chunking.GarbageDelivered` | skwbt/src/scom_vendor.c:816-826 | Read as FF and 05 00 00 00 00, the same stream delivers an ISO packet. |
| `Chunking.SegmentsAreFrames` | skwbt/src/scom_vendor.c:752-829 | On well-formed streams every segmentation is the stream's own packets, in order. |
| `Chunking.WellFormedRun` | skwbt/src/scom_vendor.c:752-829 | On well-formed streams, under every split, all whole packets are delivered except at most one trailing event without parameters, and the rest of the bytes are in the buffer. |
| `HeldBack.PacketThenFew` | skwbt/src/scom_vendor.c:783-802 | A packet with under four bytes behind it is cut off and those bytes stay, whatever they are. |
| `HeldBack.PacketThenMore` | skwbt/src/scom_vendor.c:783-802 | With four bytes or more behind it, the loop goes on with those. |
| `HeldBack.IncompleteStays` | skwbt/src/scom_vendor.c:805-814 | The start of a packet stays. |
| `HeldBack.JunkThenAnything` | skwbt/src/scom_vendor.c:816-828 | Junk at the front, up to a byte 2, 3, 4 or 7, is dropped and nothing else is done: even whole packets behind it stay. |
| `HeldBack.HeldBackExactly` | skwbt/src/scom_vendor.c:795-802 | On a stream of whole packets, under every split, something stays in the buffer exactly if the last packet is an event without parameters and the last read was not parsed as that event alone; and what stays is that event. |
| `HeldBack.JunkStaysBehind` | skwbt/src/scom_vendor.c:795-826 | 04 0E 00 FF and then 05 00 00 00 00: the event alone is delivered. |
| `HeldBack.SecondEventWaits` | skwbt/src/scom_vendor.c:795-802 | 04 0E 00 04 13 00 in one read: the first event is delivered and the second waits. |
| `Chunking.ReadAlwaysHasRoom` | skwbt/src/scom_vendor.c:728 | If packets are at most 2056 bytes, no read asks for zero bytes. |
| `Chunking.StallsExactly` | skwbt/src/scom_vendor.c:728-829 | The parse loop leaves a full buffer full exactly if the first packet's computed length exceeds the buffer or is zero. |
| `ReceivePort.CopyToFront` | skwbt/src/scom_vendor.c:796 | The forward byte copy moves the bytes behind a packet to the front although source and destination overlap, and changes nothing else. |
| `ReceivePort.FindValidTypeIn` | skwbt/src/scom_vendor.c:668-681 | The loop finds the first byte that can start a packet again. |
| `ReceivePort.PortReader.SendToHost` | skwbt/src/scom_vendor.c:593-622 | Under partial, empty and failing writes the host gets a first part of the data, all of it unless port 0 was stopped; nothing if it was stopped before. |
| `ReceivePort.PortReader.SendPacket` | skwbt/src/scom_vendor.c:593-622 | If everything owed so far went out (or port 0 is stopped), the same holds after one more packet. |
| `ReceivePort.PortReader.SendHwError` | skwbt/src/scom_vendor.c:635-646 | Exactly one four-byte Hardware Error event is added to what the host is owed. |
| `ReceivePort.PortReader.CutPacket` | skwbt/src/scom_vendor.c:784-796 | The packet at the front goes to the log if it is a log frame and to the host otherwise, and the bytes behind it move to the front. |
| `ReceivePort.PortReader.DropJunk` | skwbt/src/scom_vendor.c:816-826 | Bytes up to the next valid type are thrown away and what follows moves to the front. |
| `ReceivePort.PortReader.ParsePass` | skwbt/src/scom_vendor.c:753-829 | One iteration in place does what one pass does to a byte string. |
| `ReceivePort.PortReader.ParseBuffer` | skwbt/src/scom_vendor.c:752-829 | The in-place loop is the parse function: same packets, same rest at the front of the buffer, each packet in its sink. |
| `ReceivePort.PortReader.TakeChunk` | skwbt/src/scom_vendor.c:748-829 | After a read the reader's state is what the bytes received, in their chunks, make of a fresh reader. |
| `ReceivePort.PortReader.ReadOnce` | skwbt/src/scom_vendor.c:725-831 | The cases of a read: data is parsed; nothing read goes on while running; an error ends the thread, and on port 0 is reported by one Hardware Error event unless the thread was to stop. |
| `ReceivePort.PortReader.Turn` | skwbt/src/scom_vendor.c:713-840 | One turn of the loop: data that a poll reports is read before a hang-up counts and is left only for a stop; the turn is the last only for a stop, a failed read, a hang-up with nothing to read, or a zero length. |
| `ReceivePort.PortReader.RecvThread` | skwbt/src/scom_vendor.c:693-848 | Whatever poll, read and write return: the log holds the log frames in order, the host stream the other packets in order and at most one Hardware Error event after them, cut short only by a stop of port 0; the thread ends only for a stop, a failed read or a hang-up with nothing to read, and then not busy, or spins. |
| `ReceivePort.PortReader.RecvWellFormed` | skwbt/src/scom_vendor.c:693-848 | End to end, over a controller that sends well-formed packets: for some n the log is the log packets of the first n, the host stream their other packets, then the Hardware Error event exactly if a read failed on port 0 while it was to run; all that was received whole but at most one event without parameters is among the n. |
| `ReceivePort.CutAnywhere` | skwbt/src/scom_vendor.c:752-829 | Any first part of a well-formed stream is whole packets and the start of one. |
| `ReceivePort.EndToEnd` | skwbt/src/scom_vendor.c:693-848 | For a well-formed controller stream, in any chunks: host bytes are the non-log packets, the log is the log packets, of all packets received whole but at most one event without parameters. |
| `SharedHost.SelectedByType` | skwbt/src/scom_vendor.c:785-794 | The log's packets are those of type 7, the host's the others, and together they are all. |
| `LockedStream.StepKeeps` | skwbt/src/scom_vendor.c:600-619 | Every step of every writer keeps the invariant of the shared stream: lock owner, history of holdings, at most one cut short, per-writer order. |
| `LockedStream.EveryRunIsPacketAtomic` | skwbt/src/scom_vendor.c:593-622 | For any number of readers and any interleaving, the host stream is a merge of whole packets, each some reader's and each reader's in its own order, and then at most the first part of one; while the flag is set that one is the lock holder's, and what is not in the stream is in hand or still to come: nothing is lost. |
| `LockedStream.FinishedIsComplete` | skwbt/src/scom_vendor.c:593-622 | When all readers have finished and none was stopped, the stream is all their packets, whole, each reader's in order. |
| `LockedStream.NothingAfterStop` | skwbt/src/scom_vendor.c:600-618 | Once the flag is cleared, whatever follows adds at most a first part of the one packet whose writer was already past the check. |
| `SharedHost.PortsShareHost` | skwbt/src/scom_vendor.c:593-848 | Any number of ports, each with its own controller, reads, reader and closer, in any interleaving: the host stream is a merge of whole packets and at most the first part of one; each port's packets are the first ones its own reassembler owes for the bytes it has read, in order; and while port 0 is not stopped, none brought to the lock is missing but the one a port waits or writes with. |
| `SharedHost.AllDelivered` | skwbt/src/scom_vendor.c:593-848 | When port 0 was not stopped and all readers are at the top of their loops, the host stream is exactly all packets their reassemblers owe, whole and in each port's order. |
| `SharedHost.TurnKeepsOk` | skwbt/src/scom_vendor.c:593-848 | Every step of every reader and closer keeps this: readers and lock agree, and each port brings what its reassembler owes. |
| `SharedHost.WellFormedOwed` | skwbt/src/scom_vendor.c:693-848 | What a port with a well-formed controller owes are the first non-log packets of that controller, and a Hardware Error event at most behind them. |
| `CloseHandshake.StepLowersRank` | skwbt/src/scom_vendor.c:713-847 | With both running flags clear every reader step lowers a rank, except an iteration on a zero length. |
| `CloseHandshake.ReaderStepsAreBounded` | skwbt/src/scom_vendor.c:713-847 | So in every run, with any steps of other threads in between, the reader takes at most that many more steps. |
| `CloseHandshake.ReaderCanStep` | skwbt/src/scom_vendor.c:713-847 | A reader that is not done can always step, unless another thread holds the host lock it waits for. |
| `CloseHandshake.NothingPastJoin` | skwbt/src/scom_vendor.c:1057-1090 | Past the join the reader is gone and not busy, and no later step reads, writes or logs on its behalf. |
| `CloseHandshake.SpinningIsForEver` | skwbt/src/scom_vendor.c:783-802 | A reader that spins on a zero length stays busy in every continuation. |
| `CloseHandshake.CloseEndsExactly` | skwbt/src/scom_vendor.c:1057-1090 | With the flags cleared, under every schedule that gives the reader a bounded number of turns, the bound depending on its control state alone, the reader has left and cleared is_busying, or else it spins on a zero length and stays busy for ever. |
| `CloseHandshake.CloserGetsThrough` | skwbt/src/scom_vendor.c:1060-1090 | With the reader gone the busy wait and the join are passed. |
| `CloseHandshake.WaitEndsIdle` | skwbt/src/scom_vendor.c:1057-1063 | The closer leaves its wait only when the reader is not busy, with no packet being cut, sent or logged, the running flag clear and the driver marked down. |
| `LeavingCauses.EveryLeavingHasCause` | skwbt/src/scom_vendor.c:713-847 | In every run: while its flag is set a reader is out of its loop only for a failed read or a hang-up; a failed read is reported on port 0 only, and there always; and no reader goes on after one. |
| `LeavingCauses.NothingAfterSignal` | skwbt/src/scom_vendor.c:720-724 | After a stop, a reader that sees the exit signal reads, sends and logs nothing more, even if the same poll showed data. |
| `CloseHandshake.OffersCanBeMade` | skwbt/src/scom_vendor.c:713-847 | Such schedules exist: unless another thread holds the host lock, the reader can be given any number of turns. |
| `CloseOutcome.CloseEndsByBytes` | skwbt/src/scom_vendor.c:1057-1090 | From every reachable state with the flags cleared, under every such schedule, the reader has left and cleared is_busying if and only if the bytes it read do not make the reassembler spin. |
| `CloseOutcome.WellFormedLetsCloseThrough` | skwbt/src/scom_vendor.c:1043-1100 | If the controller sends well-formed packets, the reader always leaves and the closer passes its busy wait and the join. |
| `CloseOutcome.CloseCanWaitForEver` | skwbt/src/scom_vendor.c:782-802 | A run that reads 02 00 00 FB FF and is busy in every continuation. |
| `ReaderRefinement.StepRefines` | skwbt/src/scom_vendor.c:713-847 | Every step of any thread keeps: written and still to write is what the reassembler owes the host (or port 0 was stopped), the same of the log, and the buffer is the reassembler's. |
| `ReaderRefinement.ReaderRefinesReassembler` | skwbt/src/scom_vendor.c:693-848 | At every point of every interleaved run of reader, closer and other threads, log and host writes are first parts of what the reassembler makes of the bytes read, with at most one Hardware Error event at the end; at the top of the loop nothing is outstanding. |
| `NvImage.AddrGet` | skwbt/src/skw_gen_addr.c:160-168 | Three bytes are replaced if the address is valid, nothing otherwise. |
| `NvImage.StageValue` | skwbt/src/scom_vendor.c:1272-1286 | A value is staged behind its header, an address patched; a patch past a short value never counts as part of the block. |
| `NvImage.PackNext` | skwbt/src/scom_vendor.c:1254-1286 | One iteration: end of file, record left for the next block with the cursor put back, record cut off, or record taken. |
| `NvImage.PackBlock` | skwbt/src/scom_vendor.c:1243-1287 | The in-place loop computes the packed block, never over 252 bytes, and leaves the cursor where packing ended. |
| `NvImage.PackTakesRecords` | skwbt/src/scom_vendor.c:1252-1287 | A block is whole records only, as many as fit, and the records not taken stay in the file. |
| `NvImage.PackIsFair` | skwbt/src/scom_vendor.c:1252-1287 | End of file is reported only after complete, fitting records; otherwise packing neither skips nor creates one that cannot be uploaded. |
| `NvImage.BlocksAreGreedyGroups` | skwbt/src/scom_vendor.c:1243-1308 | The blocks of a whole upload are the records in greedy groups: none split, lost or reordered. |
| `NvImage.Upload6316PreservesImage` | skwbt/src/scom_vendor.c:1243-1308 | The blocks end to end spell the file behind its header, with value bytes 3 to 5 of address records replaced, and less a fragment of under three bytes. |
| `NvRecords.RecordsOfImage` | skwbt/src/scom_vendor.c:1254-1286 | A file made of a front, records of tag, byte, length and value, and under three bytes more is found to hold exactly these records, and can be uploaded. |
| `NvRecords.UploadableExactly` | skwbt/src/scom_vendor.c:1254-1286 | Exactly those files can be uploaded. |
| `NvRecords.UploadSendsRecords` | skwbt/src/scom_vendor.c:1231-1308 | For a file of four header bytes, records and under three bytes more, the blocks of at most 252 bytes end to end are the records, with value bytes 3 to 5 of tag 1 replaced by the address if it is valid. |
| `NvRecords.BrokenRecord` | skwbt/src/scom_vendor.c:1272-1280 | A record whose value is cut off by the end of the file: its three header bytes are packed and the upload breaks off. |
| `NvRecords.OversizedRecord` | skwbt/src/scom_vendor.c:1266-1270 | A record with more than 249 value bytes: nothing is packed and the cursor is put back before it. |
| `NvImage.GreedySuffix` | skwbt/src/scom_vendor.c:1252-1287 | Leaving out records at the front never needs more blocks. |
| `NvImage.GreedyIsMinimal` | skwbt/src/scom_vendor.c:1252-1287 | Any order-keeping partition of the records into blocks of at most 252 bytes has at least as many blocks. |
| `NvImage.Upload6316IsMinimal` | skwbt/src/scom_vendor.c:1243-1308 | So the upload uses the fewest blocks possible. |
| `NvImage.ReadBlock6160` | skwbt/src/scom_vendor.c:1311-1325 | A fixed block: up to 252 bytes of the file, the first block's address bytes and the second one's bit patched as far as the block has them. |
| `NvImage.Upload6160PreservesImage` | skwbt/src/scom_vendor.c:1309-1344 | For every file of n bytes there are n / 252 + 1 blocks, which spell the file with its patches; up to 64519 bytes these are bytes 7 to 9 and the top bit of byte 314. |
| `NvImage.WrapPatchesAgain` | skwbt/src/scom_vendor.c:1316-1331 | For every file: the image is sent as meant if and only if no patch changes a byte from 64519 on, that is, the address is invalid or there already and the bit is set already wherever a block number recurs. |
| `NvImage.FirstHarm` | skwbt/src/scom_vendor.c:1316-1331 | Byte 64519 of a longer file is sent as meant exactly if the address is invalid or its first byte is there already. |
| `ConfigMachine.Configurator.Start` | skwbt/src/scom_vendor.c:1390-1426 | Start resets the machine and sends a reset if it gets a buffer. |
| `ConfigMachine.Configurator.GiveUp` | skwbt/src/scom_vendor.c:1133-1140 | Giving up makes the machine idle, frees the buffer and closes the file. |
| `ConfigMachine.Configurator.UploadRecords` | skwbt/src/scom_vendor.c:1243-1308 | One 6316 upload step: block packed, numbered, sent; refusal and truncation give up; end of file moves on. |
| `ConfigMachine.Configurator.UploadFixedBlock` | skwbt/src/scom_vendor.c:1309-1344 | One 6160 upload step, with the same outcomes. |
| `ConfigMachine.Configurator.GotVersion` | skwbt/src/scom_vendor.c:1196-1236 | The version selects file and mode; a missing file reports failure and returns early; otherwise the first block goes out at once. |
| `ConfigMachine.Configurator.WriteAddress` | skwbt/src/scom_vendor.c:1347-1360 | An address from the AP is written first; without one success is reported at once. |
| `ConfigMachine.Configurator.OnCommandComplete` | skwbt/src/scom_vendor.c:1151-1379 | The callback as a whole is the transition function the run results are about. |
| `ConfigRuns.Upload6316KeepsInv` | skwbt/src/scom_vendor.c:1243-1308 | An upload step keeps "sent so far and still to come make up the image", or gives up. |
| `ConfigRuns.Upload6160KeepsInv` | skwbt/src/scom_vendor.c:1309-1344 | The same of fixed blocks. |
| `ConfigRuns.CallbackKeepsInv` | skwbt/src/scom_vendor.c:1151-1379 | Every callback, with any event and any answers, keeps the machine's invariant. |
| `ConfigRuns.SuccessMeansWholeImage` | skwbt/src/scom_vendor.c:1151-1426 | After any start, whatever the machine did before, at most one result is reported; success only after every command of the image was sent since that start, in order and not refused, the image being a file found for the chip that a callback's event named; and never for an image with a truncated or oversized record. What the commands carry is stated by `ConfigWire.SuccessOnWire`. |
| `ConfigRuns.CallbackSourced` | skwbt/src/scom_vendor.c:1151-1379 | Every callback keeps: the image in use, or reported as sent, is one found for the chip an event named. |
| `ConfigRuns.RunSinceStart` | skwbt/src/scom_vendor.c:1390-1426 | A start forgets what came before: the run after it is that of a new machine. |
| `ConfigRuns.InitIsAbsorbing` | skwbt/src/scom_vendor.c:1183-1368 | In the initial state nothing more is transmitted, freed for commands or reported until the next start. |
| `ConfigRuns.OneCommandPerCallback` | skwbt/src/scom_vendor.c:1151-1379 | A callback transmits at most one command or reports one result, not both, and forgets none. |
| `ConfigTranscript.SuccessTranscript` | skwbt/src/scom_vendor.c:1151-1426 | In every run that ends in success, the commands since the start are exactly reset, version request, the commands of an image found for the chip an event named, and a command writing an address some callback was given, or none if some callback was given none, in this order. |
| `ConfigTranscript.GoodRunTranscript` | skwbt/src/scom_vendor.c:1151-1426 | If image, version and address are the same throughout, the commands of a successful run are determined. |
| `ConfigWire.NumberedOnWire` | skwbt/src/scom_vendor.c:1289-1295 | Upload command k is 80 FC, the length behind it, k modulo 256, the block length, and the block. |
| `ConfigWire.SuccessOnWire` | skwbt/src/scom_vendor.c:1151-1426 | In every run that ends in success, the bytes on the wire since the start are 03 0C 00, 01 10 00, numbered upload commands that carry the whole image found for the chip an event named (for 6316 its records, for 6160 its bytes, patched), and 82 FC 06 with an address that was given, if one was. |
| `ConfigWire.RunCommands` | skwbt/src/scom_vendor.c:1151-1426 | In every run, everything transmitted is a command packet with its own opcode and length. |
| `ConfigWire.ErrorsAreIgnored` | skwbt/src/scom_vendor.c:1162-1174 | A callback with an error event, or without a buffer, changes nothing but that its event is freed: every run goes as if it had not come. |
| `ConfigWire.FailureExactly` | skwbt/src/scom_vendor.c:1221-1228 | Failure is reported by exactly the callbacks that wait for the version and find no file for the chip named; they alone do not free their event. |
| `ConfigWire.StartNeedsBuffer` | skwbt/src/scom_vendor.c:1390-1426 | A start without a buffer sends nothing, nor does any callback after it. |
| `ConfigWire.GivesUpExactly` | skwbt/src/scom_vendor.c:1133-1140 | An upload gives up exactly if its command is refused or its file breaks off inside a record; what becomes of the command buffer then. |
| `ConfigCompletion.SuccessAccountsForBuffers` | skwbt/src/scom_vendor.c:1133-1376 | In every run ending in success with callbacks only in answer to accepted commands, each command buffer allocated since the start was transmitted or freed exactly once and each event buffer freed exactly once. |
| `ConfigCompletion.ConfiguresExactly` | skwbt/src/scom_vendor.c:1196-1367 | With everything accepted and answered, some number of callbacks ends in success if and only if the 6316 image has a record and all its records are complete and fit. |
| `ConfigCompletion.GoodImageSucceeds` | skwbt/src/scom_vendor.c:1196-1367 | For such an image the number of callbacks, one per block and two or three more; and the upload commands are those of this image. |
| `ConfigCompletion.SuccessSendsFile` | skwbt/src/scom_vendor.c:1196-1367 | Whenever a run with one file offered throughout succeeds, the upload commands are those of that file. |
| `ConfigCompletion.Configures6160` | skwbt/src/scom_vendor.c:1309-1367 | Every 6160 image configures the controller after n / 252 + 3 or 4 callbacks, and the upload commands are those of this image. |
| `Transmit.RoutingPartitions` | skwbt/src/scom_vendor.c:481-502 | Every packet goes to exactly one port, as often as it occurs, and to port 0 when the transport is not SDIO. |
| `Transmit.PortOf` | skwbt/src/scom_vendor.c:481-502 | With SDIO, port 1 is for type 2, port 2 for type 3, port 3 for type 5 and port 0 for the rest; without, all are for port 0. |
| `Transmit.HostPacketUnique` | skwbt/src/scom_vendor.c:408-465 | A stream starts with at most one host packet. |
| `Transmit.Sender.ReadPart` | skwbt/src/scom_vendor.c:424-435 | A part read in any pieces is the next bytes of the stream, behind what is already there; bytes read past it are lost to the next packet. |
| `Transmit.Sender.TakePacket` | skwbt/src/scom_vendor.c:395-466 | What is taken is the packet at the front of the stream, or, if its header was read too far, its header and the bytes behind those lost; a call that takes none found no type byte, had a failing read, a foreign type or an overlong packet. |
| `Transmit.Sender.WritePort` | skwbt/src/scom_vendor.c:510-528 | The port gets a first part of the packet, all of it unless a write of this packet fails or its driver is down, nothing if that was down before; other ports get nothing. |
| `Transmit.Sender.RecvRawdata` | skwbt/src/scom_vendor.c:378-531 | Whatever reads and writes return: the bytes taken go to the port of their type and nothing goes to another; they are the next packet unless its header was read too far, and all of it goes out unless a write of this call fails or the port's driver is down. A call that finds no type byte takes nothing. |
| `Transmit.FrontPacket` | skwbt/src/scom_vendor.c:395-466 | What stands at the front of a stream of packets is taken for exactly its first packet. |
| `Transmit.Sender.Serve` | skwbt/src/scom_vendor.c:378-558 | Over a host that sends the packets fs, any number of calls, those that find no type byte included: the packets taken are the first n of fs, one to each other call; each port carries its own of them, in order and whole, with nothing between or behind; a packet is short only for a failed write of that packet or a driver down, after which its port gets no more; with SDIO what is carried on ports 0 to 3 starts with 1, 2, 3 and 5; calls end early only for a read that failed inside a packet or took more bytes than were missing. |
| `Transmit.TransmitExactly` | skwbt/src/scom_vendor.c:378-531 | Framing survives routing: the bytes on a port can be taken apart into packets in one way only, and together the ports have exactly the packets of the host; with SDIO those on ports 0 to 3 start with 1, 2, 3 and 5. |
| `Btsnoop.DecodeEncode` | skwbt/src/skw_btsnoop.c:219-236 | A record decodes to itself, whatever follows, all six fields of it: original and included length are the data's, drops are zero. |
| `Btsnoop.DecodePartial` | skwbt/src/skw_btsnoop.c:229-236 | The first part of a record is not taken for a record. |
| `Btsnoop.DecodeRecords` | skwbt/src/skw_btsnoop.c:175-247 | Records one after the other, and part of one more, decode to exactly those records. |
| `Btsnoop.Timestamp` | skwbt/src/skw_btsnoop.c:30-37 | Seconds and microseconds since the origin of the format, 719540 days before the Unix epoch, can be read off the value as long as it fits 64 bits. |
| `Btsnoop.RecordTellsPacket` | skwbt/src/skw_btsnoop.c:188-213 | Flags tell commands, events and the direction of data apart; data and time are the packet's. |
| `Btsnoop.SnoopTakesHostPacket` | skwbt/src/skw_btsnoop.c:188-213 | The recorder's length of a packet from the host is the transmitter's. |
| `Btsnoop.SnoopAgreesWithReassembler` | skwbt/src/skw_btsnoop.c:188-213 | The recorder's length of a packet from the controller is the reassembler's exactly if that one did not wrap. |
| `Btsnoop.Recorder.constructor` | skwbt/src/skw_btsnoop.c:143 | A fresh file holds the 16-byte header. |
| `Btsnoop.Recorder.Capture` | skwbt/src/skw_btsnoop.c:175-247 | A capture appends exactly the packet's record, or nothing when disabled, closed or of an unknown type; the file is closed exactly when a gigabyte is reached. |
| `Btsnoop.SnoopRoundTrip` | skwbt/src/skw_btsnoop.c:175-247 | For any number of callers and any interleaving under the lock, decoding the file gives exactly the records completed: each some caller's, each caller's in its own order, and all those of a caller that is finished. |
| `BitFacts.TopBitIsLost` | wlan/wifi_hal/main.cpp:1568 | The isolation expression gives 0 for bit 31 alone. |
| `MaskTranslation.LookupFinds` | wlan/wifi_hal/main.cpp:1623-1643 | A switch gives what stands behind the one case of a bit. |
| `MaskTranslation.MeantSplits` | wlan/wifi_hal/main.cpp:1566-1573 | What a mask stands for is what the isolated bit and the rest stand for. |
| `MaskTranslation.TranslateMask` | wlan/wifi_hal/main.cpp:1561-1576 | The loop ends and its result has exactly the images of the mapped bits that are set. |
| `MaskTranslation.TranslationIsUnique` | wlan/wifi_hal/main.cpp:1561-1576 | That determines the result. |
| `MaskTranslation.TranslationOfUnion` | wlan/wifi_hal/main.cpp:1561-1576 | The translation of a union is the union of the translations. |
| `MaskTranslation.TopBitMeansNothing` | wlan/wifi_hal/main.cpp:1568 | Bit 31 of a mask has no effect. |
| `UsableChannels.ToSkwBandMask` | wlan/wifi_hal/main.cpp:1532-1576 | Bits 0 to 3 are set exactly for the bands of 2.4, 5, 6 and 60 GHz, and no other bit. |
| `UsableChannels.ToHalIfaceMask` | wlan/wifi_hal/main.cpp:1578-1620 | The HAL's station, access point and P2P bits are set exactly for driver bits 1, 2, and 3 or 4. |
| `UsableChannels.ToSkwIfaceMask` | wlan/wifi_hal/main.cpp:1622-1662 | Driver bits 1, 2 and 3 are set exactly for the HAL's station, access point and P2P bits. |
| `UsableChannels.ToHalBandWidth` | wlan/wifi_hal/main.cpp:1499-1530 | Widths 0 to 4 of the driver are 20, 40, 80, 80+80 and 160 MHz, each exactly. |
| `UsableChannels.ThereAndBack` | wlan/wifi_hal/main.cpp:1578-1662 | To the driver and back is the mask restricted to station, access point and P2P. |
| `UsableChannels.BackAndThereBit` | wlan/wifi_hal/main.cpp:1578-1662 | From the driver and back keeps station and access point; a group owner becomes a group client; nothing else stays. |
| `UsableChannels.SecondTripIsIdle` | wlan/wifi_hal/main.cpp:1578-1662 | A second trip changes nothing. |
| `UsableChannels.AnswerStaysInside` | wlan/wifi_hal/main.cpp:1767-1788 | A driver mask within the one asked for translates back within the caller's. |
| `UsableChannels.CopyChannels` | wlan/wifi_hal/main.cpp:1774-1789 | The caller gets as many channels as fit, each translated, and no other entry changes. |

## Left out

- Transmit.Sender.Serve: after a read that loses the framing the thread goes on; what it then sends is not followed. Polling and the write side of its event loop are not modelled.
- SharedHost.PortsShareHost: setting a running flag again is not a step of the system; log frames are followed port by port, not in one log.
- ReceivePort.PortReader.RecvThread: the snoop capture before a packet is sent is not a step of this method (the recorder is modelled by itself); for a packet whose length wrapped it would read past the packet. A running flag may be cleared at any time but is not set again while the thread runs. A write that is repeated without success for ever is not a run of the model.
- CloseHandshake.SpinningIsForEver: an iteration on a zero length is one step; the empty send and log calls inside it are not.
- CloseHandshake.CloserGetsThrough: sleeping, the ioctl calls, closing the descriptor and the second look at the thread id between the test and the join are not modelled; nor is a port that was never opened, which close skips.
- NvImage.StageValue: the staging buffer has room for the header that is copied before the fit test and for patches past a short value; the buffer of the library is smaller. What such bytes overwrite is not modelled, only that they are never sent.
- ConfigMachine.Configurator.OnCommandComplete: a file does not change while it is read; the callback table is registered and events are not null. A branch that gives up twice, or transmits after giving up, is modelled as the change of state and the record of calls it makes, not as memory.
- Transmit.Sender.RecvRawdata: bytes read beyond a part are not kept in the buffer, where later ones overwrite them or none are sent; a foreign type ends in `Aborted`, an overlong packet in `TooLong`, where the code aborts or runs past its buffer. The wake-up byte for the UART and the snoop capture are not part of the method.
- Btsnoop.Recorder.Capture: writes to the file are complete, and the file after rotation, file names and renaming are not modelled. The recorded bytes have to lie within the buffer.
- UsableChannels.ToSkwBandMask: the enum values of the HAL are not in the repository; they are taken as distinct single bits below bit 31.
- UsableChannels.CopyChannels: building, sending and parsing the netlink message; the driver's answer is an input.
- The retry of interrupted system calls, descriptors, UART and SDIO set-up, poll time-outs: only what a read, write or poll returns is modelled.
- Configuration-file parsing and the vendor operations in skwbt/src/bt_vendor_skw.c: string handling and dispatch.
- Log files in skwbt/src/skw_log.c: a log is a list of the frames given to it.
- Address generation and storage in skwbt/src/skw_gen_addr.c: address bytes and their validity are inputs.
- The other functions of the Wi-Fi HAL: stubs, or built on a netlink library that is not in the repository.
