# CAN bootloader: verified model

This project models a CAN bootloader (firmware in C, client in Python) in Dafny and proves what the two sides
guarantee together: datagrams survive framing and interleaving, a payload is executed exactly when it should be, no
sequence of faults and power cuts loses both configuration pages, an image that is flashed without reported errors is
in the memory of every board, and started by every board that took part in the final update without complaint or power loss;
and if nothing disturbs the flashing tool it does flash every board, whatever the boards' flash held before.

## Layout

| files | content |
|---|---|
| `Bytes`, `Crc32`, `Wrappers` | bytes and big-endian words; the CRC-32 of section 8 of RFC 1952, bit by bit and table-driven; `Option` |
| `Datagrams`, `Reassembly` | the client's encoder, decoder, framer, and its per-source reassembly |
| `CanDatagrams`, `DatagramBuffers` | the firmware's resumable reader and chunked writer: state functions, and the mutable object |
| `Node`, `NodeLoop`, `Replies` | the node's receive loop, and the sending of replies |
| `FifoRace`, `Fifo` | the interrupt-fed queue: interleaved loads and stores, and the operations one at a time |
| `Flash`, `ErasedCache`, `FlashWriter` | flash memory with sectors and NOR programming, the "already erased" flags, the writer in place |
| `MessagePack`, `Configuration`, `ConfigStore` | the formats; the configuration record, its map, its page; and the record updated in place |
| `Commands`, `ConfigPages`, `BoardRuns`, `Handlers` | the flash and configuration commands, saves under power loss, runs of commands; and the handlers in place |
| `Retry`, `Network`, `BusRuns` | the client's retry loop, a lossy bus with several boards, and what it can do to a board |
| `Rounds`, `FlashImage` | what a round of answers means and which requests the tool makes; the flashing tool |
| `Undisturbed`, `BoardFlashing`, `Fleet` | requests that nothing disturbs; what the tool's requests do to one board, and to all of them |
| `CommandWire`, `RoundTrip` | commands as datagram data; one request and its answers frame by frame, from encoder to board and back |
| `Slcan` | the serial adapter's text protocol, and datagrams over it |

Code that changes state is modelled twice: a function on values says what one step does, and a class or a method with the
source's loops and fields is proved equal to it. Properties of runs are lemmas about the functions. Hardware and bus behaviour
are parameters over which everything is quantified: the outcome of each erase and program operation (success, a reported
error with any residue in the targeted bytes, or power loss with any residue), the interleaving of memory accesses, the
frames, timeouts and replies that arrive. `dafny verify dfyconfig.toml` checks the whole project.

The board is the STM32F446: eight sectors, flash from 0x08000000 to 0x08080000, bootloader in sectors 0 and 1, one
configuration page at the start of sector 2 and one of sector 3, application from 0x08010000.

## Where the code differs from what its documentation says

The model follows the code.

- README.markdown says an invalid configuration page is replaced by the redundant one; the firmware only does that as part of a
  save, so two valid pages can differ (`ConfigPages.CutBetweenPages`), and then a torn save loads the stale one
  (`ConfigPages.StalePageLoaded`, `ConfigPages.OutdatedConfigReturns`).
- PROTOCOL.markdown says the checksum covers the whole datagram; it covers everything from the destination count on.
- bootloader.c calls a negative result an error code, but holds it in a `uint8_t`: error codes are never reported
  (`Node.ErrorCodeLost`), and replies of 256 bytes or more are cut (`Node.AnswerIsWhole`).
- The erase command announces failure only when its last attempt succeeded, and success when all of them failed
  (`BoardRuns.EraseReply`, `BoardRuns.FailureReportedAsSuccess`); it checks as many bytes as the class name is long
  (`BoardRuns.UncheckedByte`).
- A failed programming operation is acknowledged (`Network.FaultyWriteAcknowledged`).
- The flags that prevent needless erasing go stale when a write starts inside a sector and ends in a later one at or before
  the same offset, if that sector was flagged (`ErasedCache.WriteSoundExactly`); a board gets there in three commands
  (`BoardRuns.StaleFlagReached`).
- The tool erases at each page's first byte. If the last byte of the image lies in a sector after its page's first byte, that
  sector is never erased (`BoardFlashing.LastByteKept`); otherwise the whole image's place is (`BoardFlashing.ImagePlaceErased`).
- A write that starts inside the last sector is acknowledged but not programmed (`Network.AcknowledgedExactly`).
- The retry loop counts answers whoever sent them (`Retry.CompleteExactly`, `Retry.StrangerCompletes`), and
  `config_update_and_save` does not look at them: a board that complains instead of performing the update passes for updated
  (`Network.RequestCompletes`, `Network.ComplaintCompletes`).
- The commit string that is stored with the configuration is read back as a key; it may hide the name or the class, or make the
  read fail (`Configuration.StoredConfigOutcome`).

## Model

| member | source | states |
|---|---|---|
| `Bytes.ShiftInBigEndian` | can_datagram.c:40-47 | four shifted-in bytes of an encoded word give the word, whatever the register held |
| `Bytes.BigEndianShiftIn` | can_datagram.c:69-77 | and four arbitrary bytes are the encoding of what they shift in |
| `Crc32.UpdateConcat` | can_datagram.c:191-207 | continuing a checksum over a second piece gives the checksum of the concatenation, so chained and one-shot use agree |
| `Crc32.TableDriven` | can_datagram.c:191-207 | the table-driven update step of RFC 1952 enters exactly the eight bits of a byte |
| `Crc32.CheckValue` | can_datagram.c:191-207 | the checksum of the byte 0x7F is 0x12B88320, as with the polynomial 0xEDB88320 |
| `Crc32.BurstDetected` | client/can/datagram.py:36-41 | a change confined to four consecutive bytes changes the checksum |
| `Datagrams.DecodeEncode` | client/can/datagram.py:30-97 | decoding inverts encoding for every data and destination list that fit the length fields |
| `Datagrams.EncodedLayout` | client/can/datagram.py:30-41 | where version, checksum, counts, destinations and data stand in an encoding, byte by byte, most significant first |
| `Datagrams.DecodeStrictPrefix` | client/can/datagram.py:54-84 | no non-empty strict prefix of an encoding is decoded |
| `Datagrams.DecodeExactly` | client/can/datagram.py:43-97 | decoding succeeds on exactly the well-formed byte strings, with their fields; the announced length may be below the data present |
| `Datagrams.DamagedDataRejected` | client/can/datagram.py:76-90 | up to four consecutive changed data bytes are never decoded |
| `Datagrams.DatagramToFrames` | client/can/datagram.py:99-112 | the framing loop yields the specified frames |
| `Datagrams.FrameAt` | client/can/datagram.py:99-112 | frame k holds bytes 8k to 8k+8, only the first carries the start bit, only the last may be short |
| `Reassembly.ReadCanDatagrams` | client/cvra_bootloader/utils.py:104-149 | the generator loop computes the specified run, including the exception on an empty buffer |
| `Reassembly.RunIsLanes` | client/cvra_bootloader/utils.py:104-149 | in any interleaving each admitted source is reassembled as if alone, and others never surface |
| `Reassembly.Demultiplexing` | client/cvra_bootloader/utils.py:104-149 | for every interleaving of the senders' frames with timeouts and extended frames, from any buffers, each admitted source yields exactly what it sent, in order |
| `Reassembly.LaneOfStream` | client/cvra_bootloader/utils.py:131-146 | a single source's datagrams come out one by one whatever partial datagram preceded them |
| `Reassembly.SilencePerTimeout` | client/cvra_bootloader/utils.py:112-115 | `None` is handed out once per timeout and never else |
| `Reassembly.OnlyWellFormed` | client/cvra_bootloader/utils.py:139-149 | every datagram handed out was decoded from a well-formed buffer |
| `CanDatagrams.InputAllIsParse` | can_datagram.c:33-95 | byte-at-a-time reading after a restart agrees with a reference parser of all the bytes, including the extra byte consumed for zero lengths |
| `CanDatagrams.ReaderRestart` | can_datagram.c:33-117 | from any state, restart plus a wire image is complete exactly from its last byte on and then holds exactly its fields |
| `CanDatagrams.CompleteIsWire` | can_datagram.c:33-117 | a complete reader's bytes since the restart begin with the wire image of its fields |
| `CanDatagrams.DamagedReaderInvalid` | can_datagram.c:102-107 | a valid reader with up to four consecutive data bytes changed is not valid |
| `CanDatagrams.EmitIsNextByte` | can_datagram.c:119-189 | each writer step emits the byte of the encoding at its position, and none at the end |
| `CanDatagrams.OutputIsSlice` | can_datagram.c:119-189 | one call returns the next n bytes of the encoding, or what is left |
| `CanDatagrams.ChunkIndependence` | can_datagram.c:119-189 | for any buffer sizes the concatenated outputs are one stretch of the one encoding |
| `CanDatagrams.NothingAfterTheEnd` | can_datagram.c:152-163 | once all is written further calls return nothing |
| `DatagramBuffers.CanDatagram.InputByte` | can_datagram.c:33-95 | the in-place reader refines the reader function |
| `DatagramBuffers.CanDatagram.Start` | can_datagram.c:109-117 | restarting in place refines the restart function |
| `DatagramBuffers.CanDatagram.ComputeCrc` | can_datagram.c:191-207 | the chained updates give the encoder's checksum |
| `DatagramBuffers.CanDatagram.IsDatagramValid` | can_datagram.c:97-107 | validity is completeness, matching checksum and version |
| `DatagramBuffers.CanDatagram.OutputBytes` | can_datagram.c:119-189 | the filled buffer and the new writer state are those of the writer function |
| `Node.ForMeExactly` | bootloader.c:252-259 | a node with an identifier below 128 takes exactly the standard frames of its own and of source 0, the client |
| `Node.ClientHeard` | bootloader.c:252-259 | no frame the client makes of any datagram is passed over by any node |
| `Node.DatagramOutcome` | bootloader.c:247-349 | from any state, if the frames heard from the client and of the node's own source are a datagram's, they have no effect before the last, then exactly its response: complaint, execution, or nothing |
| `Node.ExactlyOnce` | bootloader.c:247-349 | if the frames on the bus from the client and of the node's own source are a datagram's, the node executes the payload once, on the last one, if and only if it is listed; the reader is left restarted |
| `Node.DamagedNotExecuted` | bootloader.c:300-342 | damaged data is never executed and is answered with one complaint |
| `Node.CutShort` | bootloader.c:258-349 | a datagram that stops after m bytes is complained about at once, and forgotten, exactly if its last frame is short; otherwise the node waits |
| `Node.TimeoutComplains` | bootloader.c:221-231 | one whose frames stop coming is complained about with code 6 when the timer runs out, and forgotten; without one the timer does nothing |
| `Node.JumpsExactly` | bootloader.c:217-219 | over every run, the node leaves for the application if and only if its time runs out before it has executed anything, and does nothing afterwards |
| `Node.EmptyReply` | bootloader.c:297-332 | a reply whose length is a multiple of 256, none included, becomes a complaint with code 0 |
| `Node.ExecutionSound` | bootloader.c:263-316 | in every run, an executed payload's encoding for a list with this node starts the bytes since the last restart |
| `Node.AnswerIsWhole` | bootloader.c:297-341 | a reply goes out whole exactly when its length is 1 to 255 |
| `Node.ErrorCodeLost` | bootloader.c:188-190 | a negated error code turns into stale output bytes |
| `NodeLoop.Bootloader.Iterate` | bootloader.c:217-349 | one iteration of the loop on the mutable state is one step of the run |
| `NodeLoop.Bootloader.Finish` | bootloader.c:299-348 | conclusion of a datagram in place |
| `Replies.ReturnDatagram` | bootloader.c:31-79 | the frames sent are the reply's frames up to the first failed transmission and at most one hundred |
| `Replies.WholeReplyFits` | bootloader.c:47-54 | the bound lets a whole reply through exactly when it has at most 789 bytes |
| `Replies.ReplyFramesAreFrames` | bootloader.c:67-77 | the node's framing equals the client's for identifiers below 128 |
| `Replies.ReplyReachesClient` | bootloader.c:31-79 | over a working link the client gets exactly the reply up to 789 bytes, and nothing beyond, from any buffer contents |
| `FifoRace.QueueSafety` | platform/mcu/stm32f4/can_interface.c:300-366 | for any capacity and any interleaving of single loads and stores: frames returned are a prefix of those accepted, untorn, at most n-1 pending, no unread slot overwritten |
| `FifoRace.AcceptedUnlessFull` | platform/mcu/stm32f4/can_fifo.c:11-20 | a frame is turned away exactly while n-1 complete frames wait |
| `FifoRace.MainProgress` | platform/mcu/stm32f4/can_interface.c:351-391 | with a complete frame waiting, seventeen accesses of the main loop, with any interrupts in between, return the oldest one and nothing else; fewer return nothing |
| `FifoRace.BacklogReturned` | platform/mcu/stm32f4/can_interface.c:351-391 | m complete frames are returned within m times as many |
| `FifoRace.HandlerProgress` | platform/mcu/stm32f4/can_interface.c:300-346 | with room, a frame is accepted at the handler's second access and complete at its fourteenth, whatever the main loop does in between |
| `FifoRace.IsrKeeps` | platform/mcu/stm32f4/can_interface.c:300-346 | every access of the handler keeps the invariant |
| `FifoRace.MainKeeps` | platform/mcu/stm32f4/can_interface.c:351-391 | every access of the main loop keeps the invariant |
| `Fifo.Queue.ReceiveToBuffer` | platform/mcu/stm32f4/can_interface.c:300-346 | the frame joins the end of the queue unless it is full |
| `Fifo.Queue.ReadMessage` | platform/mcu/stm32f4/can_interface.c:351-391 | the oldest frame is returned and removed |
| `Flash.SectorOfAddress` | platform/mcu/stm32f4/flash_writer.c:66-151 | the address arithmetic agrees with the sector table at every address |
| `ErasedCache.MarkVisits` | platform/mcu/stm32f4/flash_writer.c:221-235 | which sectors the marking loop reaches |
| `ErasedCache.MarkedExactly` | platform/mcu/stm32f4/flash_writer.c:221-235 | it marks every sector of the write if and only if the write starts on a boundary, stays in a sector, or ends further into its last sector than it started |
| `ErasedCache.MarkCompletes` | platform/mcu/stm32f4/flash_writer.c:222-235 | the loop runs to its end unless the write begins inside the last sector |
| `ErasedCache.FirstSectorUnflagged` | platform/mcu/stm32f4/flash_writer.c:214-240 | every write takes the flag of its first sector, and one that starts inside the last sector does nothing else |
| `ErasedCache.RunSound` | platform/mcu/stm32f4/flash_writer.c:166-255 | over every run of erases, writes, faults and restarts in which each write marks its sectors or its last one was not flagged, a flagged sector is all 0xFF |
| `ErasedCache.WriteSoundExactly` | platform/mcu/stm32f4/flash_writer.c:214-255 | from any state with sound flags, a write not ending in 0xFF keeps them sound if and only if the loop marks all its sectors or the last one was not flagged |
| `ErasedCache.StaleFlag` | platform/mcu/stm32f4/flash_writer.c:214-235 | a concrete write after which a flag lies and the next erase does nothing, whenever that sector is flagged |
| `FlashWriter.Writer.PageErase` | platform/mcu/stm32f4/flash_writer.c:166-211 | the erase in place refines the erase function |
| `FlashWriter.Writer.PageWrite` | platform/mcu/stm32f4/flash_writer.c:214-255 | the write in place, with its marking loop, refines the write function |
| `FlashWriter.Writer.PageIsErased` | platform/mcu/stm32f4/flash_writer.c:258-270 | the scan finds exactly whether all bytes are 0xFF |
| `MessagePack.GetPutStr` | config.c:61-83 | reading a written string returns it if it fits the buffer and fails otherwise |
| `MessagePack.GetAnyStr` | config.c:101-148 | a string is read whichever of its three headers it carries, cut at its first zero, if it fits the buffer |
| `Configuration.UpdateAppliesEntries` | config.c:101-148 | an update from a map of recognised entries changes exactly the fields they name |
| `Configuration.StoredConfigOutcome` | config.c:57-148 | what reading the stored map gives, by the commit string: the six fields; the name or the class replaced by the version key; or a failing read |
| `Configuration.StoredConfigRestored` | config.c:57-148 | the six fields are restored, whatever the record held, if and only if the commit string is short and no key, or is the key of a field that holds the version key already |
| `Configuration.PageIsLargeEnough` | config.c:40-84 | the map fits its page when the version strings take at most 254 bytes |
| `Configuration.PageRoundTrip` | config.c:40-98 | a written page is valid, and reads back as the configuration exactly if the commit string is harmless |
| `Configuration.DamagedPageInvalid` | config.c:9-37 | up to four consecutive changed bytes make a valid page invalid |
| `ConfigStore.BootloaderConfig.WritePage` | config.c:40-84 | the buffer filled in place, checksum patched last, is the page |
| `ConfigStore.BootloaderConfig.UpdateFromMessagePack` | config.c:101-148 | the parsing loop refines the update function |
| `ConfigPages.SaveKeepsOneValid` | command.c:258-300 | with a valid page before, one is valid after every save, completed or cut off anywhere |
| `ConfigPages.SavedPages` | command.c:282-300 | each page ends old, new or invalid, and the second is touched only after the first is valid |
| `ConfigPages.CrashAtomic` | command.c:268-300 | if the pages agree before a save, the next boot loads the old or the new one |
| `ConfigPages.CrashAtomicExactly` | command.c:268-300 | agreement before the save is necessary and sufficient |
| `ConfigPages.CutBetweenPages` | command.c:282-290 | power lost between the two pages leaves two valid pages that differ |
| `ConfigPages.StalePageLoaded` | command.c:285-290 | two different valid pages and a torn save load the stale page |
| `ConfigPages.OutdatedConfigReturns` | command.c:282-300 | from agreeing pages, two interrupted saves: the first one's configuration is loaded, then the one from before both |
| `ConfigPages.LoadedIsKnown` | bootloader.c:136-142 | over any number of interrupted saves the loaded page is one stored initially or submitted |
| `ConfigPages.LoadedConfigIsKnown` | bootloader.c:131-156 | so the configuration in use after a boot is, whatever the uninitialised record held, one of those with the compiled-in version strings, and the default exactly if no page is valid |
| `ConfigPages.SaveReply` | command.c:268-308 | whatever becomes of the operations, the reply is 0xC3 if both pages are valid afterwards and 0xC2 otherwise, and the update count goes up by one, wrapping around |
| `ConfigPages.HealthySave` | command.c:268-307 | on working hardware, if the two pages' sectors are erased where flagged, both pages hold the configuration, the reply says so, and the next boot reads it, restoring it exactly if the commit string is harmless |
| `BoardRuns.RegionIsolation` | command.c:55-119 | over every run of commands, faults, power cuts and restarts, no bootloader byte changes, and configuration bytes only in saves |
| `BoardRuns.NoBricking` | command.c:282-300 | once one page is valid, one is valid at every point of every such run |
| `BoardRuns.FlagsStaySound` | command.c:77-157 | over every run of commands, saves, faults, power cuts and restarts in which each write's last sector is accounted for, a flagged sector is erased |
| `BoardRuns.StaleFlagReached` | command.c:77-157 | from any restarted board, two erases and an accepted write on working hardware after which a flag lies, an erase succeeds without effect, and writes to that sector are refused |
| `BoardRuns.EraseGuards` | command.c:45-94 | an erase is answered 10, 11 or 12 exactly if the address lies before or after the application area or the class differs, and the board is then unchanged |
| `BoardRuns.WriteGuards` | command.c:97-159 | likewise 20, 21 and 22, 23 if there is no data and 24 if a target byte is not 0xFF; success exactly otherwise, and nothing changes without it |
| `BoardRuns.ForeignCommandsInert` | command.c:73-119 | over every run of commands for other device classes, with faults, power cuts and restarts, no byte changes except configuration bytes in saves |
| `BoardRuns.WorkingErase` | command.c:67-93 | on working hardware an erase erases the sector unless it is flagged, and succeeds |
| `BoardRuns.EraseReply` | command.c:77-93 | the reply reports failure exactly when the checks after the first twenty attempts fail and the last one passes |
| `BoardRuns.ErasedExactly` | command.c:77-93 | with sound flags the sector is erased afterwards exactly if it was flagged, an attempt succeeded, or the last residue happens to be erased |
| `BoardRuns.UncheckedByte` | command.c:67-85 | an erase can be reported as a success with the first byte past the length of the class name not erased |
| `BoardRuns.FailureReportedAsSuccess` | command.c:77-93 | twenty-one failed attempts are reported as a plain success |
| `BoardRuns.EraseLoopCounter` | command.c:77-87 | the flash afterwards is that of the first attempt that passes, or of the last one, and the counter tells which |
| `Handlers.CommandHandlers.EraseFlashPage` | command.c:45-94 | the handler with its retry loop refines the erase command |
| `Handlers.CommandHandlers.WriteFlash` | command.c:97-159 | the handler refines the write command |
| `Handlers.CommandHandlers.ConfigUpdate` | command.c:244-248 | the handler refines the update command |
| `Handlers.CommandHandlers.ConfigWriteToFlash` | command.c:268-308 | the handler, with the static page buffer, refines the save command |
| `Retry.WriteCommandRetry` | client/cvra_bootloader/utils.py:224-296 | the loop computes the specified session |
| `Retry.RetransmitsToUnanswered` | client/cvra_bootloader/utils.py:248-288 | each retransmission goes to exactly the boards unanswered at a timeout |
| `Retry.TransmissionBound` | client/cvra_bootloader/utils.py:266-288 | at most the limit plus one transmissions, unless retrying forever |
| `Retry.WaitingExactly` | client/cvra_bootloader/utils.py:243-296 | on the events: the loop goes on exactly while fewer sources than destinations were heard and the timeouts with a destination unanswered are within the limit; it has transmitted once more than there were such timeouts |
| `Retry.LeavesExactly` | client/cvra_bootloader/utils.py:266-296 | it is left complete on an answer, or at the next such timeout after limit plus one transmissions if not retrying forever: aborted exactly if errors exit, given up otherwise |
| `Retry.LatestAnswer` | client/cvra_bootloader/utils.py:292-296 | of several answers from one board the last one before the loop is left is returned |
| `Retry.CompleteExactly` | client/cvra_bootloader/utils.py:243-296 | a run that leaves the loop normally has an answer from every destination if and only if nobody else was heard before it was left |
| `Retry.StrangerCompletes` | client/cvra_bootloader/utils.py:292-293 | an answer from a stranger is taken for the missing one |
| `Network.Retransmitted` | client/cvra_bootloader/utils.py:262-290 | a retransmission goes to exactly the destinations still unanswered, each of which may then perform the request |
| `Network.CompleteMeansAll` | client/cvra_bootloader/utils.py:243-296 | on the bus, where only requested boards answer, completion means an answer from each |
| `Network.WriteOnce` | command.c:97-159 | one execution of a write that succeeds or is cut off: acknowledged only if the chunk is there; a chunk that is there stays |
| `Network.FaultyWriteAcknowledged` | command.c:151-158 | a failed programming operation is acknowledged, whatever it leaves |
| `Network.RewriteExactly` | command.c:144-153 | a chunk that is there survives every outcome of the same write again if and only if it is not blank |
| `Network.WriteRequestHolds` | client/cvra_bootloader/bootloader_flash.py:188-197 | over any losses, retransmissions and power failures an acknowledging board holds the chunk and no byte outside it changed |
| `Network.AcknowledgedExactly` | platform/mcu/stm32f4/flash_writer.c:231-245 | acknowledgement and contents agree exactly up to the start of the last sector |
| `Network.UpdateRequestConfigures` | client/cvra_bootloader/utils.py:299-307 | after any run of an update request a board is configured if and only if it was before or a delivery to it took effect |
| `Network.RequestCompletes` | client/cvra_bootloader/utils.py:243-296 | when a request of any kind completes, every destination has performed it or complained |
| `Network.SaveRequestKeeps` | client/cvra_bootloader/utils.py:309-311 | no outcome of the saves touches the application, and without a power failure the configured size and checksum stay |
| `Network.ComplaintCompletes` | client/cvra_bootloader/utils.py:299-311 | a complaint completes a request that nobody performed |
| `BusRuns.RequestIsRun` | client/cvra_bootloader/utils.py:224-296 | through any losses, retransmissions, complaints, faults and power failures, a request takes each board through a run of commands and restarts |
| `BusRuns.RequestKeeps` | client/cvra_bootloader/utils.py:224-296 | so no request changes a byte of a board's bootloader, or leaves it without a valid configuration page if it had one |
| `FlashImage.SliceIntoPages` | client/cvra_bootloader/page.py:1-8 | the slicing loop yields the specified pages |
| `FlashImage.SliceAt` | client/cvra_bootloader/page.py:5-8 | page k begins at k page sizes, all but the last are full, without gaps |
| `Rounds.Assess` | client/cvra_bootloader/bootloader_flash.py:199-256 | what one round of answers means: exception, failure, retry, fatal |
| `Undisturbed.AnsweredCompletes` | client/cvra_bootloader/utils.py:224-296 | a request delivered to every destination, performed, and its reply heard from each, in any order and any number of times, completes; each board performed it once |
| `BoardFlashing.ImagePlaceErased` | client/cvra_bootloader/bootloader_flash.py:90-106 | on working hardware and from sound flags, erasing at each page's start leaves every byte of the image's place 0xFF, whatever the flash held, if the last page's first and last byte lie in one sector |
| `BoardFlashing.LastByteKept` | client/cvra_bootloader/bootloader_flash.py:90-106 | and otherwise the last byte stays as it was |
| `BoardFlashing.SaveRequestStores` | command.c:268-308 | over any losses and repetitions of a save request whose saves work, a board to which it was delivered has the configuration in both pages |
| `FlashImage.Client.ErasePage` | client/cvra_bootloader/bootloader_flash.py:90-183 | the erase loop for a page repeats exactly while a board complains and none refuses, and ends as its last round says; undisturbed, it takes one round that erases the page's sector everywhere |
| `FlashImage.Client.EraseImage` | client/cvra_bootloader/bootloader_flash.py:90-183 | every page is asked to be erased in order before anything else, unless the tool stops; undisturbed, it does not, and all are |
| `FlashImage.Client.WritePage` | client/cvra_bootloader/bootloader_flash.py:185-263 | the write loop for a page repeats likewise, ends without an error only when every destination holds it, and touches nothing else; undisturbed, it takes one round |
| `FlashImage.Client.WriteImage` | client/cvra_bootloader/bootloader_flash.py:185-263 | every page is written in order at its address, and the phase ends without errors only when every destination holds the image; undisturbed on an erased place, it does |
| `FlashImage.Client.FlashImage` | client/cvra_bootloader/bootloader_flash.py:76-277 | end to end over a lossy bus: the requests made, in every run, with their outcomes; once the update is announced without errors, every destination holds the image, however update and saves go; when the tool finishes, a destination spared power loss while saving is configured exactly if it was before or performed the update, and starts the image unless it complained; and if nothing disturbs it, it finishes without errors with the new configuration in both pages of every destination |
| `FlashImage.Client.Configure` | client/cvra_bootloader/utils.py:299-311 | the update and then the save are sent to all destinations, the save unless the update aborts; the application area is left alone; who is configured and saved afterwards |
| `FlashImage.ConfiguredStarts` | command.c:180-195 | a board that holds the image and has its size and checksum starts it |
| `FlashImage.StartsAfterReset` | bootloader.c:131-156 | and starts it after a reset too, once its configuration is saved, if the commit string is harmless |
| `FlashImage.DamagedApplicationStays` | command.c:180-195 | an application with up to four consecutive bytes changed since is not started |
| `CommandWire.EncodedWrite` | client/cvra_bootloader/commands.py:17-42 | the bytes of a write request |
| `CommandWire.DispatchRefuses` | command.c:318-366 | a command is refused for its version exactly if that is not 3, and for its index exactly if that is not 1 to 10 |
| `CommandWire.DispatchEncoded` | command.c:318-366 | the node performs exactly the command the client encoded |
| `RoundTrip.RequestPerformed` | bootloader.c:247-349 | if a request's frames are what is on the bus from the client and of the node's own source, each listed node performs it once, on the last one, and answers the client with the command's reply |
| `RoundTrip.RequestAnswered` | bootloader.c:31-79 | the reply's frames make the client be handed exactly that reply, once, whatever either side has in its buffers |
| `RoundTrip.ExchangeIsDelivery` | client/cvra_bootloader/utils.py:210-221 | so an exchange on the wire is a delivery and a reply as the retry loop's bus has them |
| `Slcan.DecodeEncodeFrame` | client/can/adapters/slcan.py:111-163 | decoding the text of a frame returns the frame |
| `Slcan.FrameText` | client/can/adapters/slcan.py:150-163 | the text of a standard frame, character by character |
| `Slcan.DecodeAnyCase` | client/can/adapters/slcan.py:111-148 | decoding does not depend on the case of hexadecimal digits, and gives at most eight bytes |
| `Slcan.StreamRoundTrip` | client/can/adapters/slcan.py:78-102 | a stream of such texts read character by character gives exactly the frames |
| `Slcan.Spin` | client/can/adapters/slcan.py:78-102 | the receiving loop computes the specified receiver |
| `Slcan.SerialLink` | client/can/adapters/slcan.py:78-163 | whole datagrams framed, written as text, read character by character and reassembled come out as sent |

## Left out

- Node.IsValid: a datagram that announces more data than the input buffer holds counts as invalid in the runs; the firmware would compute its checksum past the buffer.
- DatagramBuffers.CanDatagram.IsDatagramValid: such datagrams are excluded by precondition, since what lies past the buffer is unknown.
- NodeLoop.Bootloader.Iterate: such datagrams, and destination lists longer than the address buffer, are excluded by precondition.
- NodeLoop.Bootloader.Finish: excludes such datagrams likewise.
- Configuration.UpdateFromSerialized: what happens after a failing library read is unspecified (`Unreadable`); 32-bit map sizes and formats the configuration does not use count as failing reads.
- ConfigStore.BootloaderConfig.UpdateFromMessagePack: says nothing about the record after a failing read, because the firmware ignores the failure and goes on with whatever the library left, and the library is not part of this model.
- Handlers.CommandHandlers.ConfigUpdate: nor does the handler, for the same reason.
- Configuration.PageRoundTrip: a map that does not fit its page is excluded; the library would write part of it, and which part is not part of this model. `Configuration.PageIsLargeEnough` and `BoardRuns.IncrementedStorable` show when it cannot happen.
- ConfigStore.BootloaderConfig.WritePage: excludes maps that do not fit likewise.
- Handlers.CommandHandlers.ConfigWriteToFlash: excludes maps that do not fit likewise.
- Handlers.CommandHandlers.WriteFlash: the data lies in the input buffer; `CommandWire` decodes the header, and treats arguments that the library fails to read, 64-bit numbers among them, as unspecified.
- FlashImage.Client.FlashImage: programming does not fail, since a failure is acknowledged (`Network.FaultyWriteAcknowledged`), but may be cut off by a power failure if no page is blank (`Network.RewriteExactly`); boards do not restart between commands; no page starts inside the last sector, where writes are acknowledged without effect (`Network.AcknowledgedExactly`). The bus delivers whole requests and replies, which `RoundTrip` and `Reassembly` establish from the frames; that several requests follow each other on one bus is not composed.
- ConfigPages.CrashAtomic: that a torn or merely erased page is invalid is a hypothesis; a checksum cannot promise it.
- Rounds.Code: replies other than one-byte numbers and booleans count as failing to unpack, as the two-byte reply of a failing erase does; boards send no others.
- Slcan.DecodeFrame: numbers are plain digits; the spaces, signs, prefixes and underscores that Python's `int` also accepts count as failing.
- Reassembly.ReadCanDatagrams: `yield` is modelled as a sequence of results for a finite sequence of receive calls.
- The draining of the receive queue before a transmission: the answers dropped there are simply not heard.
- Read, CRC, ping and status commands, LEDs and the status code: single-branch behaviour.
- Peripheral set-up, timers, serial and socket input and output, threads, argument parsing and progress output.
- The other boards' layouts and flash writers, and the second flash bank, which lies outside this board's memory.
