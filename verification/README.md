# Verified models of the Flight Software Framework

The framework runs on satellites: it receives telecommands, drives devices, stores telemetry and isolates
faults. This project models seven of its components in Dafny and proves what each of them is for. Code that
works by changing fields, buffers and maps is written as classes and methods with loops, each proved against
a function on values; the laws are then lemmas about those functions, for all inputs and all runs.

| component | files |
|---|---|
| telecommand receiver (FARM-1 of section 6 of CCSDS 232.1-B-2; frames, control word and MAP extraction of sections 4.1, 4.2 and 4.4.1 of CCSDS 232.0-B) | `crc`, `frame`, `clcw`, `farm`, `farm_report`, `map`, `map_stream`, `channel`, `receiver`, `uplink` |
| device handler: mode machine, command and reply engine | `device_modes`, `device_settles`, `device_reaches`, `device_commands`, `device_runs`, `device_answers`, `device_results`, `device_handler` |
| indexed ring memory | `indexed_ring`, `indexed_ring_memory`, `indexed_ring_array` |
| byte ring buffer | `copying`, `ring_buffer` |
| DLE codec | `dle` |
| serialization and parameter matrices | `serialize`, `serialize_adapters`, `parameters`, `parameter_wrapper` |
| fault counters and recovery | `fdir`, `fdir_device`, `fdir_handler` |
| shared: options, 32-bit numbers, equal stretches | `common` |

The main theorems:

* **In order, exactly once** (`TcReceiver.InOrderExactlyOnce`, `PacketsExactlyOnce`). Over a channel that loses,
  repeats and reorders, with bypass data, control commands and wait requests in between, as long as every copy
  arrives within 255 places of the number delivered and no command sets V(R) to another number, the frames handed
  on are a prefix of those sent, in order and once each; nothing lost, all of them (`PerfectChannel`); through
  reassembly, the packets that come out are those of the units wholly contained in that prefix. The bound is sharp
  on both sides (`AheadBy256`, `BehindBy256`), the condition on V(R) is exact (`RenumbersIff`), and a sender that
  keeps to the sliding window never sees a lockout (`WindowPreventsLockout`).
* **What the control word says** (`FarmReport.WordTells`, `FlagsTell`). Every field of the published word, the
  request to retransmit among them, is determined on every run by the frames and wait requests that came. What the
  ground builds into a frame is what the receiver takes it for (`Uplink.BuiltFrameUnderstood`).
* **One answer in time** (`DeviceRuns.OneAnswerInTime`, `DeviceAnswers.AnsweredInTime`, `NeverAnsweredIff`,
  `DeviceModes.OneAnswerPerCommand`, `DeviceSettles.Settles`). Every accepted device command has at most one
  answer outstanding, gets it within the number of delay cycles of its reply entry, and waits for ever if and only
  if that number is 0; every mode command and read has one answer; every transition that a run enters ends
  (`EveryTransitionSettles`).
* **The right answer** (`DeviceResults.RunAnswers`, `FinishedOnlyIf`, `DeviceReaches.ReachesTarget`). What a commander is
  told is, cycle by cycle, what the device and the channel did: TIMEOUT only for a reply that is late, another result
  only for a reply in the data of that cycle or a write that needs none. A mode command ends in the mode commanded if
  the child confirms, and falls back if it does not, and the commander is told which.
* **The table is the polynomial** (`Crc.CrcIsRemainder`, `Crc.BurstDetected`). The table-driven loop computes the
  remainder of division by x^16 + x^12 + x^5 + 1, and every burst of up to sixteen bits changes it.
* **The block ring is a queue** (`IndexedRingMemory.RunQueues`, `EveryByteOnce`, `IndexedRing.ReadsOldestFirst`,
  `StopsWhenAllIsRead`).
* **The byte ring is a queue**, also through contiguous writes, and peeks change nothing (`SimpleRingBuffer`,
  `ByteQueue.ConsumedIsPrefix`, `PeeksChangeNothing`).
* **Encode, decode** (`DleEncoder.StreamRoundTrip`, `Serialization.ReadIffWritten`, `ParameterMatrix.DumpAndLoad`).
* **Faults** (`LeakyBucket.CountIsWorstSuffix`, `DeviceFdir.EventOutcome`, `RecoveriesBounded`).

Where a promise turned out false of the code, the code was kept, an input that breaks it is given, and the exact
condition under which it holds is proved:

* A forced checksum is meant to replace a frame's own. Its place is counted from the data field instead of the
  start of the frame, five bytes too far, so the frame keeps its own checksum (`TcTransferFrame.ForceCrc`).
* A packet larger than 4096 bytes is dropped when it outgrows the buffer; if that happens before its last
  segment, the rest is collected again and sent as a packet (`MapStream.OversizeLeavesFragment`). Nothing is sent if
  and only if the sizes of its segments fall into runs each of which outgrows the buffer just with its last segment
  (`CleanIff`); up to 8192 bytes, if and only if all segments but the last fit (`CleanUpToTwice`).
* Of blocked packets the last one is left over when it has at most eight bytes (`MapStream.ShortPacketIsLeftOver`,
  `BlockedPackets`, `CleanIff`).
* A request to wait during lockout leaves lockout with the lockout flag set (`Farm1.WaitInLockoutExample`,
  `AgreementIff`); an unlock then opens the receiver, which goes on reporting lockout
  (`FarmReport.UnlockAfterWaitExample`, `UnlockOpens`).
* A reply entry with `maxDelayCycles` 0 is never answered, never times out and blocks its command for good
  (`DeviceAnswers.StuckOnEveryRun`, `NeverAnsweredIff`).
* A command that its builder executes at once is refused all the same, with two messages (`DeviceCommands.RefusedTwice`,
  `OneRefusalIff`).
* If the write block of an indexed ring was empty when reading began and bytes were appended since, the reader that
  leaves the block directly in front of it, and no other, is told to go on with nothing to read
  (`IndexedRing.LateBytesExample`, `AdvanceFollowsPending`, `ReadsOldestFirst`). A ring of a single block never accepts a
  byte (`IndexedRingMemory.OneBlockStaysEmpty`).
* Excess bytes of a contiguous write that was granted and never confirmed stay behind the byte ring. A later
  confirmation moves them over its start, unread bytes included (`SimpleRingBuffer.StaleExcessOverwrites`). The queue
  is right if and only if they spoil neither unread nor new bytes (`ConfirmIff`), which is so while the reservation
  is in force (`ReservationSpoilsNothing`).
* The decoder reads past a source whose frame does not end (`DleEncoder.SourceLeftExample`): exactly when the source
  behind the start holds neither an end nor another start, all its escapes are good and the destination has room
  for what it stands for (`SourceLeftIff`).
* Without STX and ETX the encoder needs one byte more than it writes (`DleEncoder.SpareByteIsMissing`, `Encode`). A frame cut short by
  the next STX costs the next frame as well (`InterruptedFrameTakesStart`, `InterruptedFrameLosesNext`). The decoder
  accepts a raw carriage return inside a frame (`RawCarriageReturn`, `CanonicalIff`).
* A fault whose 32-bit sum with the count wraps around raises no alarm and is forgotten (`LeakyBucket.WrapExample`); the
  alarm is right if and only if the sum does not wrap (`AlarmRightIff`), and the count is the level of its history
  throughout a run if and only if no sum of the run does (`FaithfulIff`).
* A confirmed fault is counted, and can start a recovery, while a shutdown is under way
  (`DeviceFdir.ConfirmationIsNotIgnored`); nothing else breaks the quiet (`QuietIff`, `QuietThroughoutIff`).
* After a shorter buffer was read into a buffer adapter, longer ones are refused
  (`Serialization.ShorterBufferExample`, `ShorterBufferShrinks`).
* The row of a parameter index is kept in eight bits, so an index far outside of a matrix can be written
  (`ParameterMatrix.PlaceIff`, `FarCopyIff`, `FarIndexWritesFirstCell`). Loading ignores the stream's byte order
  (`LittleEndianExample`, `LittleEndianDumpIff`).
* A copy from a matrix in memory puts its first row into every row and reports failure in any case
  (`ParameterWrapper.CopyTwoRows`, `MemoryIsNeverCopied`); the target then holds the matrix if and only if all its rows
  are the same (`ParameterMatrix.RepeatedIff`).
* A transition ends only if its timeout is noticed: cycles that come a multiple of 2^32 milliseconds after it began
  leave it as it is (`DeviceSettles.UnnoticedTimeout`).

Clocks are parameters: uptimes are unbounded numbers, and the code's 32-bit differences are taken modulo 2^32.
Messages that leave a component are appended to a sequence in its state. Floating-point parameters are the
numbers of their bit patterns.

Check everything with `dafny verify dfyconfig.toml`.

## Model

| member | source | states |
|---|---|---|
| `Crc.TableIsEightSteps` | fsfw/globalfunctions/CRC.cpp:4-37 | each of the 256 table entries is eight single-bit division steps of its index |
| `Crc.CrcIsRemainder` | fsfw/globalfunctions/CRC.cpp:41-53 | for every message and start value the table-driven checksum is the remainder of schoolbook division by the generator |
| `Crc.BurstDetected` | fsfw/globalfunctions/CRC.cpp:41-53 | messages of equal length that differ only within sixteen consecutive bits have different checksums |
| `Crc.SeventeenBitBurstMissed` | fsfw/globalfunctions/CRC.cpp:4-53 | sixteen is the limit: two messages that differ by the generator have the same checksum |
| `Crc.ResidueZero` | fsfw/globalfunctions/CRC.cpp:41-53 | a message followed by two bytes has residue zero if and only if they are its checksum, high byte first |
| `Crc.OneByteLeavesResidue` | fsfw/globalfunctions/CRC.cpp:4-53 | a message of one byte never has residue zero |
| `Crc.CrcFromConcat` | fsfw/globalfunctions/CRC.cpp:46-51 | a checksum may be computed in pieces, each starting from the last one's result |
| `Checksum.Crc16Ccitt` | fsfw/globalfunctions/CRC.cpp:41-53 | the loop over a buffer computes that checksum of its first bytes, from any start value |
| `Checksum.ResidueMeansOwnChecksum` | fsfw/datalinklayer/DataLinkLayer.cpp:62-71 | a byte string has residue zero exactly when it ends in the checksum of what precedes |
| `TcTransferFrame.TcTransferFrameLocal.constructor` | fsfw/datalinklayer/TcTransferFrameLocal.cpp:13-49 | the buffer starts with a complete frame around the payload, or with the bare header when there is no payload or it is too long, whatever checksum is forced |
| `TcTransferFrame.FillFrame` | fsfw/datalinklayer/TcTransferFrameLocal.cpp:23-41 | BC frames carry the payload alone, others a segment header and at most 1016 bytes; length field and checksum are completed |
| `TcTransferFrame.ForceCrc` | fsfw/datalinklayer/TcTransferFrameLocal.cpp:45-48 | the forced checksum lands behind the frame: no byte of the frame changes |
| `TcTransferFrame.HeaderFields` | fsfw/datalinklayer/TcTransferFrame.cpp:21-55 | every header field and the length read back from the five header bytes, modulo their widths |
| `TcTransferFrame.BuiltFrameAccepted` | fsfw/datalinklayer/DataLinkLayer.cpp:31-71 | a built frame passes validation for its spacecraft exactly when its flags are a legal pair |
| `TcTransferFrame.BuiltFrameRoundTrip` | fsfw/datalinklayer/TcTransferFrame.cpp:25-87 | the getters return the flags, identifiers, sequence number, segment header, size and payload the frame was built from |
| `TcTransferFrame.HeaderAlone` | fsfw/datalinklayer/TcTransferFrameLocal.cpp:13-22 | without a payload that fits the frame is its header with all fields and states no more than that |
| `TcTransferFrame.AcceptedIff` | fsfw/datalinklayer/DataLinkLayer.cpp:31-71 | any received frame is accepted if and only if its header is legal, it is complete, states at least two bytes and ends in its own checksum |
| `TcTransferFrame.RefusalTells` | fsfw/datalinklayer/DataLinkLayer.cpp:31-71 | which refusal a frame gets: exactly the first of version, spacecraft, header, size and checksum that is wrong |
| `TcTransferFrame.DamagedFrameRejected` | fsfw/datalinklayer/DataLinkLayer.cpp:62-71 | an accepted frame damaged in at most sixteen consecutive bits, its length untouched, is rejected |
| `Clcw.Clcw.SetLockoutFlag` | fsfw/datalinklayer/Clcw.cpp:25-27 | sets the lockout bit as read back and no other field |
| `Clcw.Clcw.SetWaitFlag` | fsfw/datalinklayer/Clcw.cpp:29-31 | sets the wait bit as read back and no other field |
| `Clcw.Clcw.SetRetransmitFlag` | fsfw/datalinklayer/Clcw.cpp:33-35 | sets the retransmit bit as read back and no other field |
| `Clcw.Clcw.SetFarmBCount` | fsfw/datalinklayer/Clcw.cpp:37-39 | the two counter bits read back as the count modulo 4, no other field changes |
| `Clcw.CountRead` | fsfw/datalinklayer/Clcw.cpp:37-39 | packing the counter leaves every flag and yields the counter modulo 4 |
| `Farm1.ReceiverNumber` | fsfw/datalinklayer/Farm1StateOpen.cpp:19-49 | on every run V(R) is the last value set outside lockout plus the AD frames accepted since, modulo 256 |
| `Farm1.FarmBCounter` | fsfw/datalinklayer/VirtualChannelReception.cpp:79-96 | on every run the FARM-B counter counts BD frames and valid BC frames modulo 256, in any state |
| `Farm1.AgreementStep` | fsfw/datalinklayer/VirtualChannelReception.cpp:118-121 | one input keeps flags and state in agreement unless it is a wait request during lockout, and that one never does |
| `Farm1.AgreementIff` | fsfw/datalinklayer/Farm1StateLockout.cpp:17-35 | the control word agrees with the state after every prefix of a run if and only if no wait was requested during lockout |
| `Farm1.WaitInLockoutExample` | fsfw/datalinklayer/VirtualChannelReception.cpp:118-121 | a frame far outside of the window and a wait request: Wait with the lockout flag set |
| `Farm1.LockoutExit` | fsfw/datalinklayer/Farm1StateLockout.cpp:17-35 | lockout ends with an unlock command or a wait request and nothing else, and no AD frame passes nor V(R) changes in it |
| `FarmReport.FlagsTell` | fsfw/datalinklayer/Farm1StateOpen.cpp:19-49 | on every run the retransmit flag is set if and only if a frame ahead in the window came to the open receiver and since then no AD frame was accepted, no unlock and no Set V(R) outside lockout received; lockout flag and wait flag are told likewise |
| `FarmReport.StateTells` | fsfw/datalinklayer/Farm1StateWait.cpp:17-40 | on every run: in lockout since a frame far outside of the windows until an unlock or wait request, waiting since a wait request until released or locked out |
| `FarmReport.WordTells` | fsfw/datalinklayer/VirtualChannelReception.cpp:49-55 | every field of the published word of every run, from the frames and requests that came |
| `FarmReport.LostFrameExample` | fsfw/datalinklayer/Farm1StateOpen.cpp:26-28 | frame 0 is lost, frame 1 comes, and the word asks for retransmission |
| `FarmReport.UnlockOpens` | fsfw/datalinklayer/Farm1StateWait.cpp:28-34 | unlock ends in Open from every reachable state, withdraws wait and retransmit, and the lockout flag exactly if it was true of the state or not set |
| `FarmReport.UnlockAfterWaitExample` | fsfw/datalinklayer/Farm1StateWait.cpp:28-34 | a far frame, a wait request and an unlock leave an open receiver that reports lockout |
| `FarmReport.OutcomeTells` | fsfw/datalinklayer/Farm1StateOpen.cpp:19-49 | each status code is returned exactly for the frames and states it stands for |
| `VirtualChannelReception.DifferenceDecides` | fsfw/datalinklayer/Farm1StateOpen.cpp:21-33 | the 8-bit signed difference decides exactly as windows on the circle of 256 numbers, for half windows up to 127 |
| `VirtualChannelReception.VirtualChannelReception.HandleAdFrameOpen` | fsfw/datalinklayer/Farm1StateOpen.cpp:19-36 | in Open: the expected number is accepted, the positive window asks for retransmission, the negative one is ignored, all else locks out, as FlagsTell and OutcomeTells fix |
| `VirtualChannelReception.VirtualChannelReception.HandleAdFrameWait` | fsfw/datalinklayer/Farm1StateWait.cpp:17-26 | in Wait: frames within the windows are dropped, others lock out |
| `VirtualChannelReception.VirtualChannelReception.HandleBcFrame` | fsfw/datalinklayer/VirtualChannelReception.cpp:84-96 | unlock and Set V(R) by exact content and length, with each state's effect; anything else changes nothing |
| `VirtualChannelReception.VirtualChannelReception.DoFarm` | fsfw/datalinklayer/VirtualChannelReception.cpp:33-47 | one frame takes the state machine one step of the transition function on values, whose runs FarmReport and ReceiverNumber describe |
| `VirtualChannelReception.VirtualChannelReception.FrameAcceptanceAndReportingMechanism` | fsfw/datalinklayer/VirtualChannelReception.cpp:49-67 | state, MAP channels and result follow the specification, and the published word reads as the state after the frame |
| `VirtualChannelReception.VirtualChannelReception.MapDemultiplexing` | fsfw/datalinklayer/VirtualChannelReception.cpp:21-31 | exactly the addressed MAP channel gets the frame, an unknown one is reported |
| `VirtualChannelReception.VirtualChannelReception.AddMapChannel` | fsfw/datalinklayer/VirtualChannelReception.cpp:69-77 | a MAP channel is added unless its number is taken |
| `VirtualChannelReception.VirtualChannelReception.SetToWaitState` | fsfw/datalinklayer/VirtualChannelReception.cpp:118-121 | enters Wait with its flag, from any state |
| `Uplink.BuiltFrameUnderstood` | fsfw/datalinklayer/VirtualChannelReception.cpp:33-96 | every frame the builder makes is taken for what it was built as: data with its number, bypass data, and exactly the unlock and Set V(R) that its content spells |
| `Uplink.BuiltSegmentUnderstood` | fsfw/datalinklayer/MapPacketExtractionIF.h:22-25 | a segment built into a frame comes out with its flags, its payload and its MAP channel |
| `Uplink.GoesWhereAddressed` | fsfw/datalinklayer/VirtualChannelReception.cpp:21-67 | a frame changes the MAP channel it is addressed to, if it is accepted, and no other, and is reported lost exactly if there is none |
| `Uplink.NextFrameDelivers` | fsfw/datalinklayer/MapPacketExtraction.cpp:87-112 | the next frame, built by the ground around blocked packets, hands them on byte for byte, but for a short last one |
| `MapPacketExtraction.MapPacketExtraction.ExtractPackets` | fsfw/datalinklayer/MapPacketExtraction.cpp:25-85 | one frame takes the reassembly one step of the specification, whose refusals RefusedIff gives; write offset and packet length stay equal and at most 4096 |
| `MapPacketExtraction.MapPacketExtraction.UnpackBlockingPackets` | fsfw/datalinklayer/MapPacketExtraction.cpp:87-112 | the loop takes off the front exactly the packets that are whole, and reports residue, corruption or too short data |
| `MapPacketExtraction.MapPacketExtraction.ClearBuffers` | fsfw/datalinklayer/MapPacketExtraction.cpp:125-130 | empties the buffer and keeps what was sent |
| `MapStream.HistoryDeterminesPackets` | fsfw/datalinklayer/MapPacketExtraction.cpp:25-130 | for every run of segments, well formed or not: the buffer is the concatenation of what was accepted since the last accepted FIRST or clear, and each packet sent on LAST is that with the last segment |
| `MapStream.RefusedIff` | fsfw/datalinklayer/MapPacketExtraction.cpp:46-77 | on every run from the start a segment is answered ILLEGAL_SEGMENTATION_FLAG if and only if it is continuing or last and comes first, or directly behind a last or unsegmented one |
| `MapStream.OutOfPlaceClears` | fsfw/datalinklayer/MapPacketExtraction.cpp:71-77 | such a segment sends nothing and leaves nothing in the buffer |
| `MapStream.LostFirstExample` | fsfw/datalinklayer/MapPacketExtraction.cpp:46-77 | a last segment whose first one was lost sends nothing |
| `MapStream.StreamEmits` | fsfw/datalinklayer/MapPacketExtraction.cpp:25-85 | over any prefix of a stream of units, what is sent is exactly the emissions of the units complete in it |
| `MapStream.CleanIff` | fsfw/datalinklayer/MapPacketExtraction.cpp:38-112 | a unit comes out as its packets of at most 4096 bytes if and only if it is clean: it fits or its sizes fall into runs that outgrow the buffer just with their last part; blocked, its last packet is longer than eight bytes |
| `MapStream.CleanUpToTwice` | fsfw/datalinklayer/MapPacketExtraction.cpp:51-70 | up to 8192 bytes: if and only if it fits, or all but its last part do |
| `MapStream.BlockedPackets` | fsfw/datalinklayer/MapPacketExtraction.cpp:87-112 | packets blocked into one frame come out again, but for a last one of at most eight bytes |
| `MapStream.BlockedAnswer` | fsfw/datalinklayer/MapPacketExtraction.cpp:87-112 | any payload is some whole packets, which are sent, and a tail; the status tells whether it is empty, too short for a packet or a packet not all there |
| `MapStream.ShortPacketIsLeftOver` | fsfw/datalinklayer/MapPacketExtraction.cpp:87-112 | a packet of seven bytes alone in its frame does not come out |
| `MapStream.OversizeLeavesFragment` | fsfw/datalinklayer/MapPacketExtraction.cpp:51-70 | a packet too large before its last segment leaves a fragment that is sent as a packet |
| `TcReceiver.InOrderExactlyOnce` | fsfw/datalinklayer/VirtualChannelReception.cpp:33-67 | for every run, window and channel content in which no command renumbers: the frames handed on are a prefix of those sent, in order and once each, and the MAP channels have seen just them and the bypass data in between |
| `TcReceiver.RenumbersIff` | fsfw/datalinklayer/Farm1StateOpen.cpp:44-49 | a Set V(R) command leaves all this as it is if and only if it comes in lockout or names the next frame |
| `TcReceiver.PerfectChannel` | fsfw/datalinklayer/Farm1StateOpen.cpp:19-25 | over a channel that loses, repeats and reorders nothing every frame is handed on by an open receiver |
| `TcReceiver.PassesIff` | fsfw/datalinklayer/Farm1StateOpen.cpp:19-25 | an arrival within the bound is handed on if and only if it is the next frame and the receiver is open |
| `TcReceiver.LocksOutIff` | fsfw/datalinklayer/Farm1StateOpen.cpp:26-36 | a receiver not in lockout goes there exactly on a copy whose distance from the next frame modulo 256 lies outside of the window, whatever the distance |
| `TcReceiver.WindowPreventsLockout` | fsfw/datalinklayer/Farm1StateWait.cpp:17-26 | with a sender that keeps to the window and does not renumber, whatever is lost, repeated or reordered, the receiver never locks out |
| `TcReceiver.AheadBy256` | fsfw/datalinklayer/Farm1StateOpen.cpp:19-25 | a frame 256 places ahead is taken for the expected one, so the bound of 255 is sharp |
| `TcReceiver.BehindBy256` | fsfw/datalinklayer/Farm1StateOpen.cpp:19-25 | after 256 frames or more a copy 256 places behind is taken for the expected one |
| `TcReceiver.ChannelSeesItsSegments` | fsfw/datalinklayer/VirtualChannelReception.cpp:21-31 | after any frames, a MAP channel is as if it had seen its own segments alone |
| `TcReceiver.PacketsExactlyOnce` | fsfw/datalinklayer/MapPacketExtraction.cpp:25-85 | the packets that leave a MAP channel without bypass data are exactly those of the units wholly contained in the frames handed on |
| `DeviceModes.OneAnswerPerCommand` | fsfw/modes/ModeHelper.cpp:16-100 | on every run a sender has one answer per mode command or read, but for the one pending in a transition; in a lasting mode none is pending |
| `DeviceModes.AnswerTellsOutcome` | fsfw/modes/ModeHelper.cpp:74-100 | the answer given when a lasting mode is set says whether it is the commanded one |
| `DeviceReaches.ReachesTarget` | fsfw/devicehandlers/DeviceHandlerBase.cpp:267-358 | every command taken in a lasting mode: with a child that confirms by the base mode and switches in time the first lasting mode reached is the one commanded, with a silent child the one that was left, or off where power is off or to go off; the commander is told which |
| `DeviceReaches.OnToNormalExample` | fsfw/devicehandlers/DeviceHandlerBase.cpp:992-994 | a device that is on and commanded to NORMAL by queue 5 is in NORMAL, and queue 5 told so |
| `DeviceReaches.WaitsForPower` | fsfw/devicehandlers/DeviceHandlerBase.cpp:297-317 | a device waits for power exactly while its switches are off and not late, is started up with power and powered down when it is late |
| `DeviceReaches.WaitsForSwitchOff` | fsfw/devicehandlers/DeviceHandlerBase.cpp:318-340 | likewise for the switches to go off; late, it is in error and its commander gets a wrong-mode reply |
| `DeviceReaches.UnknownPowersDown` | fsfw/devicehandlers/DeviceHandlerBase.cpp:353-356 | a mode the handler does not know powers the device down |
| `DeviceReaches.RefusedIff` | fsfw/devicehandlers/DeviceHandlerBase.cpp:915-945 | a mode command out of reach is refused with that message and nothing else changed; any other restarts the timer with the delay of the transition and is not refused |
| `DeviceReaches.ReadTells` | fsfw/modes/ModeHelper.cpp:49-56 | reading is answered with the mode and submode as they are |
| `DeviceReaches.ForcedUntilReached` | fsfw/modes/ModeHelper.cpp:74-112 | a forced command stays one until a lasting mode is set |
| `DeviceReaches.ParentHears` | fsfw/modes/ModeHelper.cpp:74-112 | the parent gets exactly one message with every lasting mode, as the answer if it commanded it |
| `DeviceSettles.SourceAlwaysOk` | fsfw/devicehandlers/DeviceHandlerBase.cpp:448-482 | on every run the fallback of a transition is ON, NORMAL, RAW or power down |
| `DeviceSettles.BaseMoveForward` | fsfw/devicehandlers/DeviceHandlerBase.cpp:300-357 | the base class only moves to a mode of lower rank, and waits no longer than its switch delay |
| `DeviceSettles.TransitionStep` | fsfw/devicehandlers/DeviceHandlerBase.cpp:267-358 | one cycle in a transition lowers the rank of the mode or else the time left, and commands do not disturb it |
| `DeviceSettles.Settles` | fsfw/devicehandlers/DeviceHandlerBase.cpp:267-358 | from every state of a transition a lasting mode is reached if time advances and the child leaves the mode or moves forward |
| `DeviceSettles.CommanderIsAnswered` | fsfw/devicehandlers/DeviceHandlerBase.cpp:459-482 | hence whoever commanded a mode stops waiting |
| `DeviceSettles.EveryTransitionSettles` | fsfw/devicehandlers/DeviceHandlerBase.cpp:267-358 | on every run from the start, a transition that begins in any cycle ends and its commander is answered, under the same conditions |
| `DeviceSettles.UnnoticedTimeout` | fsfw/devicehandlers/DeviceHandlerBase.cpp:267-299 | without a bound on the time between cycles it need not: at multiples of 2^32 milliseconds the timeout is never noticed |
| `DeviceCommands.OneRefusalIff` | fsfw/action/ActionHelper.cpp:56-80 | a refused command gets a single answer if and only if its builder was not asked or did not execute it at once |
| `DeviceCommands.RefusedTwice` | fsfw/action/ActionHelper.cpp:56-80 | a command executed at once is answered with a completion and a refusal |
| `DeviceCommands.ExecuteActionKeeps` | fsfw/devicehandlers/DeviceHandlerBase.cpp:1195-1216 | accepting or refusing a command keeps maps and message log in agreement |
| `DeviceCommands.SendWriteKeeps` | fsfw/devicehandlers/DeviceHandlerBase.cpp:543-560 | sending keeps the agreement; a failed send answers and frees the command |
| `DeviceCommands.GetWriteKeeps` | fsfw/devicehandlers/DeviceHandlerBase.cpp:562-585 | the end of a write keeps the agreement, with and without a reply to wait for |
| `DeviceCommands.HandleReplyKeeps` | fsfw/devicehandlers/DeviceHandlerBase.cpp:693-732 | a reply found, expected or not, keeps the agreement |
| `DeviceCommands.ReplySettles` | fsfw/devicehandlers/DeviceHandlerBase.cpp:525-541 | an expected reply finishes its command with one message to its commander and frees it |
| `DeviceCommands.DecrementAllKeeps` | fsfw/devicehandlers/DeviceHandlerBase.cpp:200-214 | counting down all reply entries keeps the agreement, and each outstanding answer gets exactly one cycle older |
| `DeviceRuns.CycleKeeps` | fsfw/devicehandlers/DeviceHandlerBase.cpp:66-103 | one whole cycle keeps maps and log in agreement for every command |
| `DeviceRuns.OneAnswerInTime` | fsfw/devicehandlers/DeviceHandlerBase.cpp:66-103 | on every run answers and acceptances of an id alternate, go to the commander, and none is outstanding longer than maxDelayCycles |
| `DeviceRuns.StuckForever` | fsfw/devicehandlers/DeviceHandlerBase.cpp:200-214 | a command whose reply entry waits no cycle and that is written stays so, unanswered, through a cycle |
| `DeviceRuns.ZeroDelayGetsStuck` | fsfw/devicehandlers/DeviceHandlerBase.cpp:847-865 | a command gets there by a successful write, if its maxDelayCycles is 0 |
| `DeviceAnswers.OneCycleOlder` | fsfw/devicehandlers/DeviceHandlerBase.cpp:66-103 | in every cycle an outstanding answer gets one cycle older or is given; its command is not accepted again meanwhile |
| `DeviceAnswers.AnsweredInTime` | fsfw/devicehandlers/DeviceHandlerBase.cpp:200-214 | on every run that is long enough an outstanding answer is given, before it is older than maxDelayCycles, unless that is 0 |
| `DeviceAnswers.StuckOnEveryRun` | fsfw/devicehandlers/DeviceHandlerBase.cpp:200-214 | a stuck command is never answered, on any run |
| `DeviceAnswers.NeverAnsweredIff` | fsfw/devicehandlers/DeviceHandlerBase.cpp:562-585 | for a command accepted, sent and written in one cycle: its answer waits for ever if and only if its maxDelayCycles is 0, and otherwise comes within that many cycles |
| `DeviceResults.CycleAnswers` | fsfw/devicehandlers/DeviceHandlerBase.cpp:66-103 | in every cycle a commander is told exactly what happened in it: TIMEOUT if the last cycle of its reply went by, the result of the first reply of its id in the data searched, the failure of its write, or completion without a reply to wait for |
| `DeviceResults.RunAnswers` | fsfw/devicehandlers/DeviceHandlerBase.cpp:66-103 | on every run, what commanders of an id are told is what the cycles demand, one after the other |
| `DeviceResults.FinishedOnlyIf` | fsfw/devicehandlers/DeviceHandlerBase.cpp:200-214 | on every run a command is reported as finished only in a cycle whose data hold its reply with that very result, or that wrote it with no reply to wait for, or with TIMEOUT in the last cycle of its reply |
| `DeviceResults.ActionTold` | fsfw/devicehandlers/DeviceHandlerBase.cpp:1195-1216 | an action is answered with an acceptance exactly if it is taken, else with a refusal that says why |
| `DeviceResults.IgnoredReplies` | fsfw/devicehandlers/DeviceHandlerBase.cpp:1019-1025 | a failed read lets one more missed reply be ignored, and every missed reply uses one of these up |
| `DeviceResults.OwnCommandSentIff` | fsfw/devicehandlers/DeviceHandlerBase.cpp:1218-1265 | a command of the handler's own is sent exactly if it is free and the mode is NORMAL or one the child drives, and nobody is told of it |
| `DeviceResults.NothingLeftOver` | fsfw/devicehandlers/DeviceHandlerBase.cpp:66-70 | SEND_WRITE begins afresh whatever a cycle before left unfinished |
| `DeviceResults.PeriodicStartsAgain` | fsfw/devicehandlers/DeviceHandlerBase.cpp:200-214 | a periodic entry starts again, with its reply and with its timeout |
| `DeviceResults.LastReplyFinishes` | fsfw/devicehandlers/DeviceHandlerBase.cpp:525-541 | of several replies expected the last one, and no other, finishes the command, with its own result |
| `DeviceHandlerBase.ModeHelper.ModeChanged` | fsfw/modes/ModeHelper.cpp:74-112 | answers the commander, informs the parent unless it commanded, and forgets the commander |
| `DeviceHandlerBase.DeviceHandlerBase.SetMode` | fsfw/devicehandlers/DeviceHandlerBase.cpp:459-482 | sets the mode as specified, answers in a lasting mode only and restarts the timeout |
| `DeviceHandlerBase.DeviceHandlerBase.CheckModeCommand` | fsfw/devicehandlers/DeviceHandlerBase.cpp:915-945 | a mode command is taken exactly where the specification says it is reachable |
| `DeviceHandlerBase.DeviceHandlerBase.StartTransition` | fsfw/devicehandlers/DeviceHandlerBase.cpp:947-1000 | starts the transition that the specification gives, which leads where DeviceReaches.ReachesTarget says |
| `DeviceHandlerBase.DeviceHandlerBase.HandleModeCommand` | fsfw/modes/ModeHelper.cpp:16-67 | rejects or takes a command, answers a read |
| `DeviceHandlerBase.DeviceHandlerBase.DoStateMachine` | fsfw/devicehandlers/DeviceHandlerBase.cpp:267-358 | one step of the mode machine, with child hook, switches and timeouts |
| `DeviceHandlerBase.DeviceHandlerBase.ExecuteAction` | fsfw/devicehandlers/DeviceHandlerBase.cpp:1195-1216 | accepts or refuses an external command as specified |
| `DeviceHandlerBase.DeviceHandlerBase.ReplyToReply` | fsfw/devicehandlers/DeviceHandlerBase.cpp:525-541 | counts a reply, finishes and frees the command with the last one |
| `DeviceHandlerBase.DeviceHandlerBase.DoGetWrite` | fsfw/devicehandlers/DeviceHandlerBase.cpp:562-585 | ends a write as specified |
| `DeviceHandlerBase.DeviceHandlerBase.DecrementDeviceReplyMap` | fsfw/devicehandlers/DeviceHandlerBase.cpp:200-214 | the loop over the reply map counts down every entry as specified; what that tells commanders is DeviceResults.CycleAnswers |
| `DeviceHandlerBase.DeviceHandlerBase.PerformOperation` | fsfw/devicehandlers/DeviceHandlerBase.cpp:66-103 | one of the four steps of a cycle |
| `DeviceHandlerBase.DeviceHandlerBase.PerformCycle` | fsfw/devicehandlers/DeviceHandlerBase.cpp:66-103 | the four steps in their order are one cycle of the specification |
| `IndexedRingMemoryArray.IndexedRingMemoryArray.constructor` | fsfw/container/IndexedRingMemoryArray.h:140-209 | index in front, equal blocks behind it to the end of the memory, all empty; the index of the blocks there are fits in front; the branch that removes the last block is dead |
| `IndexedRingMemory.LastBlockIsLarge` | fsfw/container/IndexedRingMemoryArray.h:202-208 | the last block is never smaller than bytesPerBlock |
| `IndexedRingMemory.AvailableMeans` | fsfw/container/IndexedRingMemoryArray.h:436-441 | the free space computed in 32 bits is the room left in the block, less exactly what the sum of addresses loses when it overflows, and nothing in an empty single block |
| `IndexedRingMemory.GuardedAddFits` | fsfw/container/IndexedRingMemoryArray.h:416-441 | a write that asked for space first stays inside its block |
| `IndexedRingMemory.GrantedIff` | fsfw/container/IndexedRingMemoryArray.h:436-441 | where the sum of addresses does not wrap, a write is granted exactly if it leaves a byte of its block free |
| `IndexedRingMemory.WriteNextDropsOldest` | fsfw/container/IndexedRingMemoryArray.h:447-481 | going on to the next block drops exactly that block's data, the oldest; refused steps drop nothing |
| `IndexedRingMemory.GoesOnIff` | fsfw/container/IndexedRingMemoryArray.h:447-481 | a step to the next block succeeds exactly if that block is empty or old data may be overwritten; refused, it changes nothing |
| `IndexedRingMemory.OverwritingGoesOn` | fsfw/container/IndexedRingMemoryArray.h:447-481 | on every run a ring set to overwrite goes on by as many blocks as it was asked to |
| `IndexedRingMemory.PacketsCounted` | fsfw/container/IndexedRingMemoryArray.h:416-419 | on every run the write block counts the packets written since it was entered |
| `IndexedRingMemory.AddAppends` | fsfw/container/IndexedRingMemoryArray.h:416-419 | bytes added come last in reading order |
| `IndexedRingMemory.RunQueues` | fsfw/container/IndexedRingMemoryArray.h:416-481 | on every run of guarded writes and steps the stored data are everything written less what was dropped at the front; without overwriting nothing is dropped |
| `IndexedRingMemory.RunKeepsApart` | fsfw/container/IndexedRingMemoryArray.h:416-481 | and the data ranges of all blocks stay apart and inside the usable region, and bytes are conserved |
| `IndexedRingMemory.EveryByteOnce` | fsfw/container/IndexedRingMemoryArray.h:265-385 | a reader of the whole ring meets every stored byte exactly once |
| `IndexedRingMemory.OneBlockStaysEmpty` | fsfw/container/IndexedRingMemoryArray.h:436-441 | a ring of one block never takes a byte |
| `IndexedRing.ReadOldestSeesAll` | fsfw/container/IndexedRingMemoryArray.h:265-270 | readOldest puts the reader before all data, oldest first |
| `IndexedRing.SkipsNothing` | fsfw/container/IndexedRingMemoryArray.h:372-385 | the search for a non-empty block skips only empty ones |
| `IndexedRing.AdvanceFollowsPending` | fsfw/container/IndexedRingMemoryArray.h:300-355 | addReadSize takes exactly that many bytes off what is pending, at most to the end of the block; its answer tells whether any are left, if and only if it does not leave the block in front of a write block filled late |
| `IndexedRing.WrappedReadGoesBack` | fsfw/container/IndexedRingMemoryArray.h:300-355 | a size whose 32-bit sum with the bytes already read wraps puts the reader back |
| `IndexedRing.WritingKeepsPending` | fsfw/container/IndexedRingMemoryArray.h:416-419 | bytes appended behind a reader do not change what it sees |
| `IndexedRing.LastAnswerIff` | fsfw/container/IndexedRingMemoryArray.h:300-355 | over a run the last answer is right if and only if no read of it misleads |
| `IndexedRing.ReadsOldestFirst` | fsfw/container/IndexedRingMemoryArray.h:265-355 | from readOldest on, whatever sizes are read and appended: the bytes read are a prefix of the data stored at the start, oldest block first, in at most as many reads as bytes; the last answer is false exactly when all were read, if and only if no read misleads |
| `IndexedRing.StopsWhenAllIsRead` | fsfw/container/IndexedRingMemoryArray.h:300-355 | without writes, or with a write block that held data, reading ends with false exactly when as many bytes were read as the index adds up to |
| `IndexedRing.StopsBehind` | fsfw/container/IndexedRingMemoryArray.h:319-353 | a reader for whom nothing is left stops at the block behind the one it has finished |
| `IndexedRing.OldestFirstHasAll` | fsfw/container/IndexedRingMemoryArray.h:614-620 | the bytes around the ring are as many as the sizes in the index add up to |
| `IndexedRing.LateBytesAnnounced` | fsfw/container/IndexedRingMemoryArray.h:319-353 | every reader that leaves the block in front of a write block filled late is told to go on and offered nothing |
| `IndexedRing.LateBytesExample` | fsfw/container/IndexedRingMemoryArray.h:319-353 | a ring, an append and a read that mislead |
| `IndexedRingMemoryArray.IndexedRingMemoryArray.GetNextNonEmptyBlock` | fsfw/container/IndexedRingMemoryArray.h:372-385 | the loop with its wrap-around finds the first non-empty block after the write block, or the write block |
| `IndexedRingMemoryArray.IndexedRingMemoryArray.AddReadSize` | fsfw/container/IndexedRingMemoryArray.h:300-355 | the code with its search loop does the specified step |
| `IndexedRingMemoryArray.IndexedRingMemoryArray.ReadOldest` | fsfw/container/IndexedRingMemoryArray.h:265-270 | sets all cursors and cached sizes as specified |
| `IndexedRingMemoryArray.IndexedRingMemoryArray.HasCurrentWriteBlockEnoughSpace` | fsfw/container/IndexedRingMemoryArray.h:436-441 | the 32-bit test as specified |
| `IndexedRingMemoryArray.IndexedRingMemoryArray.AddCurrentWriteBlock` | fsfw/container/IndexedRingMemoryArray.h:416-419 | grows the write block and nothing else |
| `IndexedRingMemoryArray.IndexedRingMemoryArray.WriteNext` | fsfw/container/IndexedRingMemoryArray.h:470-481 | moves on and empties the block, or fails and changes nothing |
| `IndexedRingMemoryArray.IndexedRingMemoryArray.GetCurrentReadAddress` | fsfw/container/IndexedRingMemoryArray.h:292-294 | while bytes remain, the address is that of the next pending byte |
| `IndexedRingMemoryArray.IndexedRingMemoryArray.GetRemainingSizeOfCurrentReadBlock` | fsfw/container/IndexedRingMemoryArray.h:356-362 | the bytes still offered in the block being read |
| `IndexedRingMemoryArray.IndexedRingMemoryArray.GetCurrentSize` | fsfw/container/IndexedRingMemoryArray.h:614-620 | the number of stored bytes, modulo 2^32 |
| `IndexedRingMemoryArray.SizesBelowTotal` | fsfw/container/IndexedRingMemoryArray.h:614-620 | which does not wrap while blocks fit |
| `ByteQueue.RunConserves` | fsfw/container/SimpleRingBuffer.cpp:58-131 | over every run of writes, reads, peeks and deletes no byte is lost, invented or reordered |
| `ByteQueue.ConsumedIsPrefix` | fsfw/container/SimpleRingBuffer.cpp:58-131 | from an empty buffer, what was consumed is a prefix of what was accepted and the rest is still there |
| `ByteQueue.PeeksChangeNothing` | fsfw/container/SimpleRingBuffer.cpp:77-103 | reads that do not move the read position may be left out of any run: queue, accepted and consumed bytes stay the same |
| `ByteQueue.PeekedComesNext` | fsfw/container/SimpleRingBuffer.cpp:77-103 | what was looked at is what a read of that many bytes hands out later, whatever was written in between |
| `ByteQueue.ReadConsumes` | fsfw/container/SimpleRingBuffer.cpp:77-103 | a read that moves on consumes exactly the bytes it hands out |
| `SimpleRingBuffer.RingAppends` | fsfw/container/SimpleRingBuffer.cpp:58-75 | bytes put behind the unread ones, around the end, append to the queue |
| `SimpleRingBuffer.ConfirmIff` | fsfw/container/SimpleRingBuffer.cpp:51-56 | in any state, confirming appends the bytes written contiguously if and only if the excess bytes spoil neither unread nor new bytes |
| `SimpleRingBuffer.ReservationSpoilsNothing` | fsfw/container/SimpleRingBuffer.cpp:32-56 | a reservation in force spoils nothing, whatever the memory holds |
| `SimpleRingBuffer.StaleExcessOverwrites` | fsfw/container/SimpleRingBuffer.cpp:32-56 | a reservation filled and not confirmed, ordinary writes, then a contiguous write: two unread bytes are lost |
| `SimpleRingBuffer.RingDrops` | fsfw/container/RingBufferBase.h:72-74 | moving the read position drops from the front |
| `SimpleRingBuffer.SimpleRingBuffer.AvailableWriteSpace` | fsfw/container/RingBufferBase.h:27-33 | readable and writable bytes always add up to size - 1 |
| `SimpleRingBuffer.SimpleRingBuffer.WriteData` | fsfw/container/SimpleRingBuffer.cpp:58-75 | accepted exactly if it fits, and then appended to the queue |
| `SimpleRingBuffer.SimpleRingBuffer.GetFreeElement` | fsfw/container/SimpleRingBuffer.cpp:32-49 | in any state granted exactly if the bytes fit into ring and excess area; the queue is untouched and the excess bytes are those beyond the end, if there are any |
| `SimpleRingBuffer.SimpleRingBuffer.Fill` | fsfw/container/SimpleRingBuffer.cpp:32-49 | filling the granted bytes touches no unread byte |
| `SimpleRingBuffer.SimpleRingBuffer.ConfirmBytesWritten` | fsfw/container/SimpleRingBuffer.cpp:51-56 | memory and write position after any confirmation; the bytes filled in are appended if and only if nothing is spoiled, and always while the reservation is in force |
| `SimpleRingBuffer.SimpleRingBuffer.MoveExcessBytesToStart` | fsfw/container/SimpleRingBuffer.cpp:109-114 | copies the excess bytes to the start and nothing else |
| `SimpleRingBuffer.SimpleRingBuffer.WriteContiguously` | fsfw/container/SimpleRingBuffer.cpp:32-56 | getFreeElement, fill and confirm leave the queue an ordinary write would: without stale excess bytes always, in any state if and only if they spoil nothing |
| `SimpleRingBuffer.SimpleRingBuffer.ReadData` | fsfw/container/SimpleRingBuffer.cpp:77-103 | hands out the front of the queue, all or what remains, and fails exactly if there is less and that was not asked for; the queue is as before without incrementReadPtr, and without exactly those bytes with it |
| `SimpleRingBuffer.SimpleRingBuffer.DeleteData` | fsfw/container/SimpleRingBuffer.cpp:116-131 | drops the front of the queue, all or what remains |
| `DleEncoder.BodyHasNoControls` | fsfw/globalfunctions/DleEncoder.cpp:20-57 | an encoded body holds no raw STX, ETX or carriage return |
| `DleEncoder.DecodeInverts` | fsfw/globalfunctions/DleEncoder.cpp:72-123 | decoding an encoding followed by anything gives the data back and the read length to its end |
| `DleEncoder.StreamRoundTrip` | fsfw/globalfunctions/DleEncoder.cpp:72-123 | decoding concatenated encodings step by step by the read length gives the list of byte strings back |
| `DleEncoder.CanonicalIff` | fsfw/globalfunctions/DleEncoder.cpp:82-112 | a frame is decoded from exactly the bytes the encoder makes of it if and only if they hold no raw carriage return |
| `DleEncoder.RawCarriageReturn` | fsfw/globalfunctions/DleEncoder.cpp:106-108 | a frame with a raw carriage return is decoded |
| `DleEncoder.CompleteStaysInside` | fsfw/globalfunctions/DleEncoder.cpp:82-114 | a source in which a started frame also ends is never read past its end |
| `DleEncoder.DecodesPrefix` | fsfw/globalfunctions/DleEncoder.cpp:82-114 | what stands in front as an encoded body is decoded, whatever comes behind it |
| `DleEncoder.TooLargeStops` | fsfw/globalfunctions/DleEncoder.cpp:82-114 | a frame of more data than there is room for is given up directly behind what fits |
| `DleEncoder.BadEscapeIsRefused` | fsfw/globalfunctions/DleEncoder.cpp:86-104 | an escape that stands for no byte fails the frame, wherever it comes |
| `DleEncoder.StartIsNeeded` | fsfw/globalfunctions/DleEncoder.cpp:77-79 | a source is refused at once exactly if it does not begin with STX |
| `DleEncoder.InterruptedFrameTakesStart` | fsfw/globalfunctions/DleEncoder.cpp:114-117 | a frame cut short by a start is an error that takes the start with it |
| `DleEncoder.InterruptedFrameLosesNext` | fsfw/globalfunctions/DleEncoder.cpp:77-79 | and what is left is not taken for a frame |
| `DleEncoder.Encode` | fsfw/globalfunctions/DleEncoder.cpp:7-70 | succeeds if and only if body and markers, or body and one spare byte, fit; writes exactly the encoding and nothing behind the limit |
| `DleEncoder.SpareByteIsMissing` | fsfw/globalfunctions/DleEncoder.cpp:59-69 | two bytes without markers are refused for a destination of two |
| `DleEncoder.EncodeBody` | fsfw/globalfunctions/DleEncoder.cpp:20-57 | the loop writes the whole body exactly if it fits |
| `DleEncoder.EncodeByte` | fsfw/globalfunctions/DleEncoder.cpp:22-54 | one byte, escaped where it must be, if there is room |
| `DleEncoder.SourceLeftIff` | fsfw/globalfunctions/DleEncoder.cpp:77-114 | a source is read past its end if and only if it is empty, or behind its start it holds neither an end nor another start, all its escapes are good and the destination has room for what it stands for |
| `DleEncoder.SourceLeftExample` | fsfw/globalfunctions/DleEncoder.cpp:82-114 | a start and one byte |
| `DleEncoder.DecodeFrame` | fsfw/globalfunctions/DleEncoder.cpp:72-123 | result, read length and data are those of the specification, wherever it stays inside its source |
| `EndianConverter.StreamOfMemory` | fsfw/serialize/EndianConverter.h:44-103 | the bytes sent in a given order do not depend on the machine, and the conversion is its own inverse |
| `EndianConverter.NumberRoundTrip` | fsfw/serialize/EndianConverter.h:23-35 | a number reads back from its bytes |
| `EndianConverter.ConvertBigEndian` | fsfw/serialize/EndianConverter.h:44-61 | the loop reverses the bytes on a little-endian machine |
| `EndianConverter.ConvertLittleEndian` | fsfw/serialize/EndianConverter.h:86-103 | the loop reverses the bytes on a big-endian machine |
| `Serialization.ReadsBack` | fsfw/serialize/SerializeAdapter.h:101-158 | every tree of numbers, buffers, lists and linked elements, in each order, reads back from its bytes followed by anything, and leaves that |
| `Serialization.ReadIffWritten` | fsfw/serialize/SerializeAdapter.h:101-158 | reading succeeds with a value if and only if the object can hold it and the stream begins with its bytes |
| `Serialization.TruncatedIsTooShort` | fsfw/serialize/SerializeAdapter.h:134-158 | every tree of values, cut off anywhere before its end, is reported as STREAM_TOO_SHORT |
| `Serialization.LongerListRefused` | fsfw/serialize/SerialArrayListAdapter.h:57-75 | a list with more items than entries is reported as TOO_MANY_ELEMENTS, whatever follows |
| `Serialization.ShorterBufferShrinks` | fsfw/serialize/SerialBufferAdapter.cpp:65-93 | after a shorter buffer was read a longer one is refused |
| `Serialization.ShorterBufferExample` | fsfw/serialize/SerialBufferAdapter.cpp:65-93 | one byte, then two, into a buffer of two |
| `SerializeAdapters.SerializeNumber` | fsfw/serialize/SerializeAdapter.h:101-132 | written exactly if it fits, in the stream's order, on either machine |
| `SerializeAdapters.DeserializeNumber` | fsfw/serialize/SerializeAdapter.h:134-158 | read exactly if there are enough bytes |
| `SerializeAdapters.SerializeBuffer` | fsfw/serialize/SerialBufferAdapter.cpp:24-53 | length if asked for, then the bytes, exactly if all of it fits |
| `SerializeAdapters.SerializeList` | fsfw/serialize/SerialArrayListAdapter.h:24-36 | count and entries, exactly if all of it fits |
| `SerializeAdapters.SerializeElements` | fsfw/serialize/SerialLinkedListAdapter.h:68-78 | all elements along the chain, exactly if all of them fit |
| `SerializeAdapters.SerializeValue` | fsfw/serialize/SerializeAdapter.h:171-181 | succeeds if and only if used size plus the value's bytes fit, writes exactly those and touches nothing before or behind the limit |
| `SerializeAdapters.GetSerializedSize` | fsfw/serialize/SerialArrayListAdapter.h:42-51 | the announced size is the number of bytes written, in each order |
| `SerializeAdapters.GetElementsSize` | fsfw/serialize/SerialLinkedListAdapter.h:89-96 | the sum along the chain |
| `SerializeAdapters.DeserializeValue` | fsfw/serialize/SerializeAdapter.h:186-189 | result and position reached are those of the specification |
| `SerializeAdapters.DeserializeBuffer` | fsfw/serialize/SerialBufferAdapter.cpp:65-93 | length check, then the bytes; the adapter's own length becomes the one read if it can hold it, even if the bytes are missing |
| `SerializeAdapters.LengthIsRead` | fsfw/serialize/SerialBufferAdapter.cpp:71-88 | after a success it is that of the bytes read |
| `SerializeAdapters.DeserializeElements` | fsfw/serialize/SerialLinkedListAdapter.h:105-113 | the loop reads element after element and stops at the first failure |
| `SerializeAdapters.AcrossMachines` | fsfw/serialize/SerializeAdapter.h:101-158 | written on one machine, read on the other, if the order is given |
| `ParameterMatrix.PlaceIff` | fsfw/parameters/ParameterWrapper.cpp:217-224 | the place written is the place asked for if and only if index / columns is below 256 |
| `ParameterMatrix.FarCopyIff` | fsfw/parameters/ParameterWrapper.cpp:217-224 | a copy that does not fit where it was asked to go succeeds if and only if index / columns is 256 or more and it fits where the lower eight bits lead |
| `ParameterMatrix.FarIndexWritesFirstCell` | fsfw/parameters/ParameterWrapper.cpp:217-224 | one byte for index 256 of a matrix of one byte is accepted and goes to its only cell |
| `ParameterMatrix.VerdictTells` | fsfw/parameters/ParameterWrapper.cpp:203-281 | a copy is accepted exactly for equal, known types where it fits, and what is wrong first is told |
| `ParameterMatrix.CodeTells` | fsfw/globalfunctions/Type.cpp:110-148 | the type code names sign and size of the numbers |
| `ParameterMatrix.ElementOfDump` | fsfw/parameters/ParameterWrapper.cpp:94-110 | every element of a big-endian dump reads back |
| `ParameterMatrix.LittleEndianDumpIff` | fsfw/parameters/ParameterWrapper.cpp:129-133 | an element dumped in the other order reads back if and only if its bytes are the same both ways |
| `ParameterMatrix.LittleEndianExample` | fsfw/parameters/ParameterWrapper.cpp:129-133 | the number 1 is loaded as 256 |
| `ParameterMatrix.RepeatedIff` | fsfw/parameters/ParameterWrapper.cpp:269-278 | after a copy within memory the target holds the source's matrix if and only if all its rows are the same |
| `ParameterMatrix.DumpDescribed` | fsfw/parameters/ParameterWrapper.cpp:162-201 | a dump describes its type, size and elements, and what follows is left |
| `ParameterMatrix.DumpAndLoad` | fsfw/parameters/ParameterWrapper.cpp:94-266 | a big-endian dump describes the matrix, copyFrom at index 0 of a matrix of that type and size accepts it, and the result is the same matrix and no other |
| `ParameterMatrix.StreamPieces` | fsfw/parameters/ParameterWrapper.cpp:94-110 | elements of a stream dumped again come out as they were, or turned around where order and machine differ |
| `ParameterWrapper.ParameterWrapper.Set` | fsfw/parameters/ParameterWrapper.cpp:162-201 | succeeds exactly if the stream is long enough for what it describes |
| `ParameterWrapper.ParameterWrapper.DeserializeData` | fsfw/parameters/ParameterWrapper.cpp:112-141 | exactly the rectangle gets the stream's elements in row-major order, every other cell keeps its value |
| `ParameterWrapper.ParameterWrapper.CopyRows` | fsfw/parameters/ParameterWrapper.cpp:269-278 | a copy within memory puts the source's first row into every row of the rectangle |
| `ParameterWrapper.MemoryIsNeverCopied` | fsfw/parameters/ParameterWrapper.cpp:228-280 | a copy within memory never reports success |
| `ParameterWrapper.CopyTwoRows` | fsfw/parameters/ParameterWrapper.cpp:269-280 | the cells 1 and 2 of a column arrive as 1 and 1, with failure |
| `ParameterWrapper.ParameterWrapper.CopyFrom` | fsfw/parameters/ParameterWrapper.cpp:203-281 | all checks in their order; a success replaces exactly the addressed rectangle, a copy within memory fails and repeats its first row, any other failure changes nothing |
| `ParameterWrapper.ParameterWrapper.Deserialize` | fsfw/parameters/ParameterWrapper.cpp:149-160 | takes a description off the stream and copies what it describes, with the result and the effect on the cells of the two |
| `ParameterWrapper.ParameterWrapper.Serialize` | fsfw/parameters/ParameterWrapper.cpp:22-110 | succeeds exactly if the wrapper is set, its type known and the dump fits, and writes exactly the dump, of a matrix in memory or of the elements of a stream |
| `LeakyBucket.LevelIsWorstSuffix` | fsfw/fdir/FaultCounter.cpp:13-29 | a bucket's level is the largest excess of increments over decrements that any end of its history has |
| `LeakyBucket.FaithfulIff` | fsfw/fdir/FaultCounter.cpp:13-47 | after every operation of a run the count is the level of the history since the last alarm or clear, if and only if no 32-bit sum of the run wraps around |
| `LeakyBucket.CountIsWorstSuffix` | fsfw/fdir/FaultCounter.cpp:13-47 | on every such run the count is the largest excess of any end of that history |
| `LeakyBucket.SingleFaultsNeverWrap` | fsfw/fdir/FaultCounter.cpp:13-43 | faults counted one by one below the largest threshold never wrap |
| `LeakyBucket.AlarmRightIff` | fsfw/fdir/FaultCounter.cpp:31-43 | the alarm is raised exactly over the threshold if and only if count and amount add up below 2^32; otherwise it is missed |
| `LeakyBucket.AlarmIff` | fsfw/fdir/FaultCounter.cpp:31-43 | a fault raises the alarm if and only if its sum does not wrap and some end of the history exceeds the threshold |
| `LeakyBucket.WrapExample` | fsfw/fdir/FaultCounter.cpp:13-43 | a fault that leads ninety-five over the threshold and raises no alarm |
| `LeakyBucket.LargestThresholdNeverAlarms` | fsfw/fdir/FaultCounter.cpp:13-43 | at the largest threshold there is no alarm, and a sum that wraps loses the count |
| `FaultCounter.FaultCounter.Increment` | fsfw/fdir/FaultCounter.cpp:13-18 | adds modulo 2^32 and restarts the timer of an empty counter |
| `FaultCounter.FaultCounter.CheckForDecrement` | fsfw/fdir/FaultCounter.cpp:20-29 | on timeout restarts the timer and takes one off a counter that is not empty |
| `FaultCounter.FaultCounter.IncrementAndCheck` | fsfw/fdir/FaultCounter.cpp:31-43 | adds, and over the threshold raises the alarm and starts again |
| `DeviceFdir.ActiveIgnores` | fsfw/devicehandlers/DeviceHandlerFailureIsolation.cpp:236-256 | an event at an active or faulty device raises no counter and starts nothing |
| `DeviceFdir.EventOutcome` | fsfw/devicehandlers/DeviceHandlerFailureIsolation.cpp:30-118 | at an idle device: exactly which events have it given up, power-cycled or only asked about, with threshold and recovery counts; and exactly which faults are counted or forgotten |
| `DeviceFdir.ToleratedIff` | fsfw/devicehandlers/DeviceHandlerFailureIsolation.cpp:42-51 | strange replies in a row are tolerated up to the threshold and no further |
| `DeviceFdir.EndsIff` | fsfw/devicehandlers/DeviceHandlerFailureIsolation.cpp:236-256 | an action ends with the news of good health, or with a mode reached if it is no recovery, and with nothing else |
| `DeviceFdir.DecrementTakesOne` | fsfw/devicehandlers/DeviceHandlerFailureIsolation.cpp:138-142 | time takes one off each of the three counts that has waited long enough |
| `DeviceFdir.PassedOnIff` | fsfw/devicehandlers/DeviceHandlerFailureIsolation.cpp:112-116 | only an unknown event at an idle device is passed on, and changes nothing |
| `DeviceFdir.ReportsInOrder` | fsfw/devicehandlers/DeviceHandlerFailureIsolation.cpp:203-234 | an action is reported before the change of state it brings |
| `DeviceFdir.OneActionAtMost` | fsfw/devicehandlers/DeviceHandlerFailureIsolation.cpp:30-151 | a step takes at most one action, so its reports are that action and then the change of state |
| `DeviceFdir.QuietIff` | fsfw/devicehandlers/DeviceHandlerFailureIsolation.cpp:30-33 | while an action is under way a step takes no action and raises no count if and only if it is not a confirmed fault that can be counted or a confirmed switch |
| `DeviceFdir.QuietThroughoutIff` | fsfw/devicehandlers/DeviceHandlerFailureIsolation.cpp:30-63 | from the start of an action to the news that ends it every step is quiet if and only if no confirmation disturbs |
| `DeviceFdir.QuietWhileActive` | fsfw/devicehandlers/DeviceHandlerFailureIsolation.cpp:30-63 | and then no count has risen, no action was taken and the action is still under way |
| `DeviceFdir.ConfirmationIsNotIgnored` | fsfw/devicehandlers/DeviceHandlerFailureIsolation.cpp:120-136 | a confirmed fault can start a recovery during a shutdown |
| `DeviceFdir.TimedOutReally` | fsfw/timemanager/Countdown.cpp:26-34 | a timeout by the 32-bit clock is one by the unbounded clock |
| `DeviceFdir.TimedOutIff` | fsfw/timemanager/Countdown.cpp:26-34 | less than 2^32 milliseconds after its start it has timed out exactly after its time |
| `DeviceFdir.RecoverCounts` | fsfw/devicehandlers/DeviceHandlerFailureIsolation.cpp:144-151 | a recovery adds one to the recovery counter; one too many empties it and gives the device up, or wraps around at the largest threshold |
| `DeviceFdir.GivesUpIff` | fsfw/devicehandlers/DeviceHandlerFailureIsolation.cpp:144-151 | the device is given up exactly at the threshold, unless that is the largest number |
| `DeviceFdir.RecoveriesBounded` | fsfw/devicehandlers/DeviceHandlerFailureIsolation.cpp:144-151 | on every run on which the counter does not wrap around, recoveries since the device was last given up are at most the threshold plus the decrements, and those take their time |
| `DeviceFdir.SmallThresholdNeverOverflows` | fsfw/devicehandlers/DeviceHandlerFailureIsolation.cpp:144-151 | and it never wraps around below the largest threshold |
| `DeviceFdir.DefaultsBounded` | fsfw/devicehandlers/DeviceHandlerFailureIsolation.h:37-42 | with the defaults: two recoveries at once, then one every 180 seconds |
| `DeviceHandlerFailureIsolation.DeviceHandlerFailureIsolation.EventReceived` | fsfw/devicehandlers/DeviceHandlerFailureIsolation.cpp:30-118 | the event's step as specified, with the actions and changes of state reported, in order, and the event handled unless it is unknown |
| `DeviceHandlerFailureIsolation.DeviceHandlerFailureIsolation.EventConfirmed` | fsfw/devicehandlers/DeviceHandlerFailureIsolation.cpp:120-136 | the confirmed fault's step as specified |
| `DeviceHandlerFailureIsolation.DeviceHandlerFailureIsolation.HandleRecovery` | fsfw/devicehandlers/DeviceHandlerFailureIsolation.cpp:144-151 | clears the fault counters, then recovers or gives up |
| `DeviceHandlerFailureIsolation.DeviceHandlerFailureIsolation.IsFdirInActionOrAreWeFaulty` | fsfw/devicehandlers/DeviceHandlerFailureIsolation.cpp:236-256 | tells whether to ignore the event, and ends an action on its news |
| `DeviceHandlerFailureIsolation.DeviceHandlerFailureIsolation.DecrementFaultCounters` | fsfw/devicehandlers/DeviceHandlerFailureIsolation.cpp:138-142 | checks all three counters |

## Left out

- TcReceiver.InOrderExactlyOnce: what is handed on after a Set V(R) command that names another frame than the next one, which gives the sequence another number.
- TcReceiver.PacketsExactlyOnce: bypass data on the same MAP channel, which mixes with the segments there; on other channels it is covered.
- Queues, stores, mutexes, the object manager and log output: a message sent is an element of a sequence, and the results of calls to them are parameters. A store or queue that fails is not modelled.
- Frame delimiting and fill removal, virtual channel demultiplexing above one channel and frame statistics: the model starts at one delimited frame.
- VirtualChannelReception.VirtualChannelReception.DoFarm: the halves of the window are at most 127, which every window width of eight bits gives; that odd widths are refused at initialization is not modelled.
- TcTransferFrame.TcTransferFrameLocal.constructor: a BC frame larger than the buffer, and a forced checksum whose place lies outside of the buffer, write out of bounds and are excluded.
- MapPacketExtraction.MapPacketExtraction.SendCompletePacket: the store and the distributor's queue always take the packet.
- DeviceReaches.ReachesTarget: children that set other modes than the one they are asked for, which Settles covers as long as they bring the transition forward.
- DeviceHandlerBase.DeviceHandlerBase.HandleModeCommand: a child's own isModeCombinationValid; the default one is modelled, which knows OFF, ON, NORMAL and RAW with submode 0. The delay of a transition is a parameter.
- Device handler: periodic replies, replies under another id than their command's, several replies to one command, raw commands, wiretapping, the thermal pool, housekeeping and events.
- DeviceRuns.OneAnswerInTime: reply interpreters that send messages of their own, and periodic replies.
- IndexedRingMemoryArray.IndexedRingMemoryArray.constructor: a memory too small for its index and one block, which the code only logs before it goes on, is excluded; so is the saved form of the index.
- IndexedRing.ReadsOldestFirst: steps to the next block while reading is under way, which empty a block under the reader; updatePreviousWriteSize, which adds without a check.
- Ring buffers that overwrite old data: the read position is not moved on an overrun.
- DleEncoder.DecodeFrame: what it finds where it reads past the end of its source.
- SerializeAdapters.SerializeValue: buffer adapters without a buffer, which fail, and printed counts of linked lists; the size that a failed serialization leaves behind.
- SerializeAdapters.DeserializeValue: the value read is a result, not written into an existing object, so what a failed read leaves half changed is not captured.
- ParameterWrapper.ParameterWrapper.CopyFrom: matrices without columns, which divide by zero, and copying a matrix in memory onto itself, whose bytes would overlap.
- ParameterWrapper.ParameterWrapper.Set: which fields a failed call has already changed.
- DeviceHandlerFailureIsolation.DeviceHandlerFailureIsolation.EventReceived: events not delivered because the device is under external control.
- Fault counter parameters changed in flight.
- Assemblies, event matching, packet services, RMAP and all coordinate computations.
