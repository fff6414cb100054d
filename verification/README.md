# NIC out-of-band firmware: a verified model

The firmware sits between a server's BMC and a network adapter. It receives MCTP
packets over SMBus and reassembles them, parses PLDM requests and answers them, polls
temperature sensors into a cache shared between threads, keeps an event log, and
writes firmware images to a serial NOR flash. This project models that behaviour and
proves what it guarantees, and where it does not, exactly when.

`dafny verify dfyconfig.toml` checks everything.

| file | part |
|---|---|
| `Crc32`, `Crc32Bits`, `Crc32Division`, `Crc32Detection`, `Crc32Order` | the CRC-32 code, its bit-serial form as a linear map, its identity with polynomial division, what it detects, the order of its generator |
| `Rtos`, `NorFlash`, `SpiFlashCmd`, `NicFlashMgr`, `FlashStaging`, `FlashRuns` | bounded queues and a wrapping tick, a NOR device driven by SPI frames, the command layer, the staging writer, what the flash holds afterwards, runs of updates |
| `Mctp`, `MctpRuns`, `MctpFaults`, `MctpStream` | the receiver, its state against the whole packet history, fragmentation, loss and duplication, messages too long for their packet, streams of messages over a lossy link |
| `Pldm`, `ProtocolHdlr`, `Dispatch` | the message codec, the protocol stack, request dispatch and its byte layouts |
| `SensorMgr`, `SensorCache`, `PollTrigger`, `SensorAnswers` | calibration and unrolled polling, the mutex-protected cache under interleaving, the timer flag, the BMC task and the cache side by side |
| `NicGenMgr`, `IsrHandlers`, `BmcSystem`, `BmcRuns`, `BmcMgr`, `UpdatePath` | the circular event log, the interrupt handlers, queues and tasks as a transition system, what its runs guarantee and where they fail, the task's code refining it, and the system with its flash device |

Code that updates state is a class or a method with a loop, proved against a function on
values; the theorems about whole runs are lemmas about those functions.

## What the proofs say about the code

* Two wrong bits go unnoticed by the checksum exactly when their distance is a multiple of
  2^32 - 1; any error within 32 consecutive bits is noticed.
* A staging write that reports success is sure to have stored its image exactly when it
  was empty, or its offset was sector-aligned, its size at most the device's, and the
  device ready at the start. From a page-aligned offset inside a sector, on a ready device
  and unless the write comes round the end of the device, the bytes before the first sector
  boundary are the image ANDed with the old contents. From any other offset nothing is ever
  erased and every 256-byte chunk is rotated within its page. Addresses wrap at 24 bits; a
  longer image is written over itself.
* A timeout leaves the device busy, and the next update does not poll before it starts:
  unless the device finishes by itself in time, its first erase, or off a sector boundary
  its first page, is ignored, and it still reports success. It has stored its image exactly
  if the device did finish in time or the first sector needed no erase. The update after it
  is sound again, and repeating a sector-aligned update on a ready device always is.
* An update fails exactly when one of its transfers was reported failed. Without a failed
  transfer it succeeds, or times out after a full wait with the device still busy.
* In every run the updates served are those of the update requests answered with success,
  in order, with their offsets and sizes. A request with fewer than eight payload bytes is
  granted, but its update writes nothing and succeeds.
* The sequence check notices the loss of k consecutive middle fragments exactly when k is
  not a multiple of four; otherwise the shortened message is delivered. What is left of two
  messages after a loss across their boundary is delivered as one exactly if the next
  sequence number is the one that was due, which for messages numbered on from each other
  again means multiples of four. As long as no four packets in a row are lost from such a
  stream, exactly the messages that arrive whole are delivered.
* A message in one packet is delivered again if the packet is repeated; a message in
  several packets is not.
* A report that the BMC has gone silent is always right. A report that it is alive is
  right exactly while the silence is shorter than 2^32 ms; silence of 2^32 ms is reported
  as life.
* The reassembly buffer holds 256 bytes but the packet it is copied to holds 64. Messages
  of 65 to 256 bytes overrun the packet at their last fragment, already with three full
  fragments; longer ones are dropped. The model's runs halt exactly when the blocks handled
  contain a closed run of more than 64 payload bytes. A BMC that keeps every message within
  64 bytes can still cause one, if four packets across two of its messages are lost.
* The turn of the task's loop during which arrivals stop empties both queues exactly if
  nothing had arrived behind the task's place in the loop. A block that arrives just after
  the BMC queue was found empty waits for the next wake-up, whose turn empties everything.
* Every sensor answer carries the asked sensor's record after a whole number of the
  poller's updates, at least those finished when its request was taken from the queue; a
  torn record never gets out.

## Assumptions

* SPI transfers, sensor readings, transmissions and interrupts are arbitrary. A transfer
  reported as failed may have changed the bytes its command addresses in any way.
* An erase or program changes the memory when the device accepts it, and only the busy
  flag is delayed. A busy device may finish before any transfer.
* Between two looks at the clock at least 1 ms and at most the clock's longest gap pass.
  Timeout and longest gap together are at most 2^32 ms; this is exactly when polling a
  device that stays busy is sure to end.
* Structures lie in memory as on the little-endian target, without padding beyond their
  declared reserved fields.

## Model

| member | source | states |
|---|---|---|
| Crc32.Crc32Byte | components/common/include/common_types.h:185-198 | the eight masked shifts take one byte into the register as the step function does |
| Crc32.Crc32Compute | components/common/include/common_types.h:200-218 | the four-way unrolled loop plus tail is a byte-by-byte fold, for every length |
| Crc32.MaskSelectsPoly | components/common/include/common_types.h:189 | the negated-low-bit mask adds the polynomial exactly when a 1 is shifted out |
| Crc32Bits.FoldIsFeed | components/common/include/common_types.h:185-218 | the byte-wise fold equals feeding the message's bits one at a time, least significant first |
| Crc32Bits.FeedLinear | components/common/include/common_types.h:185-198 | feeding is linear over GF(2) in register and message together |
| Crc32Bits.FeedInjective | components/common/include/common_types.h:185-198 | equal trailing data never brings two different registers together |
| Crc32Division.RemainderIsRegister | components/common/include/common_types.h:200-218 | long division of what is pending leaves the register after the remaining bits |
| Crc32Division.CrcIsPolynomialRemainder | components/common/include/common_types.h:200-218 | the checksum is the complemented remainder of the message polynomial under the IEEE 802.3 generator, for every byte string |
| Crc32Detection.CrcXor | components/common/include/common_types.h:200-218 | for equal lengths the XOR of two checksums depends only on the XOR of the messages |
| Crc32Detection.BurstDetected | components/common/include/common_types.h:200-218 | messages that differ only within 32 consecutive bits have equal checksums only if they are equal |
| Crc32Detection.LongerBurst | components/common/include/common_types.h:200-218 | within 33 bits, exactly one difference goes unnoticed: the generator itself |
| Crc32Detection.ResidueIffCrc | components/common/include/common_types.h:200-218 | a message followed by four bytes has checksum 0x2144DF1C exactly when they are its checksum, little-endian |
| Crc32Order.MulIsProduct | components/common/include/common_types.h:185-198 | the product of two registers modulo the generator, as computed on machine words, is Horner's rule on the register step |
| Crc32Order.PowerAdds | components/common/include/common_types.h:185-198 | registers that hold powers of x multiply by adding exponents |
| Crc32Order.ReturnsIff | components/common/include/common_types.h:185-198 | the powers of x modulo the generator return to 1 at the multiples of 2^32 - 1 and nowhere else |
| Crc32Order.TwoBitErrors | components/common/include/common_types.h:200-218 | two wrong bits leave the checksum unchanged if and only if their distance is a multiple of 2^32 - 1 |
| Rtos.TickDiffWraps | components/rtos_hal/src/rtos_hal.c:209-212 | unsigned tick subtraction is true elapsed time modulo 2^32 |
| SpiFlashCmd.AddressRoundTrip | components/spi_flash_cmd/src/spi_flash_cmd.c:12-21 | the device decodes the low 24 bits of the address that was sent |
| NorFlash.Frames | components/spi_flash_cmd/src/spi_flash_cmd.c:12-102 | the device reads the command bytes 0x06, 0x05, 0x20 and 0x02 with a big-endian 24-bit address as write enable, status, sector erase and page program |
| NorFlash.BurnDigits | components/spi_flash_cmd/src/spi_flash_cmd.c:58-72 | programming leaves a bit 1 exactly where it was 1 and is programmed 1 |
| SpiFlashCmd.WriteEnableCmd | components/spi_flash_cmd/src/spi_flash_cmd.c:79-83 | sets the latch of a ready device |
| SpiFlashCmd.SectorEraseCmd | components/spi_flash_cmd/src/spi_flash_cmd.c:74-77 | the device receives an erase of the sector at the 24-bit address |
| SpiFlashCmd.ProgramFrame | components/spi_flash_cmd/src/spi_flash_cmd.c:64-71 | the transmit array holds opcode, address and data |
| SpiFlashCmd.PageProgramCmd | components/spi_flash_cmd/src/spi_flash_cmd.c:58-72 | more than a page is refused untouched; otherwise the device receives a program of exactly those bytes |
| SpiFlashCmd.PollEndsIff | components/spi_flash_cmd/src/spi_flash_cmd.c:85-102 | polling a device that stays busy ends, on every schedule, if and only if timeout and longest gap fit the 32-bit tick |
| SpiFlashCmd.WaitReady | components/spi_flash_cmd/src/spi_flash_cmd.c:85-102 | each look at the status is one transfer; success exactly when the last one was answered ready, failure exactly when the last one was reported failed, and every one before found the device busy; timeout only on a busy device after the full true time, across tick wraps; terminates |
| NicFlashMgr.FlashMgr.EraseSector | components/nic_flash_mgr/src/nic_flash_mgr.c:49-60 | write enable, erase and wait erase the sector of a ready device and change nothing on one found busy; it fails exactly when one of its transfers was reported failed, and times out only after 3000 ms with the device busy; a failure leaves everything outside the sector alone |
| NicFlashMgr.FlashMgr.ProgramPage | components/nic_flash_mgr/src/nic_flash_mgr.c:67-74 | write enable, program and wait program the chunk into a ready device and change nothing on one found busy; it fails exactly when one of its transfers was reported failed, and times out only after 100 ms with the device busy; a failure leaves everything outside the page alone |
| NicFlashMgr.FlashMgr.WriteImageToStaging | components/nic_flash_mgr/src/nic_flash_mgr.c:40-82 | from a ready or busy device: success stages the image and leaves the device ready; it fails exactly when one of its transfers was reported failed, and any failure puts only the interrupted round's bytes in doubt; a successful write kept the device's rules if and only if its first operation did not find the device busy; an image of no bytes makes no transfer |
| NicFlashMgr.FlashMgr.HandleUpdateStart | components/nic_flash_mgr/src/nic_flash_mgr.c:84-107 | success leaves the manager idle with the image staged, anything else in error and still active; it fails exactly when one of its transfers was reported failed, and a timeout leaves the device busy |
| NicFlashMgr.FlashMgr.HandleUpdateAbort | components/nic_flash_mgr/src/nic_flash_mgr.c:109-114 | an abort leaves the manager idle |
| NicFlashMgr.FlashMgr.ServeCommand | components/nic_flash_mgr/src/nic_flash_mgr.c:133-155 | one command, from any state of the device, is a turn that records its transfers and its time: an update stages or is interrupted, by a failed transfer or a full wait; the others make no transfer; between commands the manager is idle, or in error with the update active |
| NicFlashMgr.FlashMgr.Serve | components/nic_flash_mgr/src/nic_flash_mgr.c:133-155 | the task's loop over any commands is a chain of such turns, whatever fails in between, and the transfers of the turns are all there were |
| FlashStaging.StagedByte | components/nic_flash_mgr/src/nic_flash_mgr.c:47-79 | every byte of the device after any number of rounds within one lap, for every offset, image and earlier contents, from a ready or busy device |
| FlashStaging.WritesCompose | components/nic_flash_mgr/src/nic_flash_mgr.c:47-79 | a write is the write of its first pages followed by the write of the rest, so the rows on one lap around the device describe the last lap of any write |
| FlashStaging.PageAlignedWrite | components/nic_flash_mgr/src/nic_flash_mgr.c:47-82 | exact image from the first sector boundary, old AND image before it, 0xFF to the end of the last erased sector, the rest unchanged, round the end of the device |
| FlashStaging.SectorAlignedWrite | components/nic_flash_mgr/src/nic_flash_mgr.c:47-82 | a sector-aligned write stores exactly the image, whatever was there |
| FlashStaging.LastLapStored | components/nic_flash_mgr/src/nic_flash_mgr.c:47-82 | of a sector-aligned image of any length the last lap is stored |
| FlashStaging.UnalignedWrite | components/nic_flash_mgr/src/nic_flash_mgr.c:48-60 | off a page boundary nothing is erased and image bytes land rotated within their page; a busy device ignores the first |
| FlashStaging.BusyWrite | components/nic_flash_mgr/src/nic_flash_mgr.c:47-82 | a sector-aligned write that finds the device busy reports success with its first sector unerased and the rest as it should be |
| FlashStaging.StoresIff | components/nic_flash_mgr/src/nic_flash_mgr.c:47-82 | every image over any contents is stored if and only if the size is zero, or the offset is sector-aligned, the size at most the device's and the device ready; for all offsets and sizes |
| FlashStaging.InterruptedElsewhere | components/nic_flash_mgr/src/nic_flash_mgr.c:50-74 | however a write stops, a byte that no round so far could touch is unchanged |
| FlashStaging.InterruptedPrefix | components/nic_flash_mgr/src/nic_flash_mgr.c:50-74 | from a sector-aligned offset the completed pages stay intact whatever failed; started busy, from the second sector on |
| FlashStaging.RetryRecovers | components/nic_flash_mgr/src/nic_flash_mgr.c:84-107 | repeating an interrupted sector-aligned update of any length on a ready device gives what one clean run would have given |
| FlashRuns.BusyHasACause | components/nic_flash_mgr/src/nic_flash_mgr.c:84-107 | in every run of commands a device found busy was so at the start, or an update failed and none has succeeded since |
| FlashRuns.FailureHasACause | components/nic_flash_mgr/src/nic_flash_mgr.c:47-82 | in every run an update fails if and only if one of its transfers was reported failed; with none failed it succeeds, or times out after at least 100 ms with the device still busy |
| FlashRuns.PreparedUpdateStores | components/nic_flash_mgr/src/nic_flash_mgr.c:84-107 | in every run a sector-aligned update that succeeds, with no failure since the last success, has stored its image |
| FlashRuns.UpdateAfterTimeout | components/nic_flash_mgr/src/nic_flash_mgr.c:49-60 | the first update after a timeout, if it succeeds, has stored its image if and only if the device finished by itself in time or the first sector could take it without an erase |
| Mctp.Reassembler.constructor | components/protocol_hdlr/src/mctp.c:37-44 | initialisation gives the empty, inactive receiver |
| Mctp.Reassembler.Reset | components/protocol_hdlr/src/mctp.c:113-118 | reset gives the same state |
| Mctp.Reassembler.ProcessRx | components/protocol_hdlr/src/mctp.c:46-98 | buffer, offset, sequence and flag follow the receiver's step function, in place |
| Mctp.FlagsByte | components/protocol_hdlr/src/mctp.c:19-32 | the flags byte is start bit, end bit, two bits of sequence number and four of tag |
| Mctp.FrameTx | components/protocol_hdlr/src/mctp.c:100-111 | if the packet fits the buffers, the block is header, start and end flags, payload, and the rest of the buffer is untouched; exactly when it does fit |
| MctpRuns.OpenRunGathers | components/protocol_hdlr/src/mctp.c:58-80 | from any state an open run leaves the receiver holding exactly that run, with nothing delivered |
| MctpRuns.ClosedRunDelivers | components/protocol_hdlr/src/mctp.c:58-95 | from any state a closed run delivers its payload with its last packet and nothing earlier |
| MctpRuns.StateIsOpenRun | components/protocol_hdlr/src/mctp.c:46-98 | over every history the receiver is active if and only if the history ends in an open run, and then holds it |
| MctpRuns.DeliveryIsClosedRun | components/protocol_hdlr/src/mctp.c:82-95 | over every history a packet delivers if and only if it closes a run, and then that run's payload |
| MctpFaults.FragmentsClosed | components/protocol_hdlr/src/mctp.c:19-32 | cutting a message into packets gives a closed run that carries it |
| MctpFaults.FragmentsDelivered | components/protocol_hdlr/src/mctp.c:46-98 | every message of at most 64 bytes, however cut and from any state, is delivered at its last fragment |
| MctpFaults.FrameIsFragment | components/protocol_hdlr/src/mctp.c:100-111 | a response frame is the one fragment of an uncut message: start and end set, number and tag 0 |
| MctpFaults.MessageOutcome | components/protocol_hdlr/src/mctp.c:72-95 | a message of any length, however cut and from any state: delivered up to 64 bytes, overrunning the packet from 65 to 256, dropped beyond |
| MctpFaults.ThreeFragmentsOverrun | components/protocol_hdlr/src/mctp.c:82-90 | three full fragments copy 84 bytes into a packet of 64 |
| MctpFaults.LossUndetectedIff | components/protocol_hdlr/src/mctp.c:67-71 | losing k middle fragments prevents delivery if and only if k mod 4 is not 0; otherwise what is left is delivered |
| MctpFaults.LossAcrossMessages | components/protocol_hdlr/src/mctp.c:58-80 | of two messages with any numbers, what a loss across their boundary leaves is delivered as one message if and only if the next sequence number is the one due and the buffer holds it all |
| MctpFaults.LossAcrossContinuing | components/protocol_hdlr/src/mctp.c:58-80 | when the second message is numbered on from the first, that is if and only if a multiple of four packets is lost |
| MctpFaults.LossOfThreeUnnoticed | components/protocol_hdlr/src/mctp.c:58-80 | when both are numbered from the same start, three lost packets can go unnoticed |
| MctpFaults.ShortMessagesOverrun | components/protocol_hdlr/src/mctp.c:82-90 | two messages within 64 bytes, four packets across them lost, overrun the packet |
| MctpFaults.DuplicateMiddleLoses | components/protocol_hdlr/src/mctp.c:67-71 | repeating a middle fragment always loses the message |
| MctpFaults.DuplicateFirstHarmless | components/protocol_hdlr/src/mctp.c:58-63 | repeating a first fragment that is not the last changes nothing |
| MctpFaults.DuplicateLastDeliversNothing | components/protocol_hdlr/src/mctp.c:65-95 | repeating the last of several fragments delivers nothing more |
| MctpFaults.DuplicateSingleDeliversTwice | components/protocol_hdlr/src/mctp.c:58-95 | a one-packet message is delivered as often as it arrives |
| MctpFaults.SwapLoses | components/protocol_hdlr/src/mctp.c:67-71 | swapping neighbouring middle fragments loses the message |
| MctpStream.DeliveriesAreMessages | components/protocol_hdlr/src/mctp.c:46-98 | of any stream of messages numbered on from each other, with never four packets in a row lost, exactly the messages that arrive whole are delivered, each as it was sent |
| Pldm.PldmParse | components/protocol_hdlr/src/pldm.c:16-36 | fewer than three bytes fail; otherwise header, zero completion code and the remaining bytes |
| Pldm.ParseBytes | components/protocol_hdlr/src/pldm.c:16-36 | three header bytes and any data, also none, are a message with these fields and completion code 0; fewer bytes are none |
| Pldm.PldmBuildResponse | components/protocol_hdlr/src/pldm.c:38-58 | request header, completion code, data cut to 60 bytes; the length is taken as given when there is no data pointer |
| ProtocolHdlr.ProcessRx | components/protocol_hdlr/src/protocol_hdlr.c:26-41 | true exactly when the block completes a PLDM message, which is then in the output |
| ProtocolHdlr.SendResponse | components/protocol_hdlr/src/protocol_hdlr.c:43-60 | exactly when the response fits the transmit buffer, and then one transmission attempt of the framed response, whose result is returned |
| ProtocolHdlr.ResponseRoundTrip | components/protocol_hdlr/src/pldm.c:16-58 | a framed response received from any state gives back identity, completion code and data |
| ProtocolHdlr.RequestIffClosedRun | components/protocol_hdlr/src/protocol_hdlr.c:26-41 | over every history a request comes out if and only if a closed run carries it |
| ProtocolHdlr.RequestBytes | components/protocol_hdlr/src/protocol_hdlr.c:26-41 | over every history, on the payload bytes of the run a block closes: from 3 to 64 of them are the request with those fields and data, fewer are none, more overrun the packet; a block that closes no run gives nothing |
| ProtocolHdlr.OversizeIffOverlongRun | components/protocol_hdlr/src/mctp.c:82-90 | over every history the packet is overrun if and only if the block closes a run of more than 64 payload bytes |
| SensorMgr.PopulatedCalibration | components/sensor_mgr/src/sensor_mgr.c:38-54 | for populated sensors calibration is defined on all readings, never wraps, and is truncating division by 16 |
| SensorMgr.CriticalIff | components/sensor_mgr/src/sensor_mgr.c:56-66 | a populated sensor is normal exactly when -640 < raw < 1360 and critical otherwise |
| SensorMgr.CalibrationMonotone | components/sensor_mgr/src/sensor_mgr.c:49-54 | calibration keeps order under C's truncating division for every table entry whose results do not wrap |
| SensorMgr.PolledAt | components/sensor_mgr/src/sensor_mgr.c:119-129 | each polled sensor shows its own reading, a failed read keeps its record |
| SensorMgr.PolledFields | components/sensor_mgr/src/sensor_mgr.c:81-84 | what a poll leaves in each record, field by field: the reading, its calibrated value, normal exactly between the sensor's two thresholds and critical otherwise, the time |
| SensorMgr.Poller.PollSensor | components/sensor_mgr/src/sensor_mgr.c:121-129 | polling one more sensor extends the one-at-a-time poll by it |
| SensorMgr.Poller.PollAllSensors | components/sensor_mgr/src/sensor_mgr.c:68-131 | the unrolled loop plus tail is polling one sensor at a time, for every count up to 16 |
| SensorCache.FourFields | components/sensor_mgr/src/sensor_mgr.c:81-84 | the four field writes together are one whole update |
| SensorCache.StepInv | components/sensor_mgr/src/sensor_mgr.c:80-85 | mutual exclusion, the poller's partial record and every reader's partial copy are kept by every step |
| SensorCache.RunInv | components/sensor_mgr/src/sensor_mgr.c:68-201 | the invariant holds in every reachable state with any number of readers |
| SensorCache.SnapshotIsPrefix | components/sensor_mgr/src/sensor_mgr.c:195-201 | every read, single or bulk, is the cache after a whole number of commits made between its call and its return |
| SensorCache.ReadsConsistent | components/sensor_mgr/src/sensor_mgr.c:183-193 | no reader gets a record whose scaled value or state does not belong to its raw value |
| SensorCache.PolledIsReplay | components/sensor_mgr/src/sensor_mgr.c:68-131 | the polling loop's effect on the table is the replay of one commit per successful read |
| SensorCache.ReplayIsLatest | components/sensor_mgr/src/sensor_mgr.c:68-131 | after any commits each record holds its sensor's last reading, its sixteenth truncated toward zero, its state and time, and zeros before the first |
| SensorCache.TornInside | components/sensor_mgr/src/sensor_mgr.c:80-85 | inside the critical section the shared record can be torn, so the mutex is needed |
| PollTrigger.NoLostTrigger | components/sensor_mgr/src/sensor_mgr.c:134-172 | whenever the flag is down and the task is not about to poll, a poll has started since the timer last fired |
| PollTrigger.NoSpuriousPoll | components/sensor_mgr/src/sensor_mgr.c:167-172 | the timer has fired at least once for every poll started |
| PollTrigger.PollFollows | components/sensor_mgr/src/sensor_mgr.c:167-172 | once the flag is up a poll starts within five task steps, however often the timer fires |
| NicGenMgr.SelLog.LogSelEvent | components/nic_gen_mgr/src/nic_gen_mgr.c:84-96 | the circular table stands for the history with the new entry |
| NicGenMgr.SelLog.HandleNicEvent | components/nic_gen_mgr/src/nic_gen_mgr.c:98-103 | a NIC event is logged with its type and data |
| NicGenMgr.SelLog.EntriesAreRecent | components/nic_gen_mgr/src/nic_gen_mgr.c:26-37 | reading back from head gives exactly the last min(n, 32) entries in order |
| IsrHandlers.CopyBlock | components/isr_handlers/src/isr_handlers.c:44-60 | the clamp and the unrolled copy give the first 32 bytes at most |
| IsrHandlers.BmcI2cRxIsr | components/isr_handlers/src/isr_handlers.c:40-65 | the clamped block is queued, or lost only when the queue is full or absent |
| IsrHandlers.NicAlertIsr | components/isr_handlers/src/isr_handlers.c:68-82 | a hardware error event is queued, or lost only when the queue is full or absent |
| Dispatch.UpdateCommandCarries | components/bmc_mgr/src/bmc_mgr.c:102-114 | an update request's little-endian offset and size reach the flash command unchanged |
| Dispatch.UpdateBytes | components/bmc_mgr/src/bmc_mgr.c:98-114 | the offset and size of the posted command, on the request's bytes: the first eight, each number low byte first, or 0 and 0 if there are fewer |
| Dispatch.AnswerOf | components/bmc_mgr/src/bmc_mgr.c:73-130 | how each kind of request is answered, on its bytes and the length of the flash queue |
| Dispatch.UnpackPack | components/bmc_mgr/src/bmc_mgr.c:83-86 | the record's 16 bytes give back raw, scaled, state and timestamp |
| Dispatch.PackBytes | components/bmc_mgr/src/bmc_mgr.c:83-86 | every one of the record's 16 bytes |
| BmcSystem.OutcomeFacts | components/bmc_mgr/src/bmc_mgr.c:75-130 | which requests succeed, fail or are unknown, which post a command, and how much data each answer has |
| BmcSystem.StepInv | components/bmc_mgr/src/bmc_mgr.c:178-209 | queues, requests, order and time facts are kept by every interrupt and task step |
| BmcSystem.RunInv | components/bmc_mgr/src/bmc_mgr.c:171-210 | they hold in every reachable state of every run |
| BmcSystem.Conservation | components/bmc_mgr/src/bmc_mgr.c:188-201 | for each queue, accepted is processed, then in hand, then queued: nothing lost, repeated or reordered |
| BmcSystem.EachRequestAnsweredOnce | components/bmc_mgr/src/bmc_mgr.c:69-134 | each parsed request has exactly one answer, in order, of 8 or 24 bytes |
| BmcSystem.FlashCommandsFromUpdates | components/bmc_mgr/src/bmc_mgr.c:98-120 | the queued flash commands are those of the successful update requests, one to one |
| BmcSystem.NicOnlyAfterBmcDrained | components/bmc_mgr/src/bmc_mgr.c:187-201 | every NIC event is taken after the BMC queue was found empty, with only NIC events in between |
| BmcSystem.TurnsInOrder | components/bmc_mgr/src/bmc_mgr.c:178-209 | the task's record is turns of the loop: wake, BMC blocks until empty, NIC events until empty, one liveness verdict |
| BmcSystem.LogIsWhatHappened | components/bmc_mgr/src/bmc_mgr.c:199-208 | the log's history is the handled events and liveness misses in order |
| BmcSystem.LivenessVerdicts | components/bmc_mgr/src/bmc_mgr.c:56-64 | every verdict of every run is life if and only if the true silence modulo 2^32 is below 5000 ms; so silence reported is always true, and life is right exactly below 2^32 ms |
| BmcRuns.RefusedIffFull | components/isr_handlers/src/isr_handlers.c:62-64 | a block, an alert or an update command is refused if and only if its queue holds its depth of 8, 4 or 2 |
| BmcRuns.AcceptedIsAdmitted | components/isr_handlers/src/isr_handlers.c:40-82 | what the queues accept is exactly the clamped blocks and alerts of the interrupts not refused, in order |
| BmcRuns.AnswersOnTheWire | components/bmc_mgr/src/bmc_mgr.c:69-134 | every answer of every run, byte by byte: framing, the request's three identifying bytes, the completion code, and data only for a successful reading |
| BmcRuns.LogHoldsAlertsAndMisses | components/bmc_mgr/src/bmc_mgr.c:199-208 | in every run the log holds only hardware error alerts and liveness misses |
| BmcRuns.HaltsIffOverrun | components/protocol_hdlr/src/mctp.c:82-90 | a run halts if and only if the blocks handled contain a message of more than 64 bytes |
| BmcRuns.ThreeFragmentsHalt | components/protocol_hdlr/src/mctp.c:82-90 | three full fragments in a row halt the next turn |
| BmcRuns.DrainsEnd | components/bmc_mgr/src/bmc_mgr.c:188-209 | from any state, once arrivals stop the loops end, leaving exactly what had arrived behind the loop that would have drained it |
| BmcRuns.TurnEmptiesIff | components/bmc_mgr/src/bmc_mgr.c:188-209 | the turn in which arrivals stop ends with both queues empty if and only if nothing is queued behind the task's place in it |
| BmcRuns.WakeDrains | components/bmc_mgr/src/bmc_mgr.c:178-209 | from waiting, one wake-up empties both queues, or a message too long halts it |
| BmcRuns.LateBlockIsLeft | components/bmc_mgr/src/bmc_mgr.c:188-209 | a run whose turn ends with a block still queued |
| BmcRuns.SilenceReported | components/bmc_mgr/src/bmc_mgr.c:61-64 | a silence of any length is reported as life if and only if it is below 5000 ms modulo 2^32; one of 2^32 ms is |
| BmcMgr.ReadSensor | components/bmc_mgr/src/bmc_mgr.c:79-91 | a reading request's completion code and data, whatever the queues hold; Dispatch.AnswerOf and SensorAnswers.SensorAnswerBytes say which sensor's, on the request's bytes |
| BmcMgr.RequestUpdate | components/bmc_mgr/src/bmc_mgr.c:98-120 | an update request's command is queued, or refused by a full queue; Dispatch.UpdateBytes says which command, on the request's bytes |
| BmcMgr.Manager.NoteLiveness | components/bmc_mgr/src/bmc_mgr.c:189 | the liveness update is a step of its own, before the block is handled |
| BmcMgr.DispatchPldm | components/bmc_mgr/src/bmc_mgr.c:69-134 | one answer is sent and at most one flash command queued, as the request and the queue decide |
| BmcMgr.Manager.HandleBlock | components/bmc_mgr/src/bmc_mgr.c:191-195 | protocol stack and dispatch together are one step of the transition system |
| BmcMgr.Manager.DrainBmcQueue | components/bmc_mgr/src/bmc_mgr.c:188-196 | the first loop is a run of the transition system without a wake-up and ends with the BMC queue found empty |
| BmcMgr.Manager.DrainNicQueue | components/bmc_mgr/src/bmc_mgr.c:199-201 | the second loop is a run of the transition system without a wake-up and ends with the NIC queue found empty |
| BmcMgr.Manager.TaskIteration | components/bmc_mgr/src/bmc_mgr.c:178-209 | one turn of the task's loop is a run of the transition system with exactly one wake-up, in which only the arrivals it was offered arrive, in order, and the rest are handed back |
| BmcMgr.Manager.CodeStaysInvariant | components/bmc_mgr/src/bmc_mgr.c:171-210 | every invariant of the transition system's runs holds of the code's state |
| BmcMgr.Manager.LogReadBack | components/nic_gen_mgr/src/nic_gen_mgr.c:84-96 | the table reads back as the last 32 alerts and misses of the run |
| UpdatePath.TurnsServeRequests | components/bmc_mgr/src/bmc_mgr.c:98-120 | in every run of the system with its device, the flash task's turns serve the successful update requests, in order, with their offsets and sizes, and the device holds the effect of these turns |
| UpdatePath.TurnsCarryRequestBytes | components/bmc_mgr/src/bmc_mgr.c:98-120 | in every such run, on the bytes of the granted request: with eight or more the first four are the offset and the next four the size of what its turn writes; with fewer its turn makes no transfer, succeeds and leaves the device unchanged |
| UpdatePath.GrantedUpdateIsStored | components/nic_flash_mgr/src/nic_flash_mgr.c:133-155 | in every such run a granted sector-aligned update served with success and no failure behind it has stored an image of the requested size at the requested offset |
| SensorAnswers.PartsAreRuns | components/bmc_mgr/src/bmc_mgr.c:79-91 | the task and the cache side by side are runs of the two systems, so what holds of those holds here |
| SensorAnswers.JointRunInv | components/sensor_mgr/src/sensor_mgr.c:183-193 | the task's read goes through the mutex, and what it returned is a record between its call and now, in every reachable state |
| SensorAnswers.SensorAnswersFresh | components/sensor_mgr/src/sensor_mgr.c:183-193 | in every run each sensor answer carries the asked sensor's record after a whole number of updates, at least those finished when the task took the block that completed the request |
| SensorAnswers.SensorAnswerBytes | components/bmc_mgr/src/bmc_mgr.c:79-91 | in every run, on bytes: a reading request with first payload byte 0 or 1, or none for sensor 0, is answered with code 0 and that sensor's last reading as of a moment after its block was taken; with any other byte it is refused with code 1 and no data |
| SensorAnswers.SensorAnswersTruthful | components/bmc_mgr/src/bmc_mgr.c:79-91 | in every run the scaled value and the state of each sensor answer belong to its raw value: state byte 0 exactly for -640 < raw < 1360 and 2 otherwise |
| SensorAnswers.ReadingIsAnswered | components/bmc_mgr/src/bmc_mgr.c:79-91 | whenever the mutex is free, a pending reading request is answered with the record as it stands |
| SensorAnswers.ReadingIsAnsweredBytes | components/bmc_mgr/src/bmc_mgr.c:79-91 | the same on bytes: the answer carries the last reading of the sensor in the request's first payload byte, or of sensor 0 |

## Left out

- `bmc_hal`, `sensor_hal`, `nic_chip_hal` and the RTOS bodies: calls into the vendor SDK; a flash device, bounded queues, a clock and arbitrary results stand for them.
- `nic_chip_protocol`, `sensor_protocol`, power control, FRU and version getters, reset: stubs or plain copies.
- `main.c`: start-up order, task priorities and stack sizes.
- Response header bytes 0 to 2: the code never sets them; they are arbitrary here.
- `spi_flash_cmd_read` and `spi_flash_cmd_read_id`: nothing reads the flash back; results are stated on the device's contents.
- Sensors 2 to 15: their calibration entries are zero and the count is 2; the polling results hold for any table whose entries are defined on the readings.
- Contents of memory after a message of 65 to 256 bytes: the copy runs past the packet, and the model stops there; when it does is stated exactly.
- Source image of an update: the call passes no data yet; the model takes the image as an array.
- VERIFY and ACTIVATE flash commands: empty branches.
- Event-group bits and their timeout: no shown code sets them; the wait may return at any time.
- Fairness and latency, beyond the end of the drains once arrivals stop and the steps of an undisturbed sensor read.
- The record a cache read returns is arbitrary in BmcSystem and BmcMgr; SensorAnswers says which it is.
- BmcSystem.Conservation: the flash task's handling of a command is one step there; what its turns write is stated in NicFlashMgr, FlashRuns and UpdatePath.
- Mctp.FrameTx: says when the packet fits the buffers, which the code does not check, and nothing about memory when it does not.
- ProtocolHdlr.SendResponse: says when the response fits the 32-byte transmit buffer, and nothing about memory when it does not; dispatch passes 0 or 16 bytes, which fit.
- SpiFlashCmd.WaitReady: for a timeout and longest gap that together exceed the 32-bit tick the loop need not end, so it is not stated there; the callers wait 3000 and 100 ms.
- SensorCache.ReadsConsistent: speaks of the two populated sensors, the only ones polled.
