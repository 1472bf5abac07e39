# Verified model of the STM32F4 drivers

This project models the parts of the firmware where a thread, an interrupt handler and a DMA engine
share a queue, and the parts that parse byte streams, and proves what they keep over every run.

Each protocol has two parts. The first describes it as a state machine: a state, the events that
any party can contribute, a total step function (an event that cannot happen leaves the state), and
runs, which are event sequences and therefore interleavings. Its theorems hold for all runs. The
second has the driver's own objects: classes with the source's fields, arrays and heap nodes, and
methods with the source's loops. Between their atomic pieces the other parties may do
anything that the machine allows: in the Ethernet, serial and codec drivers the hardware and its
interrupt handlers, in the Wi-Fi receive call the thread that queues packets. Each method is proved
to stay on a run of the machine, so the theorems apply to it.

| modules | what they model |
|---|---|
| `EthTx`, `EthTxFetch`, `EthTxStall`, `EthTxDriver` | Ethernet transmission: descriptor ring, OWN bits, flag, semaphore, poll demand |
| `EthRx`, `EthRxStarved`, `EthRxDriver` | Ethernet reception over the same kind of ring |
| `EthDesc` | how the descriptor tables are built, and how the successor is found |
| `SerialRx`, `RingBuffer` | the 64-slot receive ring that drops its oldest byte |
| `SerialTx` | the linked list of DMA transmissions and its pool of four nodes |
| `Codec`, `CodecDriver` | the audio queue of five slots, the MS bit of register 6, and the race of a sample rate change |
| `Elements`, `BssParser`, `ItemParser` | two parsers for information elements, and the walk over a scan response |
| `ScanSplit` | splitting a channel list into scan commands |
| `WlanQueue`, `WlanRx` | the Wi-Fi receive list, its notification rule, and the header rewrite in place |
| `RtList`, `RtDevice` | the kernel list on the heap and the device registry |
| `Rates` | rate intersection for an association |
| `Sd` | sector transfers through an aligned or a bounce buffer |

A pending enabled interrupt is served before the thread takes another step. Sizes are
32-bit where the source relies on it, and wraps are written out.

Some properties that one would expect are false of the code. Each is stated with the exact condition
under which it holds, and with an input or a run on which it fails:

- A transmission can wait for ever, exactly if its descriptor is still owned by the DMA at the call
  (`EthTx.MayWaitForeverIffOwned`, and `EthTxStall.MayHangIffOwned` if the engine fetches a descriptor
  and suspends itself in two steps).
- A poll demand can be lost (`EthTxFetch.DemandIsLost`): with those two steps a call can leave the
  engine suspended on a frame of its own until the next call, exactly if the engine is running at the
  call or the descriptor is still owned (`EthTxStall.MayStallIff`). `EthTx.NoPollDemandIsLost` and
  `EthTx.StuckExactlyWhen` hold for the one-step engine only: late on a full ring, a suspension also
  leaves a thread waiting for ever with frames in flight (`EthTxStall.HungExactlyWhen`).
- Reception can stop for good, because the interrupt handler clears the status that the thread tests
  before it restarts the engine: exactly in the states of `EthRxStarved.StarvedExactlyWhen`, which a
  run reaches on every ring (`EthRxStarved.StarvedIsReachable`).
- Ring mode follows the receive engine only with a skip length of 0 (`EthDesc.RingFollowsEngine`).
- A sample rate change can lose an update of the MS bit, exactly if something is queued at the call
  (`Codec.SampleRateSafeIffEmpty`, `Codec.StuckIsReachable`). The queue is not affected
  (`Codec.EveryRunIsFifo`).
- Misaligned and aligned SD transfers part at 4 GB (`Sd.PathsAgreeIff`). Reported success means that
  the requested sectors were transferred only for one operation, accepted and not ended silently, on
  a first sector that the card has, and not past 4 GB except where the wrapped transfer runs over the
  end of the card and fails (`Sd.SuccessIsHonestIff`). Families of failing inputs:
  `Sd.RejectionIsReportedAsSuccess`, `Sd.SilenceIsReportedAsSuccess`, `Sd.WrappedIsReportedAsSuccess`.
- A DMA-mode serial write always reports 0 bytes, as the contract of `SerialTx.Transmitter.Write` says.

`dafny verify dfyconfig.toml` checks the project.

## Model

| member | source | states |
|---|---|---|
| `EthTx.WaitLoopExitIsSafe` | drivers/stm32f4xx_eth.c:3569-3582 | in every interleaving of thread, DMA engine and interrupt handler, a step that leaves the wait loop finds the current descriptor not owned by the DMA, although OWN is not read again after the semaphore |
| `EthTx.SemaphoreIsHandshake` | drivers/stm32f4xx_eth.c:3422-3431 | the semaphore never exceeds 1, is set only for a thread about to take it, and never together with the waiting flag |
| `EthTx.OwnedIsSegment` | drivers/stm32f4xx_eth.c:3643-3656 | DMA-owned descriptors are exactly the contiguous run from the DMA pointer, as long as there are frames in flight; between calls it ends at the CPU pointer |
| `EthTx.WireIsPrefixOfSubmitted` | drivers/stm32f4xx_eth.c:3584-3643 | frames on the wire are a prefix of the frames accepted, which are in order the submitted pbuf chains, concatenated; byte for byte as submitted, except that bytes 36 and 37 are zero where the type field says IP and the protocol byte ICMP |
| `EthTx.OnlyIcmpChecksumIsCleared` | drivers/stm32f4xx_eth.c:3625-3641 | a sent frame made of addresses, type, a 20-byte IP header and the rest is the submitted one, unless type and protocol say ICMP; then exactly the two ICMP checksum bytes are zero |
| `EthTx.CleanIsFramed` | drivers/stm32f4xx_eth.c:3625-3641 | the checksum rule looks at the buffer, including bytes left over from longer frames, yet what is transmitted depends on the frame alone |
| `EthTx.OwnedIsUntouched` | drivers/stm32f4xx_eth.c:3584-3643 | no step changes a descriptor the DMA owns, except the DMA itself clearing OWN when it sends exactly the next accepted frame |
| `EthTx.NoPollDemandIsLost` | drivers/stm32f4xx_eth.c:3643-3651 | outside the steps that follow setting OWN the engine is never suspended on a descriptor it owns, for an engine that suspends itself in the step in which it reads a clear OWN bit |
| `EthTxFetch.DemandIsLost` | drivers/stm32f4xx_eth.c:3643-3651 | for a ring of any size, a run from power-up that leaves the engine suspended on its own descriptor with the thread past the test that would wake it, if fetch and suspension are two steps |
| `EthTxStall.EveryRunKeepsEngineInv` | drivers/stm32f4xx_eth.c:3415-3656 | with fetch and suspension as two steps, every run keeps the whole invariant except the poll demand |
| `EthTxStall.MayStallIff` | drivers/stm32f4xx_eth.c:3643-3651 | for every state between calls that a run of the two-step engine can lead to and every frame: some continuation of the call without a further call leaves the engine suspended on a descriptor it owns, until that further call, if and only if the engine is running at the call or the current descriptor is still owned |
| `EthTxStall.SuspendedCallIsServed` | drivers/stm32f4xx_eth.c:3643-3656 | a call on a suspended engine with a free descriptor never leaves it so: whatever happened, the poll demand still comes |
| `EthTxStall.HungExactlyWhen` | drivers/stm32f4xx_eth.c:3569-3580 | with the two-step engine a thread suspended on the semaphore can never be woken if and only if no completion is signalled and nothing is in flight or the engine is suspended or about to be |
| `EthTxStall.MayHangIffOwned` | drivers/stm32f4xx_eth.c:3569-3580 | with the two-step engine, too, some continuation of a call without a further call waits for ever if and only if the current descriptor is owned at the call |
| `EthTx.StuckExactlyWhen` | drivers/stm32f4xx_eth.c:3569-3580 | a thread that is already suspended on the semaphore can never be woken, whatever happens, if and only if nothing is in flight and no transmit interrupt status is set; for the one-step engine |
| `EthTx.MayWaitForeverIffOwned` | drivers/stm32f4xx_eth.c:3569-3580 | for every state between calls that keeps the invariant and every frame: some continuation of the call without a further call waits for ever, if and only if the current descriptor is owned by the DMA at the call |
| `EthTx.StuckIsReachable` | drivers/stm32f4xx_eth.c:3569-3577 | for a ring of any size there is a run from power-up into such a state: the completion falls between the OWN test and raising the flag |
| `EthTx.Finishes` | drivers/stm32f4xx_eth.c:3584-3656 | from any state past the wait loop, with the engine running and no interrupt pending or signalled, the thread alone completes the call |
| `EthTx.StepKeepsInv` | drivers/stm32f4xx_eth.c:3415-3656 | every step of every party keeps the whole invariant: cycle, owned segment, partial copy, handshake, pending poll demand and frame log |
| `EthTx.GiveGrowsSegment` | drivers/stm32f4xx_eth.c:3643-3656 | giving the descriptor at the end of a segment that is not full extends the segment by exactly that frame |
| `EthTx.SendShrinksSegment` | drivers/stm32f4xx_eth.c:1290-1323 | sending removes the first frame of the segment, puts it on the wire and keeps the segment end |
| `EthTxDriver.Driver.constructor` | drivers/stm32f4xx_eth.c:1290-1323 | the table written by the chain initialisation, with indices for addresses, is the initial state of the machine |
| `EthTxDriver.Driver.WaitForDescriptor` | drivers/stm32f4xx_eth.c:3569-3582 | the loop over real fields, preempted at every point, follows the machine and exits with a CPU-owned descriptor or still waits |
| `EthTxDriver.Driver.CopyChain` | drivers/stm32f4xx_eth.c:3584-3594 | the copy loop, preempted after every link, leaves the concatenated chain at the start of the buffer of the current descriptor |
| `EthTxDriver.Driver.HandOver` | drivers/stm32f4xx_eth.c:3619-3643 | length, control bits, checksum and OWN are written, with hardware activity in between; exactly one frame is added to the frames given to the engine, the submitted one but for the ICMP checksum |
| `EthTxDriver.Driver.WakeEngine` | drivers/stm32f4xx_eth.c:3644-3656 | TBUS is tested and cleared and the poll demand written, with hardware activity in between; the pointer moves to the next link of the current descriptor, and the engine is not suspended on a descriptor it owns |
| `EthTxDriver.Driver.Transmit` | drivers/stm32f4xx_eth.c:3563-3660 | a transmit call that returns has accepted exactly its own frame, unchanged but for the checksum bytes of an ICMP packet, and left the engine not suspended on an owned descriptor; one that does not return has changed no frame |
| `EthTxDriver.Driver.InterruptHandler` | drivers/stm32f4xx_eth.c:3398-3434 | the handler with DMA completions inside it is a run of handler steps; it ends with the line low unless a frame completed inside it |
| `EthRx.DeliversInOrder` | drivers/stm32f4xx_eth.c:3663-3765 | packets delivered are, in arrival order, exactly the payloads of the error-free single-descriptor arrivals whose allocation succeeded |
| `EthRx.VerdictIsFrame` | drivers/stm32f4xx_eth.c:3673-3696 | with memory the packet made of an arrival is f exactly if the arrival has no error, is first and last segment, has length |f| + 4 and starts with f; otherwise there is no packet |
| `EthRx.KeptGrows` | drivers/stm32f4xx_eth.c:3673-3696 | so one more arrival adds the frame it carries to the deliveries, without CRC, or nothing |
| `EthRx.CpuOwnedIsSegment` | drivers/stm32f4xx_eth.c:3670-3675 | between calls the CPU owns exactly the contiguous descriptors from its pointer to the engine pointer |
| `EthRx.EachReturnedOnce` | drivers/stm32f4xx_eth.c:3728-3729 | a CPU-owned descriptor changes only by being given back by the thread, one per arrival, oldest first |
| `EthRx.FillGrowsSegment` | drivers/stm32f4xx_eth.c:1643-1678 | an arrival extends the CPU-owned segment by one descriptor that holds it |
| `EthRx.ReturnShrinksSegment` | drivers/stm32f4xx_eth.c:3728-3761 | giving back the current descriptor removes exactly the oldest arrival from the segment |
| `EthRxDriver.CopyToChain` | drivers/stm32f4xx_eth.c:3690-3707 | the copy loop over the links of a pbuf chain splits the first bytes of the buffer without gap or overlap |
| `EthRxDriver.Driver.Receive` | drivers/stm32f4xx_eth.c:3663-3765 | a receive call, preempted by arrivals, by the engine running dry and by the handler clearing RBUS, handles the oldest arrival if there was one and gives one descriptor back; it returns f exactly if there is memory and the arrival is error-free, first and last segment, and carries f and its CRC; the log of all deliveries stays exact |
| `EthRxStarved.StarvedExactlyWhen` | drivers/stm32f4xx_eth.c:3409-3412 | of all states that any interleaving leads to, those from which no run takes another frame are exactly those with the engine suspended, RBUS clear, and the thread not between its test of RBUS and the poll demand |
| `EthRxStarved.StarvedIsReachable` | drivers/stm32f4xx_eth.c:3409-3412 | for a ring of any size such a state is reached: frames fill the ring, the engine suspends itself and the handler clears RBUS before the thread tests it |
| `EthDesc.ChainInit` | drivers/stm32f4xx_eth.c:1290-1323 | the chain initialisation loop writes the whole table: each entry points to the next, the last to the first; OWN as given |
| `EthDesc.RingInit` | drivers/stm32f4xx_eth.c:1690-1722 | the ring initialisation loop writes both buffer addresses and marks exactly the last entry as end of ring |
| `EthDesc.ChainBuffersAreApart` | drivers/stm32f4xx_eth.c:1306 | the packet buffers of two chain descriptors are disjoint and inside the buffer area |
| `EthDesc.RingBuffersAreApart` | drivers/stm32f4xx_eth.c:1706-1709 | likewise both buffers of ring descriptors |
| `EthDesc.ChainIsCycle` | drivers/stm32f4xx_eth.c:1290-1323 | the addresses that the chain initialisation writes are the cycle of table indices that both drivers start from |
| `EthDesc.ChainVisitsTable` | drivers/stm32f4xx_eth.c:702-706 | in chain mode both receive functions visit the table cyclically in index order |
| `EthDesc.RingVisitsTable` | drivers/stm32f4xx_eth.c:3748-3761 | in ring mode it finds the same successor if and only if the skip length is 0 or it is at the end of the ring |
| `EthDesc.SkipLengthIsField` | drivers/stm32f4xx_eth.c:3759 | the skip length is the five-bit field above the two lowest bits of DMABMR |
| `EthDesc.RingFollowsEngine` | drivers/stm32f4xx_eth.c:3748-3761 | the code adds the skip length as bytes where the engine skips words, so it follows the engine if and only if the skip length is 0 or it is at the end of the ring |
| `SerialRx.QueueIsNewestUnread` | drivers/serial.c:86-119 | for every interleaving of arrivals and reads the queue is the newest unread bytes, at most 63, and bytes are read in arrival order, none twice |
| `SerialRx.OnlyOldestIsLost` | drivers/serial.c:341-347 | a step loses a byte only if 63 bytes wait and another one arrives, and then the oldest |
| `RingBuffer.SaveAppends` | drivers/serial.c:335-347 | storing at the save index appends to the ring, or replaces the oldest element when it is full |
| `RingBuffer.ReadRemoves` | drivers/serial.c:96-105 | reading at the read index takes the first element of the ring |
| `SerialRx.Receiver.Save` | drivers/serial.c:331-350 | one turn of the handler loop appends the byte to the queue or drops the oldest one |
| `SerialRx.Receiver.Isr` | drivers/serial.c:321-365 | the handler saves everything received, in order, and reports the length of the queue |
| `SerialRx.Receiver.TakeOne` | drivers/serial.c:93-105 | the critical section removes the first byte of the queue |
| `SerialRx.Receiver.Read` | drivers/serial.c:86-119 | a read with the handler running between bytes stores bytes of strictly increasing arrival positions, later than all read before, and stops early only on an empty queue |
| `SerialTx.EveryRunKeepsInv` | drivers/serial.c:171-216 | for all interleavings of allocation, linking and transmit-complete interrupts: the DMA runs exactly while the list is nonempty, with the buffer of its head; completions come once each in write order; free, held and linked nodes sum to 4 |
| `SerialTx.InterruptsDrain` | drivers/serial.c:373-416 | as many interrupts as there are linked buffers complete all of them |
| `SerialTx.Transmitter.constructor` | drivers/serial.c:47-60 | the list starts empty and the pool has four blocks |
| `SerialTx.Transmitter.Append` | drivers/serial.c:183-207 | the heap list grows at its tail by exactly the node, next and prev links consistent, and the DMA starts if it was empty |
| `SerialTx.Transmitter.LinkNode` | drivers/serial.c:183-210 | linking an allocated node is one step of the machine |
| `SerialTx.Transmitter.RemoveHead` | drivers/serial.c:391-401 | the head is unlinked and its block returns to the pool; the rest stays linked |
| `SerialTx.Transmitter.DmaTxIsr` | drivers/serial.c:373-416 | the handler finds a head whenever the DMA was running, reports its buffer, and programs the DMA with the next head or stops it |
| `SerialTx.Transmitter.Write` | drivers/serial.c:171-216 | a DMA-mode write, with transmit-complete interrupts between allocation and linking, links its buffer or finds no node; the count it reports is always 0 |
| `Codec.EveryPoliteRunKeepsInv` | drivers/codec_wm8978_i2c.c:490-547 | on runs in which sample rates change only on an empty queue: MS is set iff the ring is nonempty iff the stream is set up, with the node at the read index, and the stream runs and its interrupt is enabled |
| `Codec.EveryRunKeepsSane` | drivers/codec_wm8978_i2c.c:490-547 | on all runs, with sample rate changes at any time: that coupling holds, or MS is set with the stream off, which lasts until a close |
| `Codec.EveryRunIsFifo` | drivers/codec_wm8978_i2c.c:498-523 | on all runs every accepted buffer is completed once and in order or is still queued, and at most four are queued |
| `Codec.CodecFollows` | drivers/codec_wm8978_i2c.c:525-541 | on all runs the codec itself is clock master while the I2S is on, and has the clock bits of r06, except between the write-back of a sample rate and its transmission |
| `Codec.DividerFitsRate` | drivers/codec_wm8978_i2c.c:303-381 | exactly ten rates are known; for each the divider field of register 6 makes 256 times the rate out of the PLL frequency of its family, all other bits being fixed |
| `Codec.CommitKeepsInv` | drivers/codec_wm8978_i2c.c:509-543 | the critical section of a write keeps the invariant, whatever the interrupt did since the test for a full list |
| `Codec.IsrKeepsInv` | drivers/codec_wm8978_i2c.c:596-662 | the interrupt handler completes exactly the buffer that was playing |
| `Codec.StoreKeepsInvExactly` | drivers/codec_wm8978_i2c.c:306 | writing r06 back keeps the invariant if and only if MS has not changed since it was read |
| `Codec.SampleRateSafeIffEmpty` | drivers/codec_wm8978_i2c.c:298-393 | a sample rate change is safe against every hardware behaviour between its read and write of r06 if and only if nothing is queued at the call |
| `Codec.StuckUntilClose` | drivers/codec_wm8978_i2c.c:525-541 | once MS is set with the I2S off, no run without a close completes another buffer |
| `Codec.StuckIsReachable` | drivers/codec_wm8978_i2c.c:298-306 | a run of one write, a sample rate change and an interrupt in between that leads there |
| `Codec.CloseCompletesAll` | drivers/codec_wm8978_i2c.c:418-456 | closing with MS set completes every queued buffer in order and restores the invariant, even from the stuck state |
| `CodecDriver.Device.CodecWrite` | drivers/codec_wm8978_i2c.c:490-547 | a write on the real fields refuses exactly when the ring is full, otherwise accepts exactly its buffer, with interrupts between test and critical section; afterwards the codec is clock master if the I2S is on, and the clock bits are unchanged |
| `CodecDriver.Device.CodecDmaIsr` | drivers/codec_wm8978_i2c.c:596-664 | the handler reports the buffer at the read index and stays on the machine |
| `CodecDriver.Device.SampleRate` | drivers/codec_wm8978_i2c.c:298-393 | unknown rates are refused without effect; otherwise r06 has the clock bits of the rate and the codec has r06, whatever the interrupt does, and is master if the I2S is on; on an empty queue the invariant holds afterwards |
| `CodecDriver.Device.RemoveAll` | drivers/codec_wm8978_i2c.c:440-448 | the loop of close reports all queued buffers in order |
| `CodecDriver.Device.CodecClose` | drivers/codec_wm8978_i2c.c:418-456 | after a close, whatever happened before it, MS is clear, in the codec too if it was set before, the ring empty, everything written completed in order, and the invariant holds |
| `Elements.SameOui` | wifi/wlan_scan.c:566-568 | the four-byte comparison that stops at a difference recognises exactly the elements that start with OUI and type |
| `Elements.SizeIsLittleEndian` | wifi/wlan_scan.c:354-368 | a description is there exactly if its little-endian length can be read, is not 0 and does not exceed the bytes behind it |
| `BssParser.ParseElements` | wifi/wlan_scan.c:451-609 | for every well-formed element list the loop ends and equals the left fold over the elements, including the early failure |
| `BssParser.Switch` | wifi/wlan_scan.c:466-600 | each case of the switch does to the record what the element says |
| `BssParser.SwitchVendor` | wifi/wlan_scan.c:563-589 | WPA elements are stored whole up to 256 bytes, WMM elements only with one of two sizes, others ignored |
| `BssParser.Interpret` | wifi/wlan_scan.c:319-612 | the whole function: cursor plus bytes left constant; failure without a proper description; otherwise the fold over the beacon; MAC, RSSI, saved beacon, time stamp, interval, capability, privacy (bit 4) and ad-hoc mode (bit 1) are what the bytes of the description say |
| `BssParser.SucceedsIffCountryIsGood` | wifi/wlan_scan.c:524-537 | the parse succeeds if and only if no country element has an impossible length |
| `BssParser.LastElementWins` | wifi/wlan_scan.c:468-498 | SSID, channel, ERP flags and ATIM window are those of the last element of id 0, 3, 42, 6, or what was there before; an element of id 133 is noted; fixed fields are not overwritten |
| `BssParser.LastNetworkWins` | wifi/wlan_scan.c:489-498 | the kind of network is FH or DS after the last element of id 2 or 3 |
| `BssParser.LastRateWins` | wifi/wlan_scan.c:475-560 | on every list of elements each byte of both rate tables is that of the last element reaching it: supported rates from the start on, extended ones behind the last supported ones before them, ignored if there are none |
| `BssParser.LastByteWins` | wifi/wlan_scan.c:524-597 | every byte of the country, WPA, WMM and RSN structures is that of the last accepted element that reaches so far, or what was there before: a shorter element leaves the rest of an earlier one |
| `BssParser.ImageBytes` | wifi/wlan_scan.c:524-597 | which elements are copied, by their bytes: id 7 whole, id 48 and vendor 00-50-F2 type 1 up to 256 bytes, vendor type 2 only with 26 or 9 bytes |
| `BssParser.RatesAreJoined` | wifi/wlan_scan.c:475-481 | both rate tables hold the first 14 of the supported rates followed by one later extended element, the rest untouched, whatever else the beacon contains |
| `ItemParser.ParseElements` | wifi/wlan_scan.c:1354-1455 | the second parser loop equals its fold over the elements |
| `ItemParser.ParseItem` | wifi/wlan_scan.c:1306-1456 | the second parser on an encoded beacon fills the item with the fold; MAC and RSSI are the bytes of the description; the security is WPA2 iff there is an RSN element, WPA iff there is a WPA element and no RSN element, WEP iff neither |
| `ItemParser.FlagsSayPresence` | wifi/wlan_scan.c:1428-1450 | the flags say exactly whether an RSN or a WPA element was seen, and the security is WPA2, WPA or WEP accordingly |
| `ItemParser.SecurityIgnoresOrder` | wifi/wlan_scan.c:1440-1450 | two beacons with the same elements in any order and multiplicity get the same security: WPA2 iff there is an RSN element, WPA iff there is a WPA vendor element and no RSN element, WEP iff there is neither |
| `ItemParser.LastElementWins` | wifi/wlan_scan.c:1365-1408 | MAC and RSSI stay; SSID, cut to 32 bytes, and channel come from the last element of id 0 and 3 |
| `ItemParser.LastRateWins` | wifi/wlan_scan.c:1380-1390 | each byte of both rate tables is that of the last element of id 1 that reaches it, or what was there before |
| `ItemParser.ParsersAgree` | wifi/wlan_scan.c:373-498 | on every beacon the first parser accepts, both parsers give the same MAC, RSSI, SSID and channel, where the beacon says them or they agreed before |
| `ItemParser.NextDescription` | wifi/wlan_scan.c:1278-1336 | on any bytes, with or without a result buffer: cursor plus bytes left constant, bytes left strictly decreasing, an item taken only where there is room, no 32-bit wrap in the room test |
| `ItemParser.RoomIsAllThatFits` | wifi/wlan_scan.c:1290-1300 | the room is as many items as fit the result buffer, and not one more |
| `ItemParser.Walk` | wifi/wlan_scan.c:1486-1530 | the walk ends on any bytes, takes items for exactly the recorded descriptions and never more than the result buffer holds; more than 32 sets are refused |
| `ItemParser.SpansAreInOrder` | wifi/wlan_scan.c:1278-1310 | recorded descriptions lie in the response, one behind another without overlap, each right after its own length |
| `ItemParser.WalkFindsBeacons` | wifi/wlan_scan.c:1510-1525 | on a response that encodes a list of beacons the walk finds each encoding, as many as sets and room allow |
| `ItemParser.FillTable` | wifi/wlan_scan.c:1486-1530 | on a response that encodes well-formed beacons, walk and element loop together: item after item of the table is the fold of beacon after beacon over what was there, as many as sets and room allow, and no other item changes |
| `ScanSplit.ScanChannelList` | wifi/wlan_scan.c:729-811 | the nested loops end; the commands are the split of the list up to its terminator; length fields match the contents; success is that of the last command |
| `ScanSplit.NextCommand` | wifi/wlan_scan.c:751-793 | one command takes at least one channel, at most the maximum, ends only where it may, and its TLV fields cover exactly its channels |
| `ScanSplit.SplitIsUnique` | wifi/wlan_scan.c:751-793 | concatenation, size limits, lone channels 1, 6, 11 and needless ends together admit exactly one split |
| `ScanSplit.LoneChannels` | wifi/wlan_scan.c:751-793 | in an unfiltered scan each of channels 1, 6 and 11 gets a command of its own; every other command but the last is full or ends before one of them; a filtered scan has only full commands before the last |
| `WlanQueue.EveryRunKeepsInv` | wifi/wlan_main.c:410-420 | in every interleaving a nonempty queue has a pending notification, a draining reader, or a producer before its test; deliveries are the non-EAPOL packets in arrival order |
| `WlanQueue.EverythingIsDelivered` | wifi/wlan_main.c:413-419 | from every reachable state, with no further arrival, every data packet gets delivered: notifying only at count 1 loses no wake-up |
| `WlanQueue.EapolIsTheType` | wifi/ieee802_11.c:5-25 | a packet is dropped exactly if the type behind its two addresses is 88-8E |
| `WlanQueue.DataOfOne` | wifi/rt_wlan_dev.c:111-150 | of a single packet everything is delivered unless its type is 88-8E |
| `WlanQueue.DataOfAll` | wifi/rt_wlan_dev.c:111-150 | the deliveries of two parts of the arrivals are joined in order |
| `WlanRx.AddressesMove` | wifi/wlan_rx.c:130-140 | copying the source address first and the destination second leaves both addresses in front of the type, although the second copy overwrites part of the original source |
| `WlanRx.Reframe` | wifi/wlan_rx.c:96-170 | short packets are dropped; of a SNAP frame the packet buffer gets addresses, type and payload from offset plus 8 on, of any other the frame from offset on, at least 100 bytes; the receive buffer changes only for SNAP frames |
| `WlanRx.SnapBecomesEthernet` | wifi/wlan_rx.c:117-145 | any 802.3 frame with LLC and SNAP header (RFC 1042) becomes the Ethernet II frame with the same addresses, type and payload, padded only from behind it |
| `WlanRx.PlainFrameStays` | wifi/wlan_rx.c:147-170 | any other frame stays as it is, with at least 100 bytes copied |
| `WlanRx.PacketOffsetBytes` | wifi/hostcmd.h:55-70 | PktOffset is the little-endian word at byte 8 of the received data |
| `WlanRx.Card.Link` | wifi/wlan_rx.c:172-188 | both branches of the enqueue extend the circular doubly linked list at its tail; the count is its length |
| `WlanRx.Card.Unlink` | wifi/rt_wlan_dev.c:124-133 | the dequeue removes the first node and keeps the circle |
| `WlanRx.Card.ProcessRxedPacket` | wifi/wlan_rx.c:69-193 | a received SNAP packet is enqueued reframed, others are dropped, as one step of the queue machine |
| `WlanRx.Card.CheckQueue` | wifi/wlan_main.c:410-420 | the notification is sent exactly at count 1 |
| `WlanRx.Card.Rx` | wifi/rt_wlan_dev.c:111-150 | the receive call, with packets arriving between its dequeues, returns the first non-EAPOL packet among those queued and arriving, removes it and all before it, and returns nothing only if there is none |
| `RtList.Node.constructor` | rt-thread/include/rtservice.h:38-41 | an initialised node is a circle of its own |
| `RtList.InsertAfter` | rt-thread/include/rtservice.h:49-56 | writing exactly four links inserts the node behind the given one and keeps a consistent circle |
| `RtList.InsertBefore` | rt-thread/include/rtservice.h:64-71 | likewise in front of the given one |
| `RtList.Remove` | rt-thread/include/rtservice.h:77-83 | the remaining nodes stay a circle and the removed one becomes its own |
| `RtList.IsEmpty` | rt-thread/include/rtservice.h:89-92 | true exactly for a circle of only the list object |
| `RtList.RemoveUndoesInsert` | rt-thread/include/rtservice.h:49-83 | removing a node restores the sequence from before its insertion |
| `RtList.SharedNodeMeansSameRing` | rt-thread/include/rtservice.h:38-92 | two circles that share one node have the same nodes, so lists are either the same or disjoint |
| `RtDevice.Strncmp` | rt-thread/src/kservice.c:408-420 | zero exactly if the first eight bytes hold the same C string, in spite of the signed char result |
| `RtDevice.CStrEndsAtZero` | rt-thread/src/kservice.c:408-420 | the C string is everything before the first zero, within the given length |
| `RtDevice.ActivationIsBitFour` | rt-thread/src/device.c:83-93 | activation sets bit 4 of the flags and no other |
| `RtDevice.OpenIsBitThree` | rt-thread/src/device.c:222-235 | opening stores the flags given with bit 3 set |
| `RtDevice.ActivatedAfterSuccess` | rt-thread/src/device.c:63-179 | a device ends up activated iff it was or its handler exists and succeeds, and remains stand-alone iff it was |
| `RtDevice.ExactlyDueAreCalled` | rt-thread/src/device.c:73-96 | of different devices exactly those with a handler that are not activated are called |
| `RtDevice.Registry.Register` | rt-thread/src/device.c:24-35 | a device not in the registry becomes the first of the registry, whatever happened to it before; the log records with which activation |
| `RtDevice.Registry.Unregister` | rt-thread/src/device.c:45-52 | the device leaves the registry, the others keep their order, and it can be registered again |
| `RtDevice.NoCallAfterSuccess` | rt-thread/src/device.c:63-213 | in every lawful log, which all operations keep: no init handler is called on an activated device, and none again after a success unless the device was registered anew in between |
| `RtDevice.ClosedBetweenOpens` | rt-thread/src/device.c:190-270 | in every lawful log: between an open and a later open of a stand-alone device there is a close of it |
| `RtDevice.Registry.InitAll` | rt-thread/src/device.c:63-98 | the walk ends; every device with a handler that is not activated is called once, in list order; flags change exactly on success |
| `RtDevice.Registry.CallInit` | rt-thread/src/device.c:83-93 | a handler is called only on a device that is not activated, and the log stays lawful and in agreement with the flags |
| `RtDevice.Registry.Find` | rt-thread/src/device.c:107-140 | the first device with the name, or null exactly if there is none |
| `RtDevice.Registry.Init` | rt-thread/src/device.c:150-179 | all results of initialising one device |
| `RtDevice.Registry.Open` | rt-thread/src/device.c:190-238 | all results of opening, including busy stand-alone devices and missing handlers; success means activated |
| `Rates.Intersect` | wifi/wlan_join.c:59-68 | the nested loops write, for each card rate in order, the first matching rate of the access point, then zeros |
| `Rates.Search` | wifi/wlan_join.c:73-80 | the search for a fixed rate ends at the terminator and succeeds if and only if the rate is in the result |
| `Rates.GetCommonRates` | wifi/wlan_join.c:42-92 | the whole function, its failure cases included |
| `Rates.SetupRates` | wifi/wlan_join.c:107-130 | with the card table the result keeps a zero terminator and its length is the number of common rates |
| `Rates.InBoth` | wifi/wlan_join.c:59-68 | a rate is in the result if and only if both sides have it, basic bit aside |
| `Rates.SameButForBasicBit` | wifi/wlan_join.c:63 | two rates match iff they are equal or differ by 0x80 |
| `Rates.HoldsWithOrWithoutBasicBit` | wifi/wlan_join.c:73-80 | a fixed rate is found with or without its basic bit |
| `Rates.IntersectionOfAll` | wifi/wlan_join.c:59-68 | the rates of a joined card table are those of its parts, in order |
| `Rates.IntersectionOfOne` | wifi/wlan_join.c:59-68 | for one card rate it is the first matching rate of the access point, as the access point has it |
| `Rates.LookupInIntersection` | wifi/wlan_join.c:61-66 | looking a rate up in the result gives what the access point has for it |
| `Rates.IntersectAgain` | wifi/wlan_join.c:59-68 | intersecting the result again with any of the card rates gives what the original gives |
| `Rates.Idempotent` | wifi/wlan_join.c:59-68 | intersecting twice is intersecting once |
| `Rates.CardTable` | wifi/wlan_main.c:219-222 | the card table lists twelve rates before its zero |
| `Sd.SameSectorOnBothCards` | drivers/sdio_sd.c:1332-1336 | byte-addressed and block-addressed cards reach the same sector |
| `Sd.PathsAgreeIff` | drivers/sdio_sd.c:2966-3007 | bounced and direct transfer reach the same sectors if and only if the wrapped start plus the size stays within 2^23 sectors |
| `Sd.PathsAreRightIff` | drivers/sdio_sd.c:2973-3002 | the bounced sectors are the requested ones iff pos + size is at most 2^23, the direct ones iff pos is below 2^23 |
| `Sd.SuccessIsHonestIff` | drivers/sdio_sd.c:2975-3008 | over all that can happen during the waits, a call that reports success has transferred the sectors it was asked for if and only if it is a single operation, accepted and not ended silently, on a first sector that the card has, which starts below 2^23 sectors or, wrapped, runs over the end of the card |
| `Sd.FailsIff` | drivers/sdio_sd.c:1513-1548 | a call fails iff during its last operation a flag is stuck, the stop command of several sectors is refused, or the error of an accepted transfer on the card is recorded |
| `Sd.RejectionIsReportedAsSuccess` | drivers/sdio_sd.c:2978-2982 | the failing input: for every request, if the card rejects all commands and nothing else happens, success is reported and no data phase was started |
| `Sd.SilenceIsReportedAsSuccess` | drivers/sdio_sd.c:1795-1823 | a second failing family: transfers that end short without a recorded error, such as an underrun whose interrupt is not enabled, are reported as success with at least one sector not written |
| `Sd.WrappedIsReportedAsSuccess` | drivers/sdio_sd.c:2966-3011 | a third: past 2^23 sectors an accepted and undisturbed call reports success for other sectors than the requested ones |
| `Sd.UndisturbedSucceeds` | drivers/sdio_sd.c:2955-3013 | accepted and undisturbed, every call inside a card of at most 2^23 sectors succeeds and transfers the requested sectors |
| `Sd.Card.Start` | drivers/sdio_sd.c:1317-1366 | the commands of an operation: the error of a rejected one or of a missing first sector, otherwise a data phase for the addressed sectors |
| `Sd.Card.WaitRead` | drivers/sdio_sd.c:1513-1548 | the wait reports an error exactly for a transfer that was started and failed with its error recorded, a refused stop or a stuck flag; a completed transfer fills the buffer with consecutive sectors and nothing else |
| `Sd.Card.WaitWrite` | drivers/sdio_sd.c:1788-1824 | the same for writing: exactly the sectors that were stored change |
| `Sd.Read` | drivers/sdio_sd.c:2955-3013 | exact success of both paths, and the sectors in the buffer where they were transferred; if all were and the request is inside 2^23 sectors, the buffer holds the requested sectors |
| `Sd.ReadBounced` | drivers/sdio_sd.c:2966-2988 | the loop with its 32-bit address visits the wrapped sectors and keeps only the last status |
| `Sd.Write` | drivers/sdio_sd.c:3015-3072 | exact success of both paths and the whole content of the card afterwards; if all sectors were transferred inside 2^23 sectors, exactly the requested ones hold the data |
| `Sd.BouncedTransfers` | drivers/sdio_sd.c:3028-3050 | single-sector writes one after another, all transferred, amount to one transfer |
| `Sd.ReadBackIsWritten` | drivers/sdio_sd.c:2955-3072 | what is read from sectors that were written is, byte for byte, what was written to them |

## Left out

- EthTxDriver.Driver.Transmit: the error return after a detached semaphore is not modelled, because nothing detaches it; a frame has to fit the 1520-byte buffer, which the source does not check.
- EthTx.NoPollDemandIsLost: reading a clear OWN bit and suspending are one step here; `EthTxFetch` and `EthTxStall` separate them.
- EthRxDriver.Driver.Receive: hardware reports between 4 and 1520 bytes for good frames, as the source takes for granted; whether a suspended engine is restarted is the subject of `EthRxStarved`.
- SerialTx.Transmitter.Write: waiting for a free node is the result that no node was there; the completion callback does not write again.
- SerialTx.Transmitter.Append: the previous link of a new head is not maintained by the source after a removal and nothing is claimed for it.
- SerialRx.Receiver.Read: polling mode of reading and writing, and the stream mode, are left out.
- CodecDriver.Device.CodecClose: closing without a completion callback, which leaves buffers queued, is left out; I2C transfers are reduced to the value of register 6, so the PLL registers and register 7 of a sample rate change are left out; one client thread.
- BssParser.ParseElements: beacons that are cut short, elements longer than the fields they are copied to, and the raw copies of the FH, DS, CF and IBSS structures, whose C layout has padding, are left out.
- ItemParser.ParseItem: privacy and infrastructure mode are left out, because the source copies the capability bytes into a pointer and reads through it; the terminating zero behind a 32-byte SSID falls on one of these fields.
- ItemParser.Walk: for malformed descriptions only the framing is modelled, not their contents.
- ScanSplit.ScanChannelList: the limit on the total scan time is left out, because its result is overwritten by the next assignment.
- WlanRx.Card.ProcessRxedPacket: frames without a SNAP header are left out, because the source frees the node that it links afterwards; the node is allocated in full.
- WlanRx.Reframe: PktOffset lies inside the receive buffer, which the source does not check.
- WlanRx.Card.Rx: EAPOL packets are dropped without being freed, as in the source.
- RtDevice.Registry.Register: the device is not in the registry; the source does not check that.
- RtDevice.Registry.Open: a device without an init handler has to be activated already, because the source calls the handler without a test.
- Rates.GetCommonRates: both loops read an element before they test its index; the byte behind each table is a parameter that has no influence.
- Sd.Read: a size of 0, for which the source reports an uninitialised status, is left out; the first wait loop is not a step of its own: a transfer that it gives up on, or leaves early on a flag left behind by an earlier operation, is a silent one; an error that is signalled only after the wait has tested for it is not modelled; the wait for the card to become ready ends. One operation moves at most 65535 sectors, because the controller's length register has 25 bits.
- Sd.Write: the same limits; a failing transfer stores some first part of its sectors.
- lwIP, the scheduler, memory pools, semaphores, mailboxes and events: only what their callers rely on; notifications are reliable.
- Register set-up, clocks, pins, LCD, keys, RTC, touch, the I2C and SPI transfer loops: straight-line hardware access that keeps no state between calls.
- Firmware download, key and WEP commands, CSD decoding, power tables: commands built field by field from constants and arguments, without state that outlives the call.
- Matrix and control code: only headers are in the repository.
