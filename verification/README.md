# Verified model of the mouse firmware's protocols and of its flashing tool

The repository holds the firmware of a wireless mouse (an nRF52832 application on Zephyr, an ATmega8U2 application and
its USB bootloader) and the host tool that flashes the ATmega. This project models the parts of it that are protocols or
algorithms, and proves properties of them over all inputs, all runs and all interleavings.

| part | modules |
|---|---|
| AVR flashing, from ELF segments to flash bytes | `Paging`, `HostFlashing`, `Bootloader`, `Flashing` |
| SPI link between the two controllers, with CRC-8 | `Gf2Poly`, `Crc8`, `CrcDetection`, `WireErrors`, `SpiSlave`, `AvrComm` |
| Button input, from the pin to the report | `Gpio`, `Debounce`, `DebouncedPins`, `DebouncedLevels`, `ToggleQueue`, `ButtonPath`, `ButtonsSource`, `HidReport`, `Collector`, `Buttons`, `ButtonReports` |
| Ring of log files | `LogRing`, `LogName` |
| SPI bus sharing, battery level | `SpiBus`, `Battery` |

Code that updates variables in place is modelled by classes and methods with loops, each tied by its `ensures` to a
function on values; what the system promises is proved about those functions. Interleaved parts (collector thread,
buttons source, SPI bus) are state machines whose steps are the accesses to shared state, over any finite run.

Main results:

- **Flashing** (`Flashing.FlashElf`): for any list of segments (with or without bytes, also running beyond 16-bit
  addresses), any page size 2^k with 1 <= k <= 8 and any cut of each report into non-empty even-sized endpoint packets,
  every byte of a touched page below the boot section ends up as the byte of the last segment that covers it, or 0; all
  other bytes, and the whole boot section, stay. Success is reported exactly when every non-empty segment ends at or
  below the boot section; with a boot section within the first 8192 bytes every such image is flashed.
- **CRC** (`Crc8.CrcIsRemainder`, `CrcDetection`, `WireErrors`): the C loop computes the remainder of M(x)·x^8 modulo
  x^8+x^5+x^4+1, and nothing else is that remainder. The check catches every error with an odd number of flipped bits and
  every error confined to 8 consecutive bits in the CRC's order, each byte low bit first; a disturbed reply passes
  exactly when the disturbance itself has CRC 0. In the order of the wire, high bit first, it catches every error within
  one byte or 6 consecutive bits, and of those within 8 exactly all but seven patterns of two neighbouring bytes.
- **Both ends of the link** (`AvrComm.VerifyAvrId`, `AvrComm.SendReportDescriptor`): master and slave in one exchange,
  for every outcome of it, from a bus that cannot be had to a transfer that is cut short.
- **Report descriptor** (`SpiSlave.AvrApp.SpiTask`): after any history of transactions the USB host is shown the control
  part followed by what the last installing transfer carried, cut to capacity.
- **Button delivery** (`Buttons.Delivery`): in every interleaving the states reported for a button, after its initial
  state and with repeats removed, are a prefix of its accepted toggles, and all of them once the collector is
  blocked with the source enabled and no `set_source_enabled` call halfway.
- **From pin to report** (`ButtonReports`): debounce, queues, collector and sink in one run. The reported states follow
  what the button's interrupts told, repeats removed, in every run; in runs in which this button's pin settles before it
  is re-enabled, whatever other pins do, they follow every state the interrupts told.
- **No lost wake-up** (`Collector.NoLostWakeUp`, `Collector.ServedSoon`): also, in every interleaving, a bound of 6n + 9
  collector steps until a posted source's filler starts, plus three for every change of the enabled sources posted
  meanwhile, as long as the source itself is not disabled. A disabled source is left alone once the collector has looked
  again (`Collector.DisabledStaysQuiet`), which it does soon (`Collector.ChangeNoticed`), and a filler runs at most once
  per post (`Collector.NoSpuriousRuns`).
- **Debounce** (`Debounce`, `DebouncedPins`, `DebouncedLevels`): the ring is a shift register; a pin is in one place at a
  time, and its user knows its level exactly as long as it has settled when it is re-enabled. Both are stated pin by pin:
  other pins may re-arm themselves, bounce, or have GPIO callbacks past the service. Joined with the queue
  (`ButtonPath.ToggleAccepted`): a toggle is accepted exactly if its pin is in step.
- **Log ring** (`LogRing`): restart recovery from an unordered directory. In runs of writes and restarts without failures
  the files on disk are a suffix of everything written (`LogRing.AllWritesKept`); in runs with failing file-system calls,
  of everything that reached the disk (`LogRing.LatestChunksKept`). Files are filled: without restarts a new one is begun
  only for a chunk that does not fit (`LogRing.FilesAreFilled`).
- **Chip select** (`SpiBus`): at most one pin active, under the lock, whatever fails or comes late; and in runs without
  timeouts a transfer succeeds only after its own END (`SpiBus.OrdinaryRunsNeverEarly`).

Where the code does not do what its documentation or a first reading suggests, the model follows the code, and the exact
condition is proved:

- A segment that starts inside the flash but ends beyond the boot section is flashed up to the boot section and then
  refused (`HostFlashing.ReadFlashData` checks only the start; `Flashing.PagesBelowBoot` is the exact condition).
- `toggle_queue_len` is the number of waiting events with its sign turned (`ToggleQueue.LenIsNegated`). The callers only
  compare it with 0.
- Up to 2^32 - 1 events fit a toggle queue; one more makes it look empty (`ToggleQueue.PutRefines`).
- The reported button states alone, without the initial state in front, are a prefix of the initial state and the
  accepted toggles exactly if the button's queue was still empty when the filler first read it (`Buttons.ReportsAlone`,
  over runs); a toggle before the first round breaks that (`Buttons.FirstReportMayShowToggle`).
- An edge that reverses before its pin is re-enabled is never reported, and the user keeps the old level
  (`DebouncedLevels.SecondEdgeLost`, exact condition `DebouncedLevels.StepKeepsInStep`). A button's next press is then
  refused by its queue (`ButtonPath.NextPressRefused`).
- `debounce_set_edge_cb` for a pin that waits in the shift register, and for no other, puts the pin in two places
  (`DebouncedPins.StepKeepsPlace`). The mode button's callback does that (`DebouncedPins.RearmingCallbackSplitsPin`).
- A burst of 7 consecutive bits on the wire can pass the CRC check (`WireErrors.SevenBitsUnseen`, exact condition
  `WireErrors.WireBurstAccepted`).
- A descriptor transfer that is cut short installs what had arrived, although the master gets an error
  (`AvrComm.SendReportDescriptor`).
- A report that ends before the page it is for leaves that page erased and the bootloader waiting
  (`Bootloader.Bootloader.SetReport`).
- Until the first command 0x08 the report descriptor is empty, without the control part, because its length starts at 0
  (`SpiSlave.DescriptorEmptyUntilInstalled`).
- A late END interrupt leaves the bus semaphore given, so that a later transfer can return success before its own END:
  exactly when the semaphore is given or an END outstanding at its start (`SpiBus.NeverEarlyIff`, reached in
  `SpiBus.EarlyReachable`).
- A thread that fails to get the bus deactivates its chip-select pin all the same, also when another thread is
  transferring on that pin (`SpiBus.StepKeepsPinsHeld`, `SpiBus.SharedPinDeselected`).
- A directory entry such as `log.12ab` counts as log file 12 (`LogName.LookAlike`, exact condition `LogName.IdNamesFile`).
- The log scan recognizes a wrapped window only for limits below 5000 (`LogRing.WrapRecognized`).

## Model

| member | source | states |
|---|---|---|
| `HostFlashing.NewPageContent` | hidcli/src/avr_flashing.rs:198-208 | error exactly when the piece does not fit the page; a full page has offset 0 |
| `HostFlashing.SplitIsPartition` | hidcli/src/avr_flashing.rs:158-178 | the pieces join to the segment, lie on consecutive pages once each, fit, and only the first and last can be partial |
| `HostFlashing.SplitPageCount` | hidcli/src/avr_flashing.rs:158-178 | a segment has as many pieces as pages it touches |
| `HostFlashing.OverlaySegment` | hidcli/src/avr_flashing.rs:134-178 | splitting and placing a segment writes it over the page map byte by byte, new pages being 0 elsewhere |
| `HostFlashing.FlashMap.FillFlashMap` | hidcli/src/avr_flashing.rs:134-152 | the loop over pieces yields the map with all pieces placed in order |
| `HostFlashing.RepresentsSnoc` | hidcli/src/avr_flashing.rs:55-72 | one more segment: later segments win where they overlap |
| `HostFlashing.ReadFlashData` | hidcli/src/avr_flashing.rs:47-77 | error exactly when some non-empty segment starts at 8192 or above, or its last byte is on a page above 65533 (16-bit page indices); else exactly the touched pages in ascending order, holding the overlay |
| `HostFlashing.Sorted` | hidcli/src/avr_flashing.rs:74-75 | the map's items by ascending page, whatever the iteration order |
| `Paging.StartIsProduct` | hidcli/src/avr_flashing.rs:120 | the address of a page is its index times the page size |
| `Paging.PageIsQuotient` | hidcli/src/avr_flashing.rs:162-163 | page and offset are quotient and remainder by the page size |
| `Bootloader.MaskIsRemainder` | app-avr/bootloader/BootloaderHID.c:147 | masking with page size - 1 tests alignment |
| `Bootloader.Endpoint.NextBank` | app-avr/bootloader/BootloaderHID.c:170-174 | moving to the next packet loses nothing of the unread data |
| `Bootloader.Endpoint.Read16LE` | app-avr/bootloader/BootloaderHID.c:146 | takes the next two unread bytes, low byte first |
| `Bootloader.Bootloader.PageErase` | app-avr/bootloader/BootloaderHID.c:161-165 | the page reads 0xFF, the rest of the flash is unchanged |
| `Bootloader.Bootloader.FillPage` | app-avr/bootloader/BootloaderHID.c:167-178 | the page buffer holds the next page of unread bytes in order, for every cut into even packets; waits exactly when there are fewer |
| `Bootloader.Bootloader.PageWrite` | app-avr/bootloader/BootloaderHID.c:180-185 | programming clears bits only within the page, and stores the buffer where the page was erased |
| `Bootloader.Bootloader.SetReport` | app-avr/bootloader/BootloaderHID.c:139-194 | for reports of any length: stalls exactly for a bad address, stops the bootloader exactly for 0xFFFF, stores the page exactly for an aligned address below the boot section if enough bytes come, else waits with the page erased; otherwise the flash is unchanged |
| `Bootloader.PageBelow` | app-avr/bootloader/BootloaderHID.c:155 | an aligned page that starts below the boot section ends at or below it |
| `Flashing.Packet` | hidcli/src/avr_flashing.rs:117-125 | the bootloader's decoding of a packet yields the page's address and bytes |
| `Flashing.PageAddress` | hidcli/src/avr_flashing.rs:120 | a page address is aligned and never the start command |
| `Flashing.SendPage` | hidcli/src/avr_flashing.rs:116-126 | one packet through an endpoint patches exactly its page, or stalls and changes nothing, under every cut |
| `Flashing.Flash` | hidcli/src/avr_flashing.rs:97-129 | success exactly when all pages start below the boot section; in any case the bytes of the pages below it are flashed and all others kept |
| `Flashing.PagesSendable` | hidcli/src/avr_flashing.rs:116-125 | before a page whose address overflows 16 bits, one at or above the boot section would be sent, which the device refuses |
| `Flashing.PagesBelowBoot` | hidcli/src/avr_flashing.rs:61-64 | all pages lie below the boot section exactly when every non-empty segment ends at or below it |
| `Flashing.FlashElf` | hidcli/src/avr_flashing.rs:47-129 | end to end, for all segments: an error exactly when some non-empty one starts at 8192 or above or reaches beyond page 65533; true whenever all end at or below a boot section within 8192; otherwise true exactly if they end at or below the boot section, which is never written; touched pages hold the overlay, the rest is unchanged |
| `Crc8.UpdateCrc` | app-nrf/src/services/avr_comm.c:83-92 | the bit-serial loop is eight steps of the specification |
| `Crc8.StepIsShift` | app-nrf/src/services/avr_comm.c:86-89 | one turn of the loop is one shift of the coefficient register |
| `Crc8.UpdateIsFeed` | app-nrf/src/services/avr_comm.c:83-92 | one call feeds eight message bits, low bit first, into a register that divides by the polynomial |
| `Crc8.CrcIsFeed` | app-nrf/src/services/avr_comm.c:149-153 | the CRC of a byte sequence is the register after all its bits |
| `Crc8.RegisterDivides` | app-nrf/src/services/avr_comm.c:83-92 | message times x^8 is quotient times polynomial plus register |
| `Crc8.CrcIsRemainder` | app-nrf/src/services/avr_comm.c:83-92 | a polynomial is the remainder of M(x)·x^8 modulo x^8+x^5+x^4+1 if and only if it is the CRC |
| `CrcDetection.CrcLinear` | app-nrf/src/services/avr_comm.c:83-92 | the CRC of an XOR of equally long messages is the XOR of their CRCs |
| `CrcDetection.CrcAppended` | app-nrf/src/services/avr_comm.c:148-158 | one more byte makes the CRC 0 exactly when it is the CRC of the rest |
| `CrcDetection.AcceptedIffErrorDivisible` | app-nrf/src/services/avr_comm.c:148-158 | a disturbed good reply is accepted exactly when the disturbance has CRC 0 |
| `CrcDetection.OddErrorDetected` | app-nrf/src/services/avr_comm.c:148-158 | an odd number of flipped bits is rejected, for any length |
| `CrcDetection.BurstErrorDetected` | app-nrf/src/services/avr_comm.c:148-158 | flips within 8 consecutive bits in the CRC's order (each byte low bit first), across byte borders, are rejected |
| `WireErrors.WireBurstAccepted` | app-nrf/src/services/avr_comm.c:61-66 | flips within 8 consecutive bits in the order sent (high bit first) are accepted exactly for seven pairs of neighbouring bytes |
| `WireErrors.ShortWireBurstDetected` | app-nrf/src/services/avr_comm.c:148-158 | flips within 6 consecutive bits in the order sent are rejected |
| `WireErrors.OneByteDetected` | app-nrf/src/services/avr_comm.c:148-158 | flips within one byte are rejected |
| `WireErrors.SevenBitsUnseen` | app-nrf/src/services/avr_comm.c:148-158 | seven are too many, for every good reply of two bytes |
| `AvrComm.CallbackContext.SpiDoneCallback` | app-nrf/src/services/avr_comm.c:104-118 | gives the semaphore unless it has just started the data transfer; error and pending state in each case |
| `AvrComm.CheckCrc` | app-nrf/src/services/avr_comm.c:148-158 | the loop with its 8-bit index accepts exactly replies whose last byte is the CRC of the rest |
| `AvrComm.AvrTransceive` | app-nrf/src/services/avr_comm.c:123-160 | 0 exactly when transfer, handshake, data start and CRC are all good; otherwise the first error |
| `AvrComm.FrameCheck` | app-avr/src/spi.c:55-62 | payload then CRC passes the check; odd disturbances, and bursts of 8 bits in the CRC's order or 6 in that of the wire, fail |
| `AvrComm.LoopEnds` | app-nrf/src/services/avr_comm.c:149-153 | with its 8-bit index the loop ends exactly for replies of at most 256 bytes |
| `AvrComm.SlaveSendsFrame` | app-avr/src/spi.c:55-62 | what the slave clocks out starts with its payload and the payload's CRC |
| `AvrComm.Exchange` | app-nrf/src/services/avr_comm.c:123-147 | the slave's side of every outcome: what it sees, answers and installs |
| `AvrComm.VerifyAvrId` | app-nrf/src/services/avr_comm.c:167-181 | against the slave, the exact result for every outcome and noise: 0 only for a completed, undisturbed exchange, an I/O error exactly if the noise has a CRC other than 0, else 1; the slave's descriptor is unchanged |
| `AvrComm.SendReportDescriptor` | app-nrf/src/services/avr_comm.c:183-189 | against the slave, for every outcome: 0 exactly if completed; the host is shown what an unattached slave received, or what it had |
| `AvrComm.EnableUsb` | app-nrf/src/services/avr_comm.c:191-195 | against the slave, for every outcome: a completed exchange starts its USB controller exactly once |
| `AvrComm.SendReport` | app-nrf/src/services/avr_comm.c:197-207 | against the slave, for every outcome: a completed exchange passes the payload on exactly to a configured host with a free endpoint |
| `SpiSlave.DescriptorIsLastInstalled` | app-avr/src/descriptors.c:137-151 | the last non-empty 0x08 transfer received while unattached alone decides the descriptor |
| `SpiSlave.DescriptorEmptyUntilInstalled` | app-avr/src/descriptors.c:89 | no descriptor before the first such transfer |
| `SpiSlave.AvrApp.GetHidReportDescriptorBuffer` | app-avr/src/descriptors.c:144-151 | room behind the control part while unattached, none otherwise |
| `SpiSlave.AvrApp.SetHidReportSize` | app-avr/src/descriptors.c:137-142 | the length changes only while unattached and within the buffer |
| `SpiSlave.AvrApp.PrepareResponse` | app-avr/src/spi_commands.c:11-34 | first byte and rest form the command's payload; where incoming bytes go |
| `SpiSlave.AvrApp.GetNextTxByte` | app-avr/src/spi.c:55-62 | the next byte is the payload's, then its CRC for as long as the master clocks |
| `SpiSlave.AvrApp.StoreRxByte` | app-avr/src/spi.c:64-68 | stores at the index while there is room, and touches nothing else |
| `SpiSlave.AvrApp.ProcessTransaction` | app-avr/src/spi_commands.c:36-50 | exactly the effect of the command |
| `SpiSlave.AvrApp.TransferData` | app-avr/src/spi.c:142-148 | a whole data stage: every byte sent is the reply's, every byte received is stored in order up to capacity |
| `SpiSlave.AvrApp.FinishTransaction` | app-avr/src/spi.c:149-157 | the host descriptor afterwards, USB starts and reports passed on; indices reset |
| `SpiSlave.AvrApp.SpiTask` | app-avr/src/spi.c:113-159 | over any history the descriptor shown is that of the history; every reply is payload then CRC; USB starts and reports exactly as the transaction says |
| `Gpio.GetNextBitPos` | app-nrf/include/util/bitmanip.h:19-23 | the lowest set bit, and the mask without it |
| `Gpio.RunKeepsAgreement` | app-nrf/src/platform/gpio.c:38-76 | after any calls and interrupts a pin is enabled exactly when its sense is configured, opposite to its from-level |
| `Gpio.RaisedIffFired` | app-nrf/src/platform/gpio.c:38-76 | after any calls and interrupts, the hardware raises the PORT event for a pin (low sensed and low, or high sensed and high) exactly if the handler would serve it |
| `Gpio.ArmedRaises` | app-nrf/src/platform/gpio.c:46 | a pin armed from a level raises the event at the other level |
| `Gpio.GpioDriver.SetEdgeCbMask` | app-nrf/src/platform/gpio.c:38-50 | arms exactly the mask's pins, which `Gpio.ArmedRaises` ties to the level raised |
| `Gpio.GpioDriver.UnsetEdgeCbMask` | app-nrf/src/platform/gpio.c:52-62 | disarms exactly the mask's pins |
| `Gpio.GpioDriver.GpioteIrqHandler` | app-nrf/src/platform/gpio.c:64-76 | calls each enabled pin at another level than recorded once, ascending, with its level; terminates with re-arming callbacks |
| `Debounce.RunKeepsRingInv` | app-nrf/src/services/debounce.c:49-88 | cell 0 and the cells above the moves left are empty, and the timer runs exactly while moves are left |
| `Debounce.CellsShift` | app-nrf/src/services/debounce.c:62-69 | requests move down one cell per timer callback, in any mix with edges and unsets of other pins |
| `Debounce.RequestServedAtNthTick` | app-nrf/src/services/debounce.c:49-74 | a request is served by exactly the N-th following timer callback, which does come |
| `Debounce.UnsetForgets` | app-nrf/src/services/debounce.c:81-88 | clearing cells 1 to moves left removes the pin from every cell |
| `Debounce.RotationRenumbers` | app-nrf/src/services/debounce.c:40-47 | advancing the start index renumbers all cells by one |
| `Debounce.ShiftRegister.DebounceGpioCb` | app-nrf/src/services/debounce.c:49-57 | the circular array does what the plain register does on an edge |
| `Debounce.ShiftRegister.DebounceTimerCb` | app-nrf/src/services/debounce.c:62-74 | the circular array shifts by one and hands over the pins of the next cell |
| `Debounce.ShiftRegister.Forget` | app-nrf/src/services/debounce.c:84-86 | the circular array forgets the pin |
| `DebouncedPins.StepKeepsInv` | app-nrf/src/services/debounce.c:49-88 | every event keeps the ring's invariant and the GPIO agreement, whatever the callbacks do |
| `DebouncedPins.StepKeepsPlace` | app-nrf/src/services/debounce.c:49-88 | one event keeps a pin in one place exactly when it neither sets its callback while it waits in a cell nor arms or disarms it past the service |
| `DebouncedPins.RearmingCallbackSplitsPin` | app-nrf/src/services/button_mode.c:71 | a run in which a callback sets its own pin again: armed and in a cell, for every N |
| `DebouncedPins.ReachableInOnePlace` | app-nrf/src/services/debounce.c:49-88 | over runs in which this pin's callback is not set while it waits, and anything may happen to other pins: managed, it is armed or in exactly one cell, never both; not managed, it is nowhere |
| `DebouncedPins.UnsetLeavesNothing` | app-nrf/src/services/debounce.c:81-88 | after the call, and any run before it, the pin is armed nowhere and in no cell |
| `DebouncedPins.ForeignInNoCell` | app-nrf/src/services/hid/source/opt_sensor.c:38-44 | a pin never handed to the service, such as one with a GPIO callback that re-arms itself, is in no cell |
| `DebouncedPins.DebounceService.HandlePortInterrupt` | app-nrf/src/platform/gpio.c:64-76 | the interrupt with its dispatch to debounce_gpio_cb or to a pin's own callback is the service's step; every served pin called once |
| `DebouncedPins.DebounceService.HandleTimerExpiry` | app-nrf/src/services/debounce.c:62-74 | timer callback over both drivers is the service's step |
| `DebouncedPins.DebounceService.UnsetEdge` | app-nrf/src/services/debounce.c:81-88 | the unset call over both drivers is the service's step |
| `DebouncedLevels.StepKeepsInStep` | app-nrf/src/services/debounce.c:62-69 | for each pin, what is waited for matches what its user knows after an event exactly unless it re-enables this pin at another level |
| `DebouncedLevels.CallsAlternate` | app-nrf/src/platform/gpio.c:68-75 | while matching, each callback reports the opposite of the one before |
| `DebouncedLevels.LevelsKnown` | app-nrf/src/services/debounce.c:49-88 | if a pin has settled whenever re-enabled, whatever other pins do, its user knows its level while it is armed without pending interrupt |
| `DebouncedLevels.SecondEdgeLost` | app-nrf/src/services/debounce.c:65-68 | a run in which the second edge is never reported |
| `ButtonPath.ToggleAccepted` | app-nrf/src/services/hid/source/buttons.c:71-78 | over every run through debounce and queue, an interrupt's toggle is accepted exactly if its pin is in step, and refused with -EINVAL otherwise |
| `ButtonPath.CalmAcceptsAll` | app-nrf/src/services/hid/source/buttons.c:71-90 | while a pin settles before it is re-enabled, whatever other pins do, its queue accepts every toggle |
| `ButtonPath.NextPressRefused` | app-nrf/src/services/hid/source/buttons.c:73-75 | a run in which a release is lost and the next press refused |
| `ToggleQueue.ToggleQueue.Len` | app-nrf/include/util/toggle_queue.h:19-21 | tail minus head modulo 2^32, as a signed number |
| `ToggleQueue.ToggleQueue.Put` | app-nrf/include/util/toggle_queue.h:23-29 | the counters' step and the result or error |
| `ToggleQueue.ToggleQueue.Get` | app-nrf/include/util/toggle_queue.h:31-36 | the counters' step and the event or error |
| `ToggleQueue.ToggleQueue.GetOrLast` | app-nrf/include/util/toggle_queue.h:38-43 | the counters' step and the newest state taken |
| `ToggleQueue.PutRefines` | app-nrf/include/util/toggle_queue.h:1-29 | the counters represent the queue after a put exactly while fewer than 2^32 - 1 events waited |
| `ToggleQueue.PopRefines` | app-nrf/include/util/toggle_queue.h:31-43 | taking an event out of the counters takes the front of the queue |
| `ToggleQueue.LenIsNegated` | app-nrf/include/util/toggle_queue.h:19-21 | the length function returns the negated number of events |
| `ToggleQueue.RunRefines` | app-nrf/include/util/toggle_queue.h:15-43 | every run with fewer than 2^32 waiting answers like a queue, across counter wrap-around |
| `ToggleQueue.Conservation` | app-nrf/include/util/toggle_queue.h:15-43 | first in first out, nothing lost or invented |
| `ButtonsSource.QueueForPin` | app-nrf/src/services/hid/source/buttons.c:29-53 | both search branches compute the specified index |
| `ButtonsSource.QueuePerPin` | app-nrf/src/services/hid/source/buttons.c:29-53 | exactly the table's pins have a queue, different pins different ones, also in the contiguous branch |
| `ButtonsSource.QueueOrder` | app-nrf/src/services/hid/source/buttons.c:37-52 | queues lie in the table's order, or in that of the pin numbers when these are contiguous |
| `ButtonsSource.ReportFiller` | app-nrf/src/services/hid/source/buttons.c:58-69 | every queue gives up at most one event, each button's bit is its queue's state, other bits and bytes are unchanged, and another round is asked for exactly if something waits |
| `ButtonsSource.InterruptCb` | app-nrf/src/services/hid/source/buttons.c:71-78 | the inverted level enters the pin's queue only, and the collector is told exactly if it was accepted |
| `HidReport.ClearNonPersistentData` | interface/hid/hid_report_struct.h:24-32 | bytes are kept exactly where the mask says so |
| `HidReport.AfterReport` | interface/hid/hid_report_map.c:80 | of the mouse report only the buttons persist |
| `HidReport.WithButtonBits` | interface/hid/hid_report_struct.h:7-16 | writing one button leaves every other bit |
| `Collector.StepKeepsInv` | app-nrf/src/services/hid/collector.c:31-71 | the protocol invariant holds after every step of every party |
| `Collector.NoLostWakeUp` | app-nrf/src/services/hid/collector.c:31-64 | blocked with no setter halfway: no enabled source has a posted bit or is owed a run; a post stays pending until its filler starts |
| `Collector.ServedSoon` | app-nrf/src/services/hid/collector.c:47-71 | in every interleaving a posted enabled source's filler starts within 6n + 9 collector steps, plus three per change of enabled sources posted meanwhile, unless the source is disabled |
| `Collector.EnabledAsSet` | app-nrf/include/services/hid/collector.h:41-49 | over every run an existing source is enabled exactly if the last call about it said so, also if before the collector's start |
| `Collector.DisabledStaysQuiet` | app-nrf/src/services/hid/collector.c:34-37 | in every run, after a call that disables a source and until one that enables it, its filler does not start once the collector has looked again |
| `Collector.ChangeNoticed` | app-nrf/src/services/hid/collector.c:31-45 | in every interleaving the collector looks within 2n + 3 steps of a posted change |
| `Collector.NoSpuriousRuns` | app-nrf/src/services/hid/collector.c:55-64 | in every run a filler runs at most once for each post of its source |
| `Collector.OrderAscends` | app-nrf/src/services/hid/collector.c:59-64 | a round starts each posted source's filler once, in ascending order |
| `Collector.RunFillers` | app-nrf/src/services/hid/collector.c:59-64 | the loop over the events starts the fillers in that order |
| `Collector.RoundAlone` | app-nrf/src/services/hid/collector.c:56-64 | uninterrupted, a round settles exactly what its sources were owed |
| `Buttons.StepKeepsInv` | app-nrf/src/services/hid/source/buttons.c:58-78 | every interrupt, foreign step and collector step keeps each button's story, queue and coverage |
| `Buttons.FillerAlone` | app-nrf/src/services/hid/source/buttons.c:58-69 | the filler's steps, uninterrupted, read each button once and post exactly if something waits |
| `Buttons.Delivery` | app-nrf/src/services/hid/source/buttons.c:58-78 | initial state and reported states, repeats removed, are a prefix of initial state and accepted toggles, and all of it once the collector is blocked with the source enabled and no setter halfway |
| `Buttons.FirstReportIsFirstRead` | app-nrf/src/services/hid/source/buttons.c:58-61 | the first report shows the initial state exactly if the queue was empty when the run first read it |
| `Buttons.ReportsAlone` | app-nrf/src/services/hid/source/buttons.c:58-61 | over every run: without the initial state in front, the reported states are a prefix of the story exactly if the queue was empty at the first read |
| `Buttons.FirstReportMayShowToggle` | app-nrf/src/services/hid/source/buttons.c:71-90 | a reachable state in which it does not |
| `ButtonReports.ReportsFollowInterrupts` | app-nrf/src/services/hid/source/buttons.c:58-90 | in every run from pins to sink: the reported states, repeats removed, are a prefix of what interrupts told about the button, repeats removed, and all of it once the collector is blocked |
| `ButtonReports.CalmReportsFollowLevels` | app-nrf/src/services/hid/source/buttons.c:58-90 | if this button's pin settles before it is re-enabled, they are a prefix of its initial state and every state its interrupts told |
| `ButtonReports.InitializedKnown` | app-nrf/src/services/hid/source/buttons.c:80-90 | the source's initialization brings about what that theorem starts from |
| `LogName.NameRoundTrip` | modules/log_backend_my_fs/zephyr/log_backend_my_fs.c:227-253 | the number of a log file's name is read back |
| `LogName.OnlyLogFiles` | modules/log_backend_my_fs/zephyr/log_backend_my_fs.c:232-252 | only files with the prefix and four more characters get a number, which is at most 9999 |
| `LogName.IdNamesFile` | modules/log_backend_my_fs/zephyr/log_backend_my_fs.c:246-250 | an entry read as number n is file n exactly when its last four characters are digits |
| `LogName.LookAlike` | modules/log_backend_my_fs/zephyr/log_backend_my_fs.c:246-250 | an entry counted as a log file that is none |
| `LogRing.CountFiles` | modules/log_backend_my_fs/zephyr/log_backend_my_fs.c:279-297 | exact number, lowest and highest number, for any order and with foreign entries |
| `LogRing.FindEnds` | modules/log_backend_my_fs/zephyr/log_backend_my_fs.c:301-327 | the highest number near the lowest and the lowest near the highest |
| `LogRing.ScanDirectory` | modules/log_backend_my_fs/zephyr/log_backend_my_fs.c:268-336 | restart recovery: exact count, both ends of the window, wrapped or not; 0 and 9999 when empty |
| `LogRing.WrapRecognized` | modules/log_backend_my_fs/zephyr/log_backend_my_fs.c:301-302 | the span test recognizes a wrapped window exactly for limits below 5000 |
| `LogRing.LogBackend.DelOldestLog` | modules/log_backend_my_fs/zephyr/log_backend_my_fs.c:394-421 | terminates; removes exactly the nearest existing file from `oldest` on and leaves `oldest` just after it |
| `LogRing.LogBackend.DeleteAboveLimit` | modules/log_backend_my_fs/zephyr/log_backend_my_fs.c:363-377 | the oldest file goes exactly if there were as many as the limit |
| `LogRing.LogBackend.NextNumber` | modules/log_backend_my_fs/zephyr/log_backend_my_fs.c:268-356 | the number after the window, before and after a restart |
| `LogRing.LogBackend.AllocateNewFile` | modules/log_backend_my_fs/zephyr/log_backend_my_fs.c:255-392 | a new empty file under an unused number, a window of at most the limit with `file_ctr` its size; fails exactly when it meets its fault, and then what is left |
| `LogRing.LogBackend.WriteLogToFile` | modules/log_backend_my_fs/zephyr/log_backend_my_fs.c:148-225 | the chunk goes whole into the newest file, or into a new one if it would exceed the size, unless a file-system call fails; state, ring and return value in every case |
| `LogRing.StepKeepsInv` | modules/log_backend_my_fs/zephyr/log_backend_my_fs.c:148-225 | every write, failing write and restart keeps the suffix, the limits and the sizes; files are deleted only at the limit |
| `LogRing.LatestChunksKept` | modules/log_backend_my_fs/zephyr/log_backend_my_fs.c:148-388 | after any writes, failures and restarts the files in circular order are the last chunks that reached the disk, whole; all of them below the limit; sizes bounded |
| `LogRing.FaultFreeLogsAll` | modules/log_backend_my_fs/zephyr/log_backend_my_fs.c:148-225 | without failures every chunk written reaches the disk, in order |
| `LogRing.AllWritesKept` | modules/log_backend_my_fs/zephyr/log_backend_my_fs.c:148-388 | from an empty directory, after any writes and restarts without failures, the files in circular order are the last of all chunks written, whole; all of them below the limit; sizes bounded |
| `LogRing.FilesAreFilled` | modules/log_backend_my_fs/zephyr/log_backend_my_fs.c:175-181 | over writes without failures or restarts, of two adjacent files the first has no room for the first chunk of the second |
| `LogRing.OneFileWhileItFits` | modules/log_backend_my_fs/zephyr/log_backend_my_fs.c:175-181 | while all writes fit the size of a file there is one file, file 0, holding them all, and nothing is deleted |
| `LogRing.ProcessedIsLogged` | modules/log_backend_my_fs/zephyr/log_backend_my_fs.c:148-225 | a chunk reported as processed is on disk unless the backend is corrupted or not mounted; one reported as not processed is not |
| `LogRing.FailuresShow` | modules/log_backend_my_fs/zephyr/log_backend_my_fs.c:164-225 | no failing call goes unnoticed: corrupted state, or not processed |
| `LogRing.RestartBeginsFile` | modules/log_backend_my_fs/zephyr/log_backend_my_fs.c:268-388 | after a restart the next chunk begins a file of its own, and the other files stay |
| `LogRing.CorruptedWritesNothing` | modules/log_backend_my_fs/zephyr/log_backend_my_fs.c:164-164 | after an error nothing is written until the next restart |
| `Battery.BatteryChargeLevel` | app-nrf/src/services/battery.c:45-69 | terminates in bounds; the floor of the exact clamped interpolation in percent |
| `Battery.FloorOfSum` | app-nrf/src/services/battery.c:68 | two truncating divisions lose nothing against one |
| `Battery.ExactAtPoint` | app-nrf/src/services/battery.c:27-43 | the curve passes through its points |
| `Battery.LevelMonotone` | app-nrf/src/services/battery.c:45-69 | the level never falls as the voltage rises, and stays within the curve's |
| `Battery.CapacityEnds` | app-nrf/src/services/battery.c:27-43 | the firmware's curve: 100 exactly from 3950 mV, 0 exactly below 3172 mV |
| `SpiBus.StepKeepsInv` | app-nrf/src/platform/spi.c:53-177 | every step keeps lock counts, and active pins with the owner's transfer |
| `SpiBus.OthersKeepTheirLocks` | app-nrf/src/platform/spi.c:60-71 | no step changes what another thread holds, not even the unlock after a failed lock |
| `SpiBus.ChipSelectExclusive` | app-nrf/src/platform/spi.c:133-177 | at most one pin active, only under its caller's lock; a return leaves the pin inactive unless the lock failed and the owner uses the same pin; locks balanced |
| `SpiBus.StepKeepsPinsHeld` | app-nrf/src/platform/spi.c:138-175 | a transfer's pin stays active exactly unless a thread without the lock deactivates it |
| `SpiBus.SharedPinDeselected` | app-nrf/src/platform/spi.c:138-175 | a run in which that happens |
| `SpiBus.DistinctPinsNeverClash` | app-nrf/src/platform/spi.c:173-176 | with different pins it cannot, and every return leaves the caller's pin inactive |
| `SpiBus.TransfersKeepTheirPins` | app-nrf/src/platform/spi.c:138-175 | in every run in which concurrent calls use different pins, each transfer's pin stays active |
| `SpiBus.NeverEarlyIff` | app-nrf/src/platform/spi.c:152-158 | a transfer can never succeed before its own END exactly if it starts with the semaphore empty and no END outstanding |
| `SpiBus.OrdinaryRunsNeverEarly` | app-nrf/src/platform/spi.c:152-158 | in every run without timeouts a transfer starts with the semaphore empty and no END outstanding, and its wait ends only after its own, final END interrupt in the run |
| `SpiBus.EarlyReachable` | app-nrf/src/platform/spi.c:152-168 | a run in which a transfer succeeds on the END of the one before |

## Left out

- Bit masks of pins and event bits are sets of bit positions below 32, not 32-bit words.
- Of the callback tables (`gpio.c`, `debounce.c`) only whether a pin's GPIO callback is `debounce_gpio_cb` is kept; which
  pins are called, and with which level, is modelled. A callback that calls the service on its own pin is an interrupt
  followed by that call.
- Interrupts run to completion and do not nest; timer and GPIO interrupts do not preempt each other.
- A read-modify-write of the mask of enabled sources is one step, both in the setter and at the collector's start.
- `k_event_wait`, `k_mutex`, `k_sem`, `k_timer` and `irq_lock` behave as Zephyr documents them; their code is not part
  of this model.
- Other report fillers (encoder, optical sensor) appear in `Collector` only as sources that run and post.
- Creating the log directory and looking up the volume. `fs_statvfs`: its failure in the deletion loop acts like that of
  `fs_open`, elsewhere its result is not used.
- LogRing.LogBackend.WriteLogToFile: without short writes (lines 185-190) and without the branch for a newest file that
  someone else has removed (lines 196-205). A failing `fs_write` writes nothing.
- LogRing.ScanDirectory: directory entries are given by their numbers; that each number appears once is assumed, and
  `LogName.IdNamesFile` says for which names this holds.
- ELF parsing and the choice of load segments: a segment is an address and bytes.
- HostFlashing.ReadFlashData: a page index above 16 bits is an error, as it is in a build with overflow checks; without
  them it wraps.
- Bootloader.Bootloader.SetReport: packets have even sizes. Requests for other interfaces, the status stage and the
  watchdog reset are omitted.
- The temporary page buffer of the AVR is empty before each page, as it is after reset and after each page write.
- SPI byte timing (write collisions, register spamming, delays), ghost-power detection and clock-delay workarounds: whole
  bytes are exchanged, with an optional last turn of the loop.
- AvrComm.CheckCrc: replies of at most 256 bytes; with more the loop does not end (`AvrComm.LoopEnds`).
- SpiSlave.AvrApp.SpiTask: the USB state does not change within one transaction, and the control descriptor is any
  non-empty byte sequence shorter than the buffer.
- The configuration cache of `spi_configure`, `spi_transceive_sync` and the delayed clock shutdown.
- Battery.BatteryChargeLevel: unbounded integers; the firmware's curve stays within 32 bits.
- Bluetooth, USB stack, HID device search, command lines, shells, LEDs, clock and power management: input and output, or
  library code that is not in the repository.
