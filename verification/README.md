# Verification of tt-zephyr-platforms

Dafny models of the parts of the Tenstorrent platform firmware and its tools whose
correctness is hardest to see from the code, with proofs about them.

| files | what they model |
|---|---|
| `RangeTracker`, `BootFs`, `BootFsParse`, `BootFsRoundTrip`, `BootFsDamage`, `BootFsBuild`, `BootFsDetermined`, `BootFsPipeline` | building, printing and parsing the SPI boot file system, and what damage to it is noticed |
| `IntelHex`, `HexPrinter`, `Base16` | its Intel HEX and base-16 printers, and that all three printers agree |
| `BitReverse`, `JtagTap`, `JtagDriver`, `JtagAxi` | the bit-banged JTAG driver running against the emulated tap controller and AXI port |
| `RingSlots`, `RingCounters`, `RingContents`, `VirtualUart` | the shared-memory virtual UART: lock-free counters and the bytes behind them in every interleaving, and its contents as two queues |
| `Cm2dm` | the SMC to DMC message protocol over a bus that loses requests, replies and acks |
| `GalaxyFlash` | the three-phase read-modify-write flasher over NOR flash with failing commands |
| `ArcDma`, `DmaCompletion` | splitting a DMA transfer, and reporting completions on many channels in every interleaving |
| `GrendelClock`, `AiclkRamp`, `NocAcks` | clock arithmetic and wrap-aware ack counting |
| `Bits`, `Bytes`, `Division`, `Sets`, `Wrappers` | bit lists, bytes and the checksum, and supporting arithmetic |

Code that changes state is modelled by classes and loops proved against functions;
concurrent code by step functions with theorems over every run. Integer widths, wraps
and casts are written out.

## What the code does where it differs from its intent

- A JTAG block write whose data contains the words 3 or 4, or whose address is 3, is not
  stored by the emulator, which takes them for register selectors
  (`JtagAxi.BlockWriteExact`). A driver read writes zero to the emulated word, for address 3
  to word 1 (`JtagAxi.ReadPreservesExactly`).
- The emulator's second exit states go back to shifting on TMS high, where IEEE 1149.1
  goes to the update states, so five high clocks do not reset from a pause
  (`JtagTap.FiveHighClocksReset`).
- `RangeTracker.add` accepts a range that contains the next one
  (`RangeTracker.AddMissesContainment`); `writes()` catches it in its second pass.
- `to_boot_fs` does not reserve an address the failover image gives, so another image can be
  placed on it and printing fails (`BootFsPipeline.FailoverIsNotReserved`,
  `BootFsPipeline.PrintsExact`); nor does it check that the address is aligned, which
  `from_binary` does, nor that the image leaves the slot behind the table alone, where it
  can hide the end of the table (`BootFsPipeline.BuiltReadsBack`,
  `BootFsPipeline.FailoverHidesTheEnd`).
- A changed word in a payload that lies in the slot behind the table can go unnoticed, when
  it makes the payload a later descriptor with the tag of its own entry
  (`BootFsDamage.HiddenDamage`; exactly when, in `BootFsDamage.AcceptedExact`).
- 512 table entries leave no terminator before the failover descriptor, and payload sizes
  are cut to 24 bits (`BootFsRoundTrip.RoundTripExact`).
- An empty last write pads the flat binary but not the base-16 file
  (`Base16.B16AgreesWithBinary`).
- `tt_vuart_poll_out` publishes the counter before it stores the byte, so a consumer can
  read a stale slot (`RingCounters.PublishBeforeStoreRaces`; exactly when, in
  `RingContents.FetchExact`); `vuart_putc` overwrites the oldest unread byte of a full ring
  (`VirtualUart.Vuart.PutC`).
- All DMA channels are set up with the same descriptors, and done bits are shared. If the
  hardware gives a channel a descriptor that another active channel still holds, which
  nothing in the driver rules out, the two can report one completion twice
  (`DmaCompletion.InitSharesHandles`, `DmaCompletion.AtMostOnceExact`). A callback can come
  after `stop` (`DmaCompletion.CallbackAfterStop`; exactly when, in
  `DmaCompletion.LateReportExact`), and a channel can be reported complete while its
  transfer is running (`DmaCompletion.StaleHandleReportsRunning`,
  `DmaCompletion.ReusedHandleReportsRunning`; exactly when, in `DmaCompletion.OwnExact`).
- A Grendel rate of at least 128 reference clocks can be accepted and come out wrong
  (`GrendelClock.AcceptedButWrong`); its outputs share one control word, so setting one
  can move every other running one (`GrendelClock.OneMovesAnother`; exactly when, in
  `GrendelClock.KeepsAnswerExact`). The AICLK ramp does not end for a feedback divider of
  2^16 or more (`AiclkRamp.SetAiclkEndsExact`).

## Model

| member | source | states |
|---|---|---|
| `Bytes.Cksum` | scripts/tt_boot_fs.py:728-740 | for at least four bytes the loop returns the sum of all bytes, each weighted by its place in its word (1, 2^8, 2^16, 2^24), modulo 2^32; for fewer it returns 0 |
| `Bytes.WordSumByPosition` | scripts/tt_boot_fs.py:728-740 | the sum over little-endian words, a short last word included, is that sum of weighted bytes |
| `Bytes.ChecksumDetects` | scripts/tt_boot_fs.py:728-740 | changing any one word, a short last word included, of data of at least four bytes changes the checksum |
| `RangeTracker.Tracker.Add` | scripts/tt_boot_fs.py:330-353 | succeeds exactly when the scan finds a place and the start is aligned; the range goes to that place; a refusal changes nothing |
| `RangeTracker.ScanExact` | scripts/tt_boot_fs.py:330-353 | over sorted disjoint ranges the scan accepts exactly the free ranges and those that swallow the next one whole |
| `RangeTracker.AddKeepsValid` | scripts/tt_boot_fs.py:330-353 | an accepted range keeps the ranges sorted and disjoint exactly when it was free |
| `RangeTracker.AddMissesContainment` | scripts/tt_boot_fs.py:330-353 | a concrete range that contains an existing one and is accepted |
| `RangeTracker.AlignUpIsCeiling` | scripts/tt_boot_fs.py:355-356 | for a power of two the mask expression is the least multiple not below the value |
| `RangeTracker.Tracker.FindGapOfSize` | scripts/tt_boot_fs.py:358-372 | for all ranges, the start of the file or the aligned end of the first range with room before the next one; over sorted disjoint aligned ranges the result is aligned and free, no lower aligned address from the end of the first range on fits, and the hole before the first range is used only when it is larger than the size |
| `RangeTracker.Tracker.Insert` | scripts/tt_boot_fs.py:374-376 | never raises on such ranges, keeps them sorted and disjoint, and places the data at the first hole that fits |
| `BootFs.SortByAddrSorts` | scripts/tt_boot_fs.py:392-419 | the writes come out in address order and are a permutation of those collected |
| `BootFs.SortByAddrStable` | scripts/tt_boot_fs.py:392-419 | writes with equal addresses keep their order |
| `BootFs.CollectWrites` | scripts/tt_boot_fs.py:392-411 | the write list of a file system, or an error exactly for a missing entry or a tag that does not fit |
| `BootFs.RecheckExact` | scripts/tt_boot_fs.py:412-419 | the second pass accepts address-ordered writes exactly when they are pairwise disjoint and no empty write sits at the end of another |
| `BootFs.Writes` | scripts/tt_boot_fs.py:392-419 | returns exactly when entries and tags are usable and nothing hits; whatever it returns is pairwise disjoint and in order |
| `BootFs.ImageHolds` | scripts/tt_boot_fs.py:421-430 | every write can be read back from the image at its address |
| `BootFs.ImageErased` | scripts/tt_boot_fs.py:421-430 | every address no write covers holds 0xFF |
| `BootFs.ImageLength` | scripts/tt_boot_fs.py:421-430 | the image ends where the last write ends |
| `BootFs.Flatten` | scripts/tt_boot_fs.py:421-430 | the appending loop builds the image of the writes that are included |
| `BootFs.ToBinary` | scripts/tt_boot_fs.py:421-430 | prints exactly the file systems writes() accepts, as the image of their included writes |
| `BootFsParse.ReadTable` | scripts/tt_boot_fs.py:179-189 | the loop reads descriptors up to the first invalid one, or fails at the end of the data |
| `BootFsParse.CheckEntries` | scripts/tt_boot_fs.py:507-592 | the loop checks every named entry and stops at the first error |
| `BootFsParse.FromBinary` | scripts/tt_boot_fs.py:553-592 | succeeds exactly on acceptable data: a table of descriptors ended by an odd flag byte, the four training bytes, and each last descriptor of its tag and the failover descriptor aligned, in range and with a matching checksum unless its tag is exempt; the result is then read from those bytes |
| `BootFsParse.ParseAccepts` | scripts/tt_boot_fs.py:507-592 | for every byte string, parsing succeeds if and only if the bytes are acceptable, each test stated on byte offsets |
| `BootFsParse.ParseReads` | scripts/tt_boot_fs.py:507-592 | the parsed file system has the tags of the table in order, and for each tag the addresses, flag and payload that the last descriptor with that tag describes, little-endian |
| `BootFsRoundTrip.TagRoundTrip` | scripts/tt_boot_fs.py:165-171 | a tag of at most eight non-zero bytes reads back from its descriptor field |
| `BootFsRoundTrip.DescriptorReadsBack` | scripts/tt_boot_fs.py:210-235 | address, load address, size modulo 2^24, executable flag, checksum and tag read back from a packed descriptor |
| `BootFsRoundTrip.PrintedLayout` | scripts/tt_boot_fs.py:210-235 | every slot of a printed image, the failover slot included, has its fields at their byte offsets, flag byte 2 for an executable and 0 otherwise, security word 0, and as last word the checksum of the slot with that word zeroed |
| `BootFsRoundTrip.PrintedStores` | scripts/tt_boot_fs.py:392-430 | a printed image holds every descriptor in its slot, every payload at its address, the failover descriptor and the training value; the slot behind the table ends it exactly when its flag byte is unwritten or odd |
| `BootFsRoundTrip.TableLimit` | scripts/tt_boot_fs.py:392-419 | whatever prints has at most 512 table entries |
| `BootFsRoundTrip.RoundTripExact` | scripts/tt_boot_fs.py:421-430 | reading back a printed file system with aligned payloads, wherever they lie, gives the same file system, up to the provisioning flag, exactly when it has fewer than 512 entries, no payload hides the end of the table, and every payload is below 2^24 bytes |
| `BootFsDamage.CorruptEntryExact` | scripts/tt_boot_fs.py:507-550 | with one word of a payload changed the entry is rejected exactly when the payload has at least four bytes and the tag is not exempt |
| `BootFsDamage.AcceptedExact` | scripts/tt_boot_fs.py:507-592 | with any one word of a printed, non-exempt payload of at least four bytes changed, wherever the payload lies, the image is accepted exactly when the descriptors then read behind the table include one with the tag of that entry and all that win pass their check |
| `BootFsDamage.CorruptionDetected` | scripts/tt_boot_fs.py:507-592 | so the image is rejected whenever the changed word leaves the flag that ends the table alone or odd |
| `BootFsDamage.RemovedEndDetected` | scripts/tt_boot_fs.py:553-592 | and otherwise, whatever the sizes of the other payloads, unless a descriptor read behind the table carries the tag of the entry |
| `BootFsDamage.HiddenDamage` | scripts/tt_boot_fs.py:562-589 | a file system that prints and reads back, with one changed word that goes unnoticed: its payload turns into a later descriptor with the same tag |
| `BootFsDamage.SomeMimic` | scripts/tt_boot_fs.py:562-589 | such a file system exists |
| `BootFsDamage.FailoverCorruptionDetected` | scripts/tt_boot_fs.py:553-592 | any one changed word of a printed failover image of at least four bytes, wherever it lies, makes reading the whole image fail |
| `IntelHex.RecordSumsToZero` | scripts/tt_boot_fs.py:432-504 | the bytes of every record, check byte included, sum to 0 modulo 256 |
| `IntelHex.LineReadsBack` | scripts/tt_boot_fs.py:432-504 | a printed record line parses to the record it was printed from, lower-case segment digits included |
| `IntelHex.WriteLoads` | scripts/tt_boot_fs.py:432-504 | loading the records of one write adds exactly its bytes at its address and leaves the segment base the printer assumes |
| `IntelHex.HexDenotesMemory` | scripts/tt_boot_fs.py:432-504 | parsing the whole HEX text gives exactly the memory of the writes, whenever every write that is not empty ends by 4 GiB |
| `HexPrinter.RecordChecksum` | scripts/tt_boot_fs.py:432-504 | the loop over digit pairs computes the check byte of the record |
| `HexPrinter.DataText` | scripts/tt_boot_fs.py:474-504 | a data line character by character: count, offset high digits first, kind 0, data, and two digits that bring the sum of all bytes to zero |
| `HexPrinter.SegmentText` | scripts/tt_boot_fs.py:454-472 | a segment line character by character: kind 4 and the upper half of the address in small digits, closed the same way |
| `HexPrinter.PrintWrite` | scripts/tt_boot_fs.py:432-504 | the chunk loop emits exactly the records of the write, cut at 16 bytes and at segment ends, and fails exactly past 4 GiB |
| `HexPrinter.ToIntelHex` | scripts/tt_boot_fs.py:432-504 | prints a file system exactly when writes() accepts it and no included byte is past 4 GiB; the text is then the HEX text of its included writes |
| `HexPrinter.HexAgreesWithBinary` | scripts/tt_boot_fs.py:421-504 | decoding the HEX file and filling its gaps with 0xFF gives the flat binary |
| `Base16.SegmentsMaximal` | scripts/tt_boot_fs.py:594-605 | the segments walked by to_b16 are the maximal runs of used addresses, in order and with gaps between them |
| `Base16.RunText` | scripts/tt_boot_fs.py:598-603 | each run gives an at-sign with its start in decimal, and a line of its bytes in hexadecimal |
| `Base16.ToB16` | scripts/tt_boot_fs.py:594-605 | prints a file system exactly when its HEX file prints; the text shows the maximal runs of the memory that HEX file denotes |
| `Base16.PrintersAgree` | scripts/tt_boot_fs.py:421-605 | on every file system the three printers accept, HEX file, flat binary and base-16 file denote the same memory; the base-16 file reads back as the flat binary exactly when the last write is not empty |
| `Base16.ReadBootfsRawFromB16` | scripts/smc_spi_flash.py:61-75 | the reading loop computes the fold of its line reader, stopping at the first error |
| `Base16.B16ReadsBack` | scripts/tt_boot_fs.py:594-605 | reading the printed text, split into lines again, gives the memory with its gaps filled, up to the end of the last run |
| `Base16.B16AgreesWithBinary` | scripts/tt_boot_fs.py:594-605 | that is the flat binary exactly when the last write is not empty |
| `BootFsBuild.PlaceFixed` | scripts/tt_boot_fs.py:670-679 | succeeds exactly when every image with an address is accepted in turn, and tracks each at its address; for a sound specification the ranges stay sorted and disjoint and nothing is refused |
| `BootFsBuild.PlaceRest` | scripts/tt_boot_fs.py:681-690 | a sound specification never raises, and every other image goes to the lowest aligned hole past the reserved region that is clear of all fixed and earlier images |
| `BootFsBuild.PlacementUnique` | scripts/tt_boot_fs.py:681-690 | so the specification alone determines every address |
| `BootFsBuild.Collect` | scripts/tt_boot_fs.py:692-704 | one entry for every tracked image at its range; the order is the listed tags followed by the others in the order of the ranges, no tag twice |
| `BootFsBuild.PlaceFailover` | scripts/tt_boot_fs.py:706-725 | the failover entry is at its own address, or else in the first aligned hole that fits |
| `BootFsBuild.ToBootFs` | scripts/tt_boot_fs.py:648-725 | succeeds exactly when the images with an address and then the others are accepted in turn; the result represents exactly the images; a sound specification always succeeds with every image at its determined address, aligned and clear, executable tags in file order and the others in address order; a failover image without an address is at the lowest clear one, one with an address is clear exactly when that address is past the reserved region and apart from every image |
| `BootFsBuild.BadFixedRefused` | scripts/tt_boot_fs.py:670-679 | for every block size, an image with an address that is not aligned, or lies in the reserved region or starts inside an earlier such image, makes the build fail |
| `BootFsDetermined.BuiltUnique` | scripts/tt_boot_fs.py:648-725 | which determines the whole file system: order, entries, addresses and failover entry |
| `BootFsBuild.ClearPrints` | scripts/tt_boot_fs.py:392-419 | images that are clear of each other and a failover image out of their way pass the overlap check of writes() |
| `BootFsPipeline.BuiltReadsBack` | scripts/tt_boot_fs.py:553-725 | a built and printed file system whose images the descriptor format can store reads back as itself exactly when its failover image is aligned and leaves the flag byte of the slot behind the table unwritten or odd |
| `BootFsPipeline.PrintsExact` | scripts/tt_boot_fs.py:392-419 | a built file system prints exactly when its failover image is out of the way of the table, its own descriptor, the training value and every placed image |
| `BootFsPipeline.FailoverIsNotReserved` | scripts/tt_boot_fs.py:706-711 | an image without an address and a failover image with the first free address always collide |
| `BootFsPipeline.FailoverHidesTheEnd` | scripts/tt_boot_fs.py:553-592 | a failover image at address 0 with an even byte 11 and no other image prints and does not read back |
| `BootFsPipeline.MakeImage` | scripts/tt_boot_fs.py:421-725 | building and printing a sound specification of at most 512 images succeeds exactly when the failover image fits at its address; parsing the image recovers the file system exactly when an address given for the failover image is aligned and does not hide the end of the table |
| `BitReverse.Bitrev64Reverses` | include/tenstorrent/bitrev.h:16-42 | bit i of the result is bit 63 - i of the argument |
| `BitReverse.Bitrev64Involution` | include/tenstorrent/bitrev.h:16-42 | reversing twice gives the argument back |
| `JtagTap.FiveHighClocksReset` | drivers/jtag/jtag_emul.c:25-64 | five clocks with TMS high reach reset exactly from the states that are not a pause or second exit state |
| `JtagTap.StandardExact` | drivers/jtag/jtag_emul.c:25-64 | the transition table is that of IEEE 1149.1 except, exactly, on leaving a second exit state with TMS high |
| `JtagTap.DrScanDelivers` | drivers/jtag/jtag_emul.c:112-181 | a data scan hands the emulated port exactly its last bits before the final one, as a number |
| `JtagTap.IrScanKeepsPort` | drivers/jtag/jtag_emul.c:112-181 | an instruction scan never touches the port |
| `JtagTap.IrScanHolds` | drivers/jtag/jtag_emul.c:112-181 | the held instruction is the scanned one behind one stale bit |
| `JtagDriver.JtagLink.GpioEmulCallback` | drivers/jtag/jtag_emul.c:79-110 | a falling clock edge is one step of the tap, any other pin change none |
| `JtagDriver.JtagLink.OnUpdateReg` | drivers/jtag/jtag_emul.c:112-149 | the register update as a function of the tap state |
| `JtagDriver.JtagLink.OnTckFalling` | drivers/jtag/jtag_emul.c:153-181 | the falling edge as a function of the tap state and the pins |
| `JtagDriver.JtagLink.Tick` | drivers/jtag/jtag_bitbang.c:155-164 | count ticks are count clocks, or one more if the clock line was high, ending low |
| `JtagDriver.JtagLink.Reset` | drivers/jtag/jtag_bitbang.c:166-185 | from every state: five clocks with TMS high, six after a clock line left high, and one low; the tap ends idle exactly outside the pause and second exit states, or from a second exit state with the clock line left high; from idle the port is unchanged |
| `JtagDriver.JtagLink.UpdateIr` | drivers/jtag/jtag_bitbang.c:187-214 | from idle to the data column without ever pausing, exactly an instruction scan of the data, with the levels of TMS and TDI at every clock |
| `JtagDriver.JtagLink.XferDr` | drivers/jtag/jtag_bitbang.c:216-273 | exactly a data scan of the data, with the levels of TMS and TDI at every clock; the returned word has as bit i the level of TDO just before bit i was clocked in, for every count up to 64 |
| `JtagDriver.CapturedWord` | drivers/jtag/jtag_bitbang.c:267-270 | shifting the collected word to the top and reversing it restores sampling order |
| `JtagAxi.AccessTdr` | drivers/jtag/jtag_bitbang.c:381-425 | one register access delivers the selector and then the word to the port, and returns the bits sampled behind the selector |
| `JtagAxi.SetupAccess` | drivers/jtag/jtag_bitbang.c:367-379 | presents on TDI the op code and the two bank-select fields in their bit positions, every other bit 0, and does not touch the port |
| `JtagAxi.SetupBits` | drivers/jtag/jtag_bitbang.c:367-379 | the packed instruction is the concatenation of its fields: op code in bits 0-2, address bits 0-2 in bits 7-9 and 3-8 in bits 17-22 |
| `JtagAxi.ReadId` | drivers/jtag/jtag_bitbang.c:299-306 | starts and ends idle, presents the instruction 6 and 32 zeros clock by clock, and returns TDO as it was before each of the 32 bits |
| `JtagAxi.ReqClear` | drivers/jtag/jtag_bitbang.c:427-432 | starts and ends idle, selects the register chain by its instruction and delivers one zero to the address register |
| `JtagAxi.AxiWrite` | drivers/jtag/jtag_bitbang.c:458-472 | starts and ends idle and selects the register chain by its instruction; for every address and latch state the port receives the write, and through a quiet latch the emulated memory changes by the emulator's write; the result is the status bit, by the clock at which it was on TDO |
| `JtagAxi.WriteEffect` | drivers/jtag/jtag_emul.c:112-149 | through a quiet latch a driver write leaves the latch quiet and performs the emulator's write, for every address and word, address 3 included |
| `JtagAxi.AxiBlockWrite` | drivers/jtag/jtag_bitbang.c:474-486 | for every address and latch state the port receives the writes in order; through a quiet latch the memory changes by those writes, as an overlay off address 3 where no word is 3 or 4; the result is 0 exactly when every write passed |
| `JtagAxi.BlockWriteExact` | drivers/jtag/jtag_bitbang.c:474-486 | through a quiet latch the block write overlays its words on every memory exactly when there are none, or the address is not 3 and no word equals a selector (3 or 4) |
| `JtagAxi.AxiRead` | drivers/jtag/jtag_bitbang.c:434-456 | for every address and latch state; polls up to the first status with a low bit set and at most 1000 times, returns the word sampled after that, and through a quiet latch leaves the addressed word, or word 1 for address 3, zero in the emulator |
| `JtagAxi.ReadPreservesExactly` | drivers/jtag/jtag_bitbang.c:434-456 | through a quiet latch a driver read keeps the emulated memory exactly when the addressed word, or word 1 for address 3, is outside it or already zero |
| `JtagAxi.ResetAndWrite` | drivers/jtag/jtag_bitbang.c:474-486 | from a fresh emulator, reset and block write together overlay the words on the memory |
| `RingSlots.CapacityExact` | include/tenstorrent/uart_tt_virt.h:54-61 | any capacity-many consecutive counter values, the 2^32 wrap included, name different slots exactly when the capacity divides 2^32 |
| `RingCounters.StepKeepsInv` | include/tenstorrent/uart_tt_virt.h:155-246 | every single load, check, compare-and-swap, reload, store or fetch of any thread keeps head <= tail <= head + capacity |
| `RingCounters.CountersSafe` | include/tenstorrent/uart_tt_virt.h:155-246 | in every interleaving of any number of producers and consumers the size stays between 0 and the capacity, no counter value is claimed twice, and consumers claim what producers claimed, in order |
| `RingCounters.PushFate` | include/tenstorrent/uart_tt_virt.h:209-246 | in every interleaving a byte handed to poll_out is still being tried, was given up because the ring was found full, or was claimed for one counter value that stands for it from then on and is stored before the call returns; a lost race is tried again |
| `RingCounters.PopFate` | include/tenstorrent/uart_tt_virt.h:155-194 | a call of poll_in is still trying, gave up because the ring was found empty, or claimed one counter value and fetches it before it returns |
| `RingCounters.PublishBeforeStoreRaces` | include/tenstorrent/uart_tt_virt.h:209-246 | a reachable run in which a consumer fetches a slot before its claimed byte is stored |
| `RingCounters.SleeperOverfills` | include/tenstorrent/uart_tt_virt.h:209-246 | a reachable run in which a producer that sleeps through 2^32 claims overfills the ring |
| `RingContents.FetchExact` | include/tenstorrent/uart_tt_virt.h:155-246 | in every interleaving a fetch returns the byte sent for its counter value, for every choice of bytes, exactly when that byte's store came before it and no other store to the slot came between |
| `RingContents.RunMaps` | include/tenstorrent/uart_tt_virt.h:155-246 | bytes steer nothing: replacing them in a schedule replaces them in the outcome and changes nothing else |
| `RingContents.EveryRunIsLabelled` | include/tenstorrent/uart_tt_virt.h:155-246 | every run over bytes is one of the runs FetchExact speaks about, with its bytes filled in |
| `RingContents.PushRests` | include/tenstorrent/uart_tt_virt.h:209-246 | a claim and its store with nothing between append one byte to the unread bytes |
| `RingContents.PopRests` | include/tenstorrent/uart_tt_virt.h:155-194 | a claim and its fetch with nothing between remove and return the oldest unread byte |
| `RingContents.PromptRunsDeliver` | include/tenstorrent/uart_tt_virt.h:155-246 | for a capacity dividing 2^32, any number of producers and consumers whose claims are each followed at once by their access fetch exactly the bytes sent, in order |
| `RingContents.UnreadIsQueue` | include/tenstorrent/uart_tt_virt.h:54-61 | at rest the unread bytes are the queue that the un-interleaved calls of VirtualUart work on |
| `VirtualUart.Vuart.PollIn` | include/tenstorrent/uart_tt_virt.h:155-194 | returns and removes the oldest byte of the role's queue, or -1 from an empty one, from its place in the shared buffer, and leaves the other queue alone |
| `VirtualUart.Vuart.PollOut` | include/tenstorrent/uart_tt_virt.h:209-246 | appends, writing one cell of the shared buffer at the tail counter modulo the capacity; a full transmit ring counts an overflow and drops the byte; a full receive ring loses its oldest byte |
| `VirtualUart.Vuart.PutC` | scripts/tooling/vuart.c:547-562 | appends to the receive queue when it has room; a full queue has its oldest byte replaced |
| `VirtualUart.Vuart.Space` | scripts/tooling/vuart.c:569-578 | the room left in the receive queue, 0 on a wrong magic number |
| `VirtualUart.Vuart.GetC` | scripts/tooling/vuart.c:585-603 | returns and removes the oldest transmit byte, EOF from an empty queue or on a wrong magic number |
| `VirtualUart.CharValue` | scripts/tooling/vuart.c:597-603 | the byte modulo 256, in the range of a signed or an unsigned character; it is EOF exactly when it is signed and 255 |
| `VirtualUart.ReadIsRepeatedGetc` | scripts/tooling/vuart.c:613-645 | one copy up to the end of the buffer delivers the bytes and the head counter of as many single reads, across the counter wrap |
| `VirtualUart.Vuart.Read` | scripts/tooling/vuart.c:613-645 | removes and returns the oldest bytes, as many as asked for, present and before the buffer end, and clears the overflow count |
| `VirtualUart.Vuart.FifoFill` | drivers/serial/uart_tt_virt.c:102-136 | appends as much as fits; with loopback the oldest transmit bytes move to the receive queue in order, no more than fit there, and nothing is lost |
| `VirtualUart.Vuart.FifoRead` | drivers/serial/uart_tt_virt.c:138-155 | removes and returns the oldest receive bytes |
| `Cm2dm.StepKeepsInv` | lib/tenstorrent/bh_arc/cm2dm_msg.c:52-122 | every step of posters, handler, bus and receiver keeps message numbering, prefix order and the bound of one undelivered message |
| `Cm2dm.ExactlyOnce` | app/dmc/src/main.c:254-287 | for every schedule with any lost requests, replies and acks, the dispatched messages are a prefix of the issued ones, at most one behind, and equal once a cleared message's poll iteration is over |
| `Cm2dm.FinalValueArrives` | lib/tenstorrent/bh_arc/cm2dm_msg.c:52-99 | whenever nothing is under way for an identifier, the last message dispatched for it carries the data posted last, in every interleaving of posts with the handler |
| `Cm2dm.PickComesCloser` | lib/tenstorrent/bh_arc/cm2dm_msg.c:58-71 | a round-robin pick of another identifier brings a pending one strictly closer |
| `Cm2dm.ServedWithinEight` | lib/tenstorrent/bh_arc/cm2dm_msg.c:58-71 | a pending identifier is picked after at most eight other messages, in every schedule without a reset |
| `Cm2dm.PollDrains` | app/dmc/src/main.c:254-287 | ten fetches without losses dispatch everything that was pending, even after a lost ack |
| `Cm2dm.IterationMeans` | app/dmc/src/main.c:254-287 | what one fetch does under each bus failure: which message is offered, whether it is dispatched, and what stays current |
| `Cm2dm.PollExact` | app/dmc/src/main.c:238-288 | the steps of a poll are those of its first fetches up to and including the first that ends it |
| `Cm2dm.StopEndsPoll` | app/dmc/src/main.c:254-287 | of the messages a poll dispatches none but the last can be one the processor stops at |
| `Cm2dm.RestartExact` | app/dmc/src/main.c:487-492 | a sender restart that the receiver did not record loses the first new message exactly when the remembered number is 0 |
| `Cm2dm.Ends.Post` | lib/tenstorrent/bh_arc/cm2dm_msg.c:52-56 | the two steps of a post |
| `Cm2dm.Ends.TakeNextId` | lib/tenstorrent/bh_arc/cm2dm_msg.c:58-71 | the lowest pending identifier from the pointer on, else the lowest of all; the pointer moves behind it |
| `Cm2dm.Ends.ReqHandler` | lib/tenstorrent/bh_arc/cm2dm_msg.c:73-101 | the handler's steps in one go; the answer is null exactly when there is no current message |
| `Cm2dm.Ends.AckHandler` | lib/tenstorrent/bh_arc/cm2dm_msg.c:103-122 | clears the current message exactly on an ack of two bytes that matches identifier and number |
| `Cm2dm.Ends.GetMessage` | lib/tenstorrent/bh_chip/bh_chip.c:31-70 | read, then ack of a non-null message, under each kind of bus failure |
| `Cm2dm.Ends.Process` | app/dmc/src/main.c:238-288 | the loop performs exactly the steps of one poll of at most ten fetches; it stops after the first fetch that fails, finds nothing current or pending, or dispatches a message the processor stops at, and no earlier one |
| `GalaxyFlash.ErasedTakesData` | scripts/galaxy_flash.py:159-205 | programming an erased byte stores the data exactly |
| `GalaxyFlash.Flash.ReadFlash` | scripts/galaxy_flash.py:111-156 | refuses an unaligned address, succeeds exactly when every command it sends does, returns the requested range, and sends one command for every 256 bytes |
| `GalaxyFlash.Flash.ProgramBlock` | scripts/galaxy_flash.py:159-205 | refuses any length but 4096 before erasing; otherwise succeeds exactly when all its 33 commands do, and the block is then overlaid; whatever happens nothing outside the block changes |
| `GalaxyFlash.Flash.WriteSegment` | scripts/galaxy_flash.py:224-268 | fails exactly when one of its commands does, refuses exactly a short segment, and otherwise overlays the segment and nothing else; a short segment leaves the flash unchanged; failures touch only the segment's blocks |
| `GalaxyFlash.Flash.WriteFlash` | scripts/galaxy_flash.py:208-271 | fails exactly when a command does, refuses exactly when a segment is short, and otherwise applies the overlays of all segments in order; a refusal happens at the short segment with the earlier ones applied; a failed command spoils only the blocks of one segment |
| `GalaxyFlash.FlashedExactly` | scripts/galaxy_flash.py:208-271 | after success every address of the file holds its byte and every other what it held before |
| `GalaxyFlash.EarlierSegmentsOnly` | scripts/galaxy_flash.py:224-268 | a refused write has applied the segments below and nothing else |
| `GalaxyFlash.FlashedImage` | scripts/galaxy_flash.py:208-271 | flashing the HEX file of a boot file system onto an erased device gives its flat binary |
| `GalaxyFlash.NeverRefused` | scripts/galaxy_flash.py:224-268 | a boot file system with 4 KiB blocks has no short segment, whatever sections are included, so flashing its HEX file is never refused |
| `ArcDma.TileCount` | drivers/dma/dma_arc_hs.c:652-663 | the number of blocks is the length divided by the block size, rounded up |
| `ArcDma.TileCovers` | drivers/dma/dma_arc_hs.c:668-685 | the blocks are in order, contiguous on both sides, non-empty, at most the block size, and cover exactly the length |
| `ArcDma.SplitExact` | drivers/dma/dma_arc_hs.c:668-685 | on every memory the blocks in order act as one copy exactly when the destination is not above an overlapping source or one block is enough |
| `ArcDma.WrappedCount` | drivers/dma/dma_arc_hs.c:652-663 | the 32-bit block count is 0 exactly when the sum wraps |
| `ArcDma.Driver.Split` | drivers/dma/dma_arc_hs.c:668-685 | the loop fills the block array with the tiling as a linked list |
| `ArcDma.Driver.Config` | drivers/dma/dma_arc_hs.c:186-250 | accepts exactly memory-to-memory configurations of a known channel with a head block and 1 to all descriptors; each refusal has its own code and changes nothing |
| `ArcDma.Driver.Start` | drivers/dma/dma_arc_hs.c:252-358 | refuses exactly an unknown or free channel and one without a head block; leaves an active channel alone; otherwise queues the head block and those its next pointers lead to, up to the configured count, and marks only that channel active |
| `ArcDma.FollowHolds` | drivers/dma/dma_arc_hs.c:668-685 | following the next pointers of the list that holds a tiling gives the tiling back |
| `ArcDma.Driver.Stop` | drivers/dma/dma_arc_hs.c:360-396 | an active channel becomes idle, any other keeps its state |
| `ArcDma.Driver.Transfer` | drivers/dma/dma_arc_hs.c:609-726 | queues exactly the tiling for aligned, accepted requests and changes no other channel; refuses everything else, a wrapping length included, without queueing |
| `ArcDma.Driver.AcceptsExact` | drivers/dma/dma_arc_hs.c:639-666 | for a power-of-two alignment a request is accepted exactly when both addresses are multiples of it, the channel exists, the count does not wrap and the length fits the descriptors |
| `ArcDma.AlignedIsMultiple` | drivers/dma/dma_arc_hs.c:639-645 | for a power of two the mask test is divisibility |
| `DmaCompletion.StepKeepsInv` | drivers/dma/dma_arc_hs.c:252-396 | every step of any number of workers, status callers, clients and the hardware on any number of channels keeps lock ownership, one holder per handle and each completion in one place, if a start gets a handle no other channel holds |
| `DmaCompletion.ReportedAtMostOnce` | drivers/dma/dma_arc_hs.c:482-592 | in every interleaving in which no two channels hold the same handle, each transfer is reported by at most one callback |
| `DmaCompletion.ExclusiveExact` | drivers/dma/dma_arc_hs.c:482-592 | with no poll under way, a start keeps at-most-once reporting, whatever follows up to the next start, exactly when no other active channel has its handle |
| `DmaCompletion.AtMostOnceExact` | drivers/dma/dma_arc_hs.c:482-592 | over all runs, at-most-once reporting holds exactly when no handle can be given to two channels |
| `DmaCompletion.InitSharesHandles` | drivers/dma/dma_arc_hs.c:949-970 | if the hardware may give a channel any descriptor of the range the driver sets up, that is exactly a driver with one channel or none, or without descriptors |
| `DmaCompletion.OwnExact` | drivers/dma/dma_arc_hs.c:729-795 | a start keeps every worker, or every status caller, from taking another transfer for its own exactly when its handle is neither done nor in the hardware and, for workers, none on the channel still carries such a handle |
| `DmaCompletion.FreshRunsAreOwn` | drivers/dma/dma_arc_hs.c:729-795 | over whole runs of such starts every completion taken is that of the channel's own last transfer |
| `DmaCompletion.LateReportExact` | drivers/dma/dma_arc_hs.c:360-396 | on a channel that is not active a callback can still be made without another start exactly when one is about to be made, a done bit has been found, or a thread past its look at the state can still find one |
| `DmaCompletion.CallbackAfterStop` | drivers/dma/dma_arc_hs.c:360-396 | a run from the start in which an active channel is stopped and its callback is made after that |
| `DmaCompletion.StaleHandleReportsRunning` | drivers/dma/dma_arc_hs.c:729-795 | for any two handles, a run up to a start whose handle is neither done nor in the hardware while a worker carries the handle of the stopped transfer, and its continuation in which the new transfer is reported while it is running |
| `DmaCompletion.ReusedHandleReportsRunning` | drivers/dma/dma_arc_hs.c:360-396 | for any handle, a run up to a start with that handle still done from a stopped transfer and no thread under way, and its continuation in which the new transfer is reported while it is running |
| `DmaCompletion.StopDiscardsExact` | drivers/dma/dma_arc_hs.c:360-396 | after a stop of a channel whose transfer has completed, some continuation reports that transfer exactly when it was already reported or a thread had already found its done bit |
| `DmaCompletion.ActiveKept` | drivers/dma/dma_arc_hs.c:252-358 | over every run an active channel keeps its handle and transfer until it is configured, stopped or its completion taken; another start changes nothing |
| `DmaCompletion.SectionProtects` | drivers/dma/dma_arc_hs.c:482-592 | while a thread is in its locked section on a channel, whatever the others do leaves the channel's handle and transfer, and all of it for a status caller |
| `GrendelClock.RateRoundTripExact` | drivers/clock_control/clock_control_tt_grendel.c:219-290 | a rate is accepted and read back within a hertz and one control-word step exactly when it lies from the reference clock up to below 128 times it |
| `GrendelClock.ChosenIsWhole` | drivers/clock_control/clock_control_tt_grendel.c:219-234 | below 128 times the reference clock a divider is found exactly from the reference clock on, and the 8-bit cast loses nothing |
| `GrendelClock.AcceptedButWrong` | drivers/clock_control/clock_control_tt_grendel.c:219-234 | with every reference clock, 136 times the reference is accepted and reads back as 8 times it |
| `GrendelClock.Cgm.SetRate` | drivers/clock_control/clock_control_tt_grendel.c:196-255 | the search loop finds the first divider with a large enough integer part and writes its control word, or refuses and writes nothing; gated and bypassed outputs answer as before |
| `GrendelClock.Cgm.GetRate` | drivers/clock_control/clock_control_tt_grendel.c:257-295 | refuses an unknown output, reports a gated one as not available, and otherwise answers its rate |
| `GrendelClock.Cgm.On` | drivers/clock_control/clock_control_tt_grendel.c:143-174 | afterwards the output answers the rate of the control word and its divider, and every other output answers as before |
| `GrendelClock.Cgm.Off` | drivers/clock_control/clock_control_tt_grendel.c:176-194 | afterwards the output answers that it is gated, and every other output answers as before |
| `GrendelClock.Cgm.OnSetGet` | drivers/clock_control/clock_control_tt_grendel.c:143-295 | whatever the output was doing, a rate set after turning it on comes back closely exactly when it lies from the reference clock up to below 128 times it |
| `GrendelClock.Cgm.GateCycle` | drivers/clock_control/clock_control_tt_grendel.c:143-295 | gating an output makes it report as not available, and turning it on again brings the same rate back, with no other output affected |
| `GrendelClock.Cgm.SharedWord` | drivers/clock_control/clock_control_tt_grendel.c:196-295 | after an accepted rate every running output, whatever its divider, answers the rate of the new control word; gated and bypassed outputs, and all outputs after a refusal, answer as before |
| `GrendelClock.KeepsAnswerExact` | drivers/clock_control/clock_control_tt_grendel.c:257-295 | whatever the control word was before, an output keeps its answer when another output is set exactly when it is gated or bypassed, or its divider makes every rate 0 |
| `GrendelClock.SetDividersCount` | drivers/clock_control/clock_control_tt_grendel.c:219-234 | which no divider that setting a rate writes does |
| `GrendelClock.OneMovesAnother` | drivers/clock_control/clock_control_tt_grendel.c:196-295 | with every reference clock, an output set to 4 times it moves to 5 times it when another is set to 10 times it |
| `GrendelClock.Cgm.SetTwo` | drivers/clock_control/clock_control_tt_grendel.c:143-295 | the same on the registers: turned on, set and read, and read again after the other is set |
| `AiclkRamp.ExtPostdiv` | drivers/clock_control/clock_control_tt_bh.c:228-270 | the effective divider is 0 exactly for an enabled divider of 0 |
| `AiclkRamp.ExtPostdivSteps` | drivers/clock_control/clock_control_tt_bh.c:228-270 | an enabled divider grows with its register in steps of 1 up to 16 and of 2 from 17 on, from 2 to 17 and from 36 to 512; a bypassed one divides by 1 |
| `AiclkRamp.RampArrivesExact` | drivers/clock_control/clock_control_tt_bh.c:510-519 | the ramp reaches its target exactly when the target fits the 16-bit field |
| `AiclkRamp.SetAiclkEndsExact` | drivers/clock_control/clock_control_tt_bh.c:497-519 | setting a rate ends exactly when the product of rate and dividers, cut to 32 bits, is below 2^16 reference clocks |
| `AiclkRamp.RampNeverEnds` | drivers/clock_control/clock_control_tt_bh.c:497-519 | a rate on a 50 MHz reference whose feedback divider is 2^16 and is never reached |
| `AiclkRamp.Pll.SetAiclk` | drivers/clock_control/clock_control_tt_bh.c:497-519 | every register write moves the feedback divider by one towards the target and changes no other field, until it is there |
| `AiclkRamp.ReadBackExact` | drivers/clock_control/clock_control_tt_bh.c:272-314 | the frequency read back is at most the target and within one unit and one divider step of it exactly when the 32-bit product does not wrap |
| `AiclkRamp.ReportedExact` | drivers/clock_control/clock_control_tt_bh.c:272-314 | for any register contents the reported frequency is the one they make exactly when the product of reference clock and feedback divider fits 32 bits |
| `NocAcks.BusyExact` | drivers/dma/dma_tt_bh_noc.c:106-133 | from any counter value a transfer is busy exactly while acks are missing, as long as the counter runs less than 2^31 past the target |
| `NocAcks.BusyBoundsTight` | drivers/dma/dma_tt_bh_noc.c:106-133 | with more than 2^31 acks outstanding some state is misreported, and so is the counter 2^31 past the target |

## Left out

- JtagDriver.JtagLink.UpdateIr: stated for 2 to 256 bits; the driver only sends 24, and the bit counter of the emulator is a byte.
- AiclkRamp.Pll.SetAiclk: stated for a target that fits the 16-bit field; for any other target the loop does not end (AiclkRamp.SetAiclkEndsExact).
- Base16.ReadBootfsRawFromB16: offsets are plain decimal digits, as the printer writes them; signs, blanks and underscores, which int() also takes, are refused.
- RingCounters.CountersSafe: assumes that no thread sleeps through 2^32 claims between a load and its compare-and-swap; RingCounters.SleeperOverfills shows the assumption is needed.
- GalaxyFlash.Flash.WriteFlash: segments end below 2^24, where the three address bytes reach; longer addresses would wrap.
- GalaxyFlash.Flash.ReadFlash: requires that the 256-byte reads stay inside the device, and takes a successful reply to carry all 256 bytes; shorter replies are not modelled.
- BootFsBuild.ToBootFs: requires distinct image tags; images with equal tags would share one entry.
- NocAcks.BusyExact: rounds the size up without the 64-bit overflow that sizes within 16 KiB of 2^64 would meet.
- ArcDma.Driver.Start: channels linked to another channel, and the linked start on completion, are not modelled.
- ArcDma.SplitExact: each queued block is taken to read all of its source before it writes; overlap inside one block is the hardware's.
- ArcDma.Driver.Stop: the done bit it clears is not part of this model; it is in DmaCompletion.
- DmaCompletion.ReportedAtMostOnce: only polling mode; the interrupt-driven completion path, linked channels, suspend and resume, and which callback function and argument a channel holds when it is called are not modelled.
- BootFsPipeline.MakeImage: success is stated for tags that fit their field, images that are not empty and given addresses that are aligned and apart; which other specifications raise is stated by BootFsBuild.ToBootFs and BootFsBuild.BadFixedRefused, not in terms of the printed image.
- AiclkRamp.ReadBackExact: requires that reference clock and divider together are at most 2^32, a bound no reference in megahertz comes near.
- DmaCompletion.StepKeepsInv: a stop is one step; the source tests the state before it takes the hardware lock, so a stop that saw an active channel can still clear a done bit after a worker has made the channel idle, which only removes done bits.
- TDO is an arbitrary function of the number of clocks so far, because the emulator does not drive it.
- The disjoint bit-fields the JTAG driver joins by bitwise or are joined by addition.
- Virtual UART calls in VirtualUart are not interleaved; interleavings are the subject of RingCounters and RingContents. Discovery of the UART and its PCI mapping are not modelled.
- The effects of the CM2DM message processors, apart from whether they end the poll; message logging; SMBus framing below a whole request, reply or ack.
- Timeouts, busy waits, lock acquisition (outside DmaCompletion) and the device-ready check of the drivers; outcomes of waiting are parameters.
- YAML parsing, environment substitution and file input of the boot file system tools.
- The parsing half of the IntelHex library beyond the record types the printer emits.
- The remaining drivers, firmware applications and tools of the repository, which would add mostly configuration and register access.
