# Models of the FPGA card's flash and driver logic

A Dafny model of the stateful parts of the card's host software, with proofs about
every run, input or reachable state of each part. Hardware is modelled explicitly: a NOR
flash part (erase sets a 4 KB subsector to 0xFF, program ANDs bytes in and wraps within
its page), the quad-SPI controller with its FIFOs, the ASMI controller, the
reconfiguration engine with its credits. What hardware, allocators and other threads may
do at any time is nondeterministic.

| file | models |
|---|---|
| `NorFlash`, `SpiWire`, `SpiController`, `SpiTransfer`, `FlashCommands`, `XspiFlasher` | the flash part, the wire and the SPI controller, the polled transfer, the commands and the command layer of the XSPI flasher |
| `McsFile`, `McsText`, `McsCorrect`, `McsAccept`, `FlashSchedule`, `GuardBytes`, `UpgradePlan`, `FlashSession`, `XspiUpgrade`, `UpgradeSafety`, `FirmwareUpgrade`, `UpgradeRetry`, `RepeatedAttempts`, `GuardLoss`, `ShortFile`, `WrappedRun`, `FarRecord`, `UnalignedRecord` | MCS text, parsing and which files are taken, the upgrade run behind its bitstream guard, crash safety, the end-to-end result, starting again after a failure, a lost guard, addresses beyond 2^28, an unaligned file |
| `BlockProtect`, `LockRules`, `BlockLock`, `SpiNorWrite`, `SpiNorDriver`, `SstWrite` | SPI NOR block protection and the two write paths |
| `DmaRegions`, `AfuMemory`, `UmsgBase`, `Teardown`, `AfuDriver` | the region tree, pinned memory and the user-message base register as a protocol, and the driver calls that follow it |
| `PortOwnership`, `PortDriver`, `PortReset`, `PrTypes`, `PartialReconfig`, `Msix` | released and virtual ports, nested port reset, partial reconfiguration, interrupt binding |
| `BitHeader`, `BitSample` | the .bit header parser and its printer, and one header |
| `Bits`, `Common` | bitwise and, powers of two, logarithms, division; options and shared constants |

Undefined behaviour of the C and C++ code (an uncaught exception, a read outside a buffer)
is an outcome of its own (`Crashed`, `Aborted`, `Undefined`). Ghost counters named `faults` or `timeouts` count hardware failures, so that
contracts can say that an operation fails only after one. The SPI controller has a field
`fault` for what its environment lets happen: anything, which is what the safety results
are about; nothing; or one data read that fails at a foreseen point of an erase, with which
a failing run can be followed to its end.

Where a property does not hold of the code, the model keeps the code and states exactly
when the property holds:

- A lock can unlock other bytes, and an unlock can lock or drop others, when the
  top/bottom anchor moves or 1/128 of the part or less remains (`LockKeepsLockedIff`,
  `UnlockLocksNothingNewIff`, `UnlockKeepsRestIff`, with `LockCanUnlock`, `UnlockCanLock`,
  `UnlockCanDropTheRest` as witnesses on every such part). The comment in the code says
  that other areas stay as they are; the model follows the code.
- The second pass over an MCS file drops the tail of a data line that runs over a 128-byte
  page (`KeepsEveryByteIff`, with `FifteenByteLinesLose` as a witness); the first pass
  counts those bytes.
- Erasing from an unaligned record start can miss the last subsector
  (`ErasesCoverRangeIff`); `ErasesCanMiss`, `UnalignedRecord.Parses` and
  `UnalignedRecord.LastByteIsAnded` follow one such file through the upgrade.
- A command broken off by a fault is ended by the first bytes of the next attempt. If the
  FIFO holds three bytes or more, or the guard is not at the start of a 64 KB block, the
  guard outlives that (`RetryKeepsGuard`, `GuardOutlivesAttempts`). Otherwise it need not:
  two upgrades in a row, the first cut two bytes into an erase, lose it (`LoseGuard`,
  `UpgradeTwice`); `RetryKeepsGuardIff` says for which failed runs. A new run erases the
  guard before it writes it again (`UnguardedOnlyAfterFirst`).
- The last close gives back the pages of a region at bus address 0 while it is still mapped
  for DMA (`DestroyRegions`, `UnmappedFirstIff`, with `RegionAtZero` as a witness).
- The guard is safe through every interruption as long as no record wraps onto it: addresses
  wrap at 2^28 and the parser takes 32-bit ones (`GuardKeptIff`, with `FarRecord` as a
  witness).
- Through the 512-byte FIFO a whole 528-byte page can never be written
  (`SpiNorDriver.AsmIp2.SpiNorWrite`, `WholePages`).
- Setting the message base twice can leave a region marked in use though nothing uses it
  (`NoStaleMarkIff`, with `StaleMark` as a witness).

## Model

| member | source | states |
|---|---|---|
| `FirmwareUpgrade.Upgrade` | sw/FME_xilinx_driver/app_pcie_qspi/xbflash/xspi.cpp:503-608 | from any state of the controller: the run performs the plan of the file, at addresses that wrap at 2^28, and a failure stops after a prefix of it. If no address wraps: a successful upgrade of a well-formed file with aligned, ascending records and no data line across a 128-byte page end leaves every described byte at its address plus the guard shift; cells outside the guard subsector and the rounded record ranges stay, on failure too; a failure while the guard is up leaves it intact; if the file also has consecutive data lines and fits the part it fails only after a fault; a file the parser refuses leaves the parts alone |
| `UpgradeSafety.CompleteRunStoresFile` | sw/FME_xilinx_driver/app_pcie_qspi/xbflash/xspi.cpp:1436-1535 | end to end: whoever carries out the whole plan of such a file ends with every decoded byte in the flash at its address plus the guard shift, whatever it held before |
| `UpgradeSafety.InterruptedRunIsGuarded` | sw/FME_xilinx_driver/app_pcie_qspi/xbflash/xspi.cpp:1457-1532 | crash safety where no address wraps: cut the run after any number of operations between guard write and guard removal, with the next operation half done in any way, and the guard subsector is intact |
| `UpgradeSafety.FailedRunIsGuarded` | sw/FME_xilinx_driver/app_pcie_qspi/xbflash/xspi.cpp:1457-1532 | the same at every failing exit, also if the part is then deselected with a command half sent |
| `UpgradeSafety.BodyLeavesGuard` | sw/FME_xilinx_driver/app_pcie_qspi/xbflash/xspi.cpp:1467-1522 | before any wrapping, no erase or program between guard write and removal touches the guard subsector, for every file with records at or above an aligned nonzero start |
| `WrappedRun.GuardKeptIff` | sw/FME_xilinx_driver/app_pcie_qspi/xbflash/xspi.cpp:1457-1532 | crash safety with its exact condition, for every well-formed file with aligned ascending records below 2^32: the guard is in the flash after each operation from its write to its removal exactly when no record with data reaches an address that wraps onto it |
| `WrappedRun.WrappedRunIsGuarded` | sw/FME_xilinx_driver/app_pcie_qspi/xbflash/xspi.cpp:1457-1532 | for every such file, each failing exit of the run with the guard up leaves the guard, also if the part is then deselected with a command half sent, provided no record wraps onto it |
| `WrappedRun.ReducedTouches` | sw/FME_xilinx_driver/app_pcie_qspi/xbflash/xspi.cpp:287-289 | an operation wrapped to 28 bits touches a cell exactly when the operation touches the image of that cell in its own stretch of 2^28 addresses, and no image elsewhere |
| `FarRecord.Parses` | sw/FME_xilinx_driver/app_pcie_qspi/xbflash/xspi.cpp:527-600 | witness: a file with one byte at 0x10000 and one at 0x1000F000 parses to these two records |
| `FarRecord.IsSized` | sw/FME_xilinx_driver/app_pcie_qspi/xbflash/xspi.cpp:503-608 | the upgrade takes that file: these are its records, and no 32-bit sum overflows |
| `FarRecord.LosesItsGuard` | sw/FME_xilinx_driver/app_pcie_qspi/xbflash/xspi.cpp:1467-1522 | its upgrade erases its own guard before it is done, whatever the flash held |
| `UpgradeSafety.PlanAvoidsGuardIff` | sw/FME_xilinx_driver/app_pcie_qspi/xbflash/xspi.cpp:1467-1522 | the plan of an aligned well-formed file leaves a guard alone exactly when every record with data lies above its subsector or ends below it |
| `UpgradeSafety.RunLeavesOthers` | sw/FME_xilinx_driver/app_pcie_qspi/xbflash/xspi.cpp:1436-1535 | a run touches nothing outside the guard subsector and the record ranges rounded up to 4 KB |
| `UpgradeRetry.RetryKeepsGuard` | sw/FME_xilinx_driver/app_pcie_qspi/xbflash/xspi.cpp:646-669 | with a FIFO of three bytes or more, or a guard not at the start of a 64 KB block, every run that fails with its guard up, whatever the fault, leaves a guard that outlives the first status poll of the next run |
| `RepeatedAttempts.GuardOutlivesAttempts` | sw/FME_xilinx_driver/app_pcie_qspi/xbflash/xspi.cpp:646-669 | under the same condition the guard outlives any number of attempts, on either part, that fail at their first poll, and the first poll that goes through |
| `RepeatedAttempts.FailedPollHolds` | sw/FME_xilinx_driver/app_pcie_qspi/xbflash/xspi.cpp:646-669 | the invariant behind it: every failing first poll keeps the guard and leaves only commands that spare it |
| `RepeatedAttempts.NotBegunIsFailedPoll` | sw/FME_xilinx_driver/app_pcie_qspi/xbflash/xspi.cpp:1251-1288 | an upgrade whose first poll fails is such an attempt |
| `RepeatedAttempts.FailedRunHolds` | sw/FME_xilinx_driver/app_pcie_qspi/xbflash/xspi.cpp:1436-1535 | every failing exit with the guard up establishes that invariant |
| `UpgradeRetry.RetryKeepsGuardIff` | sw/FME_xilinx_driver/app_pcie_qspi/xbflash/xspi.cpp:1251-1288 | for any depth: after a run that failed with its guard up, the first status poll of a new run keeps the guard exactly when the failed run was not cut two bytes into an erase in the 64 KB block that starts with the guard |
| `GuardLoss.LoseGuard` | sw/FME_xilinx_driver/app_pcie_qspi/xbflash/xspi.cpp:503-608 | the condition is needed: for a FIFO of depth 1 or 2 and every well-formed, well-placed file that starts at a nonzero 64 KB block with a record that is not empty, on every part that holds it, two upgrades in a row reach it. The first, in which one data read fails, ends with the guard up; the first poll of the second erases the guard |
| `GuardLoss.CutAttempt` | sw/FME_xilinx_driver/app_pcie_qspi/xbflash/xspi.cpp:1027-1030 | that first upgrade fails two bytes into its third operation, with the guard up and the part still selected |
| `ShortFile.IsExposed` | sw/FME_xilinx_driver/app_pcie_qspi/xbflash/xspi.cpp:527-600 | a three-line file is such a file |
| `ShortFile.UpgradeTwice` | sw/FME_xilinx_driver/app_pcie_qspi/xbflash/xspi.cpp:503-608 | from power-up, on any two parts behind a FIFO of one or two bytes, two upgrades from that file reach the loss of the guard |
| `UpgradeRetry.UnguardedOnlyAfterFirst` | sw/FME_xilinx_driver/app_pcie_qspi/xbflash/xspi.cpp:750-766 | a new run over a guarded part is unguarded after its first operation and only then |
| `UpgradeRetry.EndedErase` | sw/FME_xilinx_driver/app_pcie_qspi/xbflash/xspi.cpp:671-724 | an erase command cut short and ended by a status poll erases the first subsector of its 64 KB block if cut after two bytes, and does nothing otherwise |
| `UpgradeRetry.EndedProgram` | sw/FME_xilinx_driver/app_pcie_qspi/xbflash/xspi.cpp:1119-1178 | a program command cut anywhere and ended by a status poll stays in its page |
| `UpgradeSafety.PlanIsImage` | sw/FME_xilinx_driver/app_pcie_qspi/xbflash/xspi.cpp:1290-1434 | the second pass over a well-formed file reads every record in full: its plan is the image the format describes |
| `FlashSchedule.BodyAvoidsGuardIff` | sw/FME_xilinx_driver/app_pcie_qspi/xbflash/xspi.cpp:1467-1522 | aligned records leave the guard alone exactly when each lies above the guard subsector or ends below it |
| `FlashSchedule.GuardSurvivesInterruption` | sw/FME_xilinx_driver/app_pcie_qspi/xbflash/xspi.cpp:750-771 | the guard words stay 128 bytes into an otherwise blank subsector through every prefix of a run that avoids it |
| `FlashSchedule.GuardRemoved` | sw/FME_xilinx_driver/app_pcie_qspi/xbflash/xspi.cpp:768-771 | after the final erase the guard subsector is blank and every other byte is what the body made it |
| `FlashSchedule.BodyStoresImage` | sw/FME_xilinx_driver/app_pcie_qspi/xbflash/xspi.cpp:1467-1522 | erasing everything before programming everything stores each byte of disjoint ascending images, whatever was there |
| `FlashSchedule.ErasesCoverRangeIff` | sw/FME_xilinx_driver/app_pcie_qspi/xbflash/xspi.cpp:1480-1488 | stepping by 4 KB from an unaligned start can miss the last subsector: the exact condition under which the whole range is erased |
| `FlashSchedule.ErasesCanMiss` | sw/FME_xilinx_driver/app_pcie_qspi/xbflash/xspi.cpp:1480-1488 | witness: from 0x10F00 to 0x11100 one erase is issued and the last 0x100 bytes are missed |
| `UnalignedRecord.Parses` | sw/FME_xilinx_driver/app_pcie_qspi/xbflash/xspi.cpp:527-600 | witness: a file of one address line, 32 data lines from 0F00 on and an end line parses to that record |
| `UnalignedRecord.LastByteIsAnded` | sw/FME_xilinx_driver/app_pcie_qspi/xbflash/xspi.cpp:1467-1522 | its upgrade ANDs the last byte onto whatever the flash held |
| `FlashSchedule.AlignedErasesTouch` | sw/FME_xilinx_driver/app_pcie_qspi/xbflash/xspi.cpp:1480-1488 | from an aligned start the erases hit exactly the range rounded up to 4 KB |
| `XspiUpgrade.ProgramXSpi` | sw/FME_xilinx_driver/app_pcie_qspi/xbflash/xspi.cpp:1436-1535 | the run performs guard, all erases, all programs and guard removal in this order, the removal only after every record byte is programmed; a failure stops after a prefix of that plan with at most a part of the next command on the wire |
| `XspiUpgrade.ProgramRecord` | sw/FME_xilinx_driver/app_pcie_qspi/xbflash/xspi.cpp:1290-1434 | one record is programmed page by page with exactly the pages the second pass reads |
| `XspiUpgrade.EraseAll` | sw/FME_xilinx_driver/app_pcie_qspi/xbflash/xspi.cpp:1470-1489 | every record range is erased before any page is programmed |
| `XspiUpgrade.WriteBitstreamGuard` | sw/FME_xilinx_driver/app_pcie_qspi/xbflash/xspi.cpp:750-766 | the guard is the erase of its subsector and one page holding the fallback words |
| `GuardBytes.GuardedBytes` | sw/FME_xilinx_driver/app_pcie_qspi/xbflash/xspi.cpp:199-223 | a part has its guard exactly when the literal byte sequence, sync word AA 99 55 66 and all, lies 128 bytes into an otherwise blank subsector |
| `GuardBytes.LittleEndianMeaning` | sw/FME_xilinx_driver/app_pcie_qspi/xbflash/xspi.cpp:760-760 | four bytes in memory order stand for the word, least significant first |
| `McsFile.ParseLines` | sw/FME_xilinx_driver/app_pcie_qspi/xbflash/xspi.cpp:527-600 | the line loop computes the record list of Parse, including its rejections and the undefined cases |
| `McsAccept.AcceptsIff` | sw/FME_xilinx_driver/app_pcie_qspi/xbflash/xspi.cpp:541-563 | a well-formed file is accepted exactly when every data line starts where the line before it ended and the first of a record under upper address 0 starts at 0; it is aborted when the first line that breaks this is the first of its record, else rejected |
| `McsAccept.AcceptsNoFault` | sw/FME_xilinx_driver/app_pcie_qspi/xbflash/xspi.cpp:532-594 | of any accepted file no line up to the end line is stray, unreadable, longer than 16 data bytes, of kind 2, or a malformed address line |
| `McsAccept.SkipsIgnored` | sw/FME_xilinx_driver/app_pcie_qspi/xbflash/xspi.cpp:531-533 | empty lines and lines of other kinds change nothing |
| `McsText.TokenScans` | sw/FME_xilinx_driver/app_pcie_qspi/xbflash/xspi.cpp:537-539 | a printed data, address or end line scans back to itself, in either case of digits, whatever its checksum |
| `McsText.OnlyDigits` | sw/FME_xilinx_driver/app_pcie_qspi/xbflash/xspi.cpp:537-539 | nothing but a hexadecimal digit has a value |
| `McsCorrect.RecordsMatchFormat` | sw/FME_xilinx_driver/app_pcie_qspi/xbflash/xspi.cpp:527-600 | for a well-formed file every byte the Intel HEX format describes is held by a record at its address; the records follow each other and satisfy end = start + count |
| `McsCorrect.RecordsAreDescribed` | sw/FME_xilinx_driver/app_pcie_qspi/xbflash/xspi.cpp:527-600 | conversely every byte of ascending records is what the format describes at its address |
| `McsCorrect.FirstPassContents` | sw/FME_xilinx_driver/app_pcie_qspi/xbflash/xspi.cpp:527-600 | every byte described from any line on is held by some record at its address |
| `McsCorrect.CollectRecord` | sw/FME_xilinx_driver/app_pcie_qspi/xbflash/xspi.cpp:1290-1434 | the second pass returns the bytes it keeps of a record cut into 128-byte pages filled up with 0xFF |
| `McsCorrect.KeepsEveryByteIff` | sw/FME_xilinx_driver/app_pcie_qspi/xbflash/xspi.cpp:1304-1339 | the second pass keeps every byte of a record exactly when no data line runs over the end of a 128-byte page; otherwise bytes are lost |
| `McsCorrect.FifteenByteLinesLose` | sw/FME_xilinx_driver/app_pcie_qspi/xbflash/xspi.cpp:1304-1339 | witness: a record of nine lines of 15 bytes loses bytes |
| `McsCorrect.FullLinesFit` | sw/FME_xilinx_driver/app_pcie_qspi/xbflash/xspi.cpp:1304-1339 | lines of 16 bytes, shorter only at the end of a record, never run over a page end |
| `SpiTransfer.Transfer` | sw/FME_xilinx_driver/app_pcie_qspi/xbflash/xspi.cpp:866-1116 | the same from a controller with a part still selected: the bytes end the command that part had begun, and another part is released first; a failure leaves the part sent all of the bytes or a multiple of the FIFO depth, not acted on; if a fault is foreseen the transfer fails exactly when it strikes |
| `SpiTransfer.FinalTransfer` | sw/FME_xilinx_driver/app_pcie_qspi/xbflash/xspi.cpp:866-1116 | refines a plain byte exchange: for any FIFO depth the part sees exactly the n bytes in order as one command, the n replies are stored in order, no FIFO overflows, it terminates, fails only after a fault, and ends with both FIFOs empty and the transmitter inhibited |
| `SpiTransfer.Exchange` | sw/FME_xilinx_driver/app_pcie_qspi/xbflash/xspi.cpp:988-1107 | the polling rounds send everything and receive one reply per byte, in order |
| `SpiTransfer.Drain` | sw/FME_xilinx_driver/app_pcie_qspi/xbflash/xspi.cpp:1020-1062 | empties the receive FIFO into the buffer in order and touches nothing beyond |
| `SpiController.Controller.PollStatus` | sw/FME_xilinx_driver/app_pcie_qspi/xbflash/xspi.cpp:610-617 | hardware: bytes move on their own, one reply per byte, within the FIFO depth |
| `XspiFlasher.Flasher.SetSector` | sw/FME_xilinx_driver/app_pcie_qspi/xbflash/xspi.cpp:287-307 | after success the cached sector, the extended address register and the address agree |
| `XspiFlasher.Flasher.WriteRegister` | sw/FME_xilinx_driver/app_pcie_qspi/xbflash/xspi.cpp:1574-1611 | the part executes the register write, the payload bytes of the buffer stay |
| `XspiFlasher.Flasher.SectorErase` | sw/FME_xilinx_driver/app_pcie_qspi/xbflash/xspi.cpp:671-724 | erases the subsector of exactly the 28-bit address; a failure changes no cell and leaves at most a part of that command pending, cut where the FIFO had run empty; payload bytes stay |
| `XspiFlasher.Flasher.WritePage` | sw/FME_xilinx_driver/app_pcie_qspi/xbflash/xspi.cpp:1119-1178 | programs the 128 payload bytes at exactly the 28-bit address with the command the maker of the part takes, with the same failure guarantee |
| `XspiFlasher.Flasher.Prepare` | sw/FME_xilinx_driver/app_pcie_qspi/xbflash/xspi.cpp:1251-1288 | opens a coherent session from any state of the controller: the sector register is unknown, the segment count is the part's, and a part still selected first ends the command it had begun with the bytes of the status poll |
| `XspiFlasher.Flasher.GetFlashId` | sw/FME_xilinx_driver/app_pcie_qspi/xbflash/xspi.cpp:794-864 | waits for the part and learns the number of segments from the identification bytes |
| `NorFlash.CapacityDoubles` | sw/FME_xilinx_driver/app_pcie_qspi/xbflash/xspi.cpp:820-845 | the capacity codes and the number of segments each stands for |
| `XspiFlasher.Flasher.IsFlashReady` | sw/FME_xilinx_driver/app_pcie_qspi/xbflash/xspi.cpp:646-669 | from an idle controller success means that the part is idle and nothing else changed; it fails only after a fault or when the polls run out |
| `XspiFlasher.Flasher.PollReady` | sw/FME_xilinx_driver/app_pcie_qspi/xbflash/xspi.cpp:646-669 | the same polls from a controller with a part still selected |
| `XspiFlasher.Flasher.WriteEnable` | sw/FME_xilinx_driver/app_pcie_qspi/xbflash/xspi.cpp:773-792 | sets the write latch of the selected part only |
| `FlashCommands.HeaderAddress` | sw/FME_xilinx_driver/app_pcie_qspi/xbflash/xspi.cpp:287-289 | sector number and the three address bytes together name the 28-bit address |
| `FlashCommands.WireBytes` | sw/FME_xilinx_driver/app_pcie_qspi/xbflash/xspi.cpp:55-80 | the bytes of each command on the wire, with the opcodes of the source |
| `FlashCommands.EraseDecodes` | sw/FME_xilinx_driver/app_pcie_qspi/xbflash/xspi.cpp:692-714 | an armed, coherent part decodes the erase at exactly the address |
| `FlashCommands.ProgramDecodes` | sw/FME_xilinx_driver/app_pcie_qspi/xbflash/xspi.cpp:1142-1170 | an armed, coherent part decodes the program at exactly the address with the payload |
| `FlashCommands.ConfinedMeaning` | sw/FME_xilinx_driver/app_pcie_qspi/xbflash/xspi.cpp:671-724 | any prefix of an erase or program command, or of a set-up command, can change only cells the whole command changes |
| `BlockProtect.CheckLockStatusMeaning` | sw/OPAE/driver/opae-intel-fpga-driver-1.3.0-2/drivers/mtd/spi-nor/spi-nor.c:621-650 | the end-point comparison means that every byte of the range is locked, or every byte unlocked |
| `BlockProtect.WrapRejectsLargeExponents` | sw/OPAE/driver/opae-intel-fpga-driver-1.3.0-2/drivers/mtd/spi-nor/spi-nor.c:733-739 | the 8-bit wraparound test rejects exactly exponents above 7 and encodes the others as 7 - pow |
| `BlockProtect.LockWritten` | sw/OPAE/driver/opae-intel-fpga-driver-1.3.0-2/drivers/mtd/spi-nor/spi-nor.c:684-762 | a written lock protects the largest power of two within the target length, at the chosen end |
| `BlockProtect.LockAddsOnlyRequest` | sw/OPAE/driver/opae-intel-fpga-driver-1.3.0-2/drivers/mtd/spi-nor/spi-nor.c:684-762 | a lock protects only bytes locked before or requested |
| `BlockProtect.LockCoversRequestIff` | sw/OPAE/driver/opae-intel-fpga-driver-1.3.0-2/drivers/mtd/spi-nor/spi-nor.c:684-762 | a lock covers the whole request exactly when the target length is a power of two |
| `BlockProtect.LockKeepsLockedIff` | sw/OPAE/driver/opae-intel-fpga-driver-1.3.0-2/drivers/mtd/spi-nor/spi-nor.c:741-755 | a lock keeps everything locked exactly when nothing was locked, its target is anchored at the end that was locked, or its target is the whole part |
| `BlockProtect.LockKeepsLockedWithoutTb` | sw/OPAE/driver/opae-intel-fpga-driver-1.3.0-2/drivers/mtd/spi-nor/spi-nor.c:684-762 | without a top/bottom bit no lock unlocks anything |
| `BlockProtect.LockCanUnlock` | sw/OPAE/driver/opae-intel-fpga-driver-1.3.0-2/drivers/mtd/spi-nor/spi-nor.c:684-762 | witness on every part with a top/bottom bit: locking the upper half unlocks the locked lower half |
| `BlockProtect.UnlockWritten` | sw/OPAE/driver/opae-intel-fpga-driver-1.3.0-2/drivers/mtd/spi-nor/spi-nor.c:769-850 | a written unlock leaves the smallest power of two that holds the target length locked, or nothing for exponent 7 |
| `BlockProtect.SmallRemainder` | sw/OPAE/driver/opae-intel-fpga-driver-1.3.0-2/drivers/mtd/spi-nor/spi-nor.c:818-826 | exponent 7 or more is exactly a remainder of size/128 or less |
| `BlockProtect.UnlockLocksNothingNewIff` | sw/OPAE/driver/opae-intel-fpga-driver-1.3.0-2/drivers/mtd/spi-nor/spi-nor.c:769-850 | an unlock locks a subset exactly when its target is anchored at the end that was locked, at most size/128 is to stay locked, or everything was locked |
| `BlockProtect.UnlockKeepsRestIff` | sw/OPAE/driver/opae-intel-fpga-driver-1.3.0-2/drivers/mtd/spi-nor/spi-nor.c:769-850 | an unlock keeps every locked byte outside the request exactly when there is none or more than size/128 remains |
| `BlockProtect.UnlockFreesRequestIff` | sw/OPAE/driver/opae-intel-fpga-driver-1.3.0-2/drivers/mtd/spi-nor/spi-nor.c:769-850 | an unlock frees the whole request exactly when the remainder is a power of two or at most size/128 |
| `BlockProtect.UnlockCanLock` | sw/OPAE/driver/opae-intel-fpga-driver-1.3.0-2/drivers/mtd/spi-nor/spi-nor.c:769-850 | witness: an unlock that moves the anchor locks a quarter that was open |
| `BlockProtect.UnlockCanDropTheRest` | sw/OPAE/driver/opae-intel-fpga-driver-1.3.0-2/drivers/mtd/spi-nor/spi-nor.c:769-850 | witness: unlocking all but the last 1/128 of a locked part unlocks everything |
| `BlockLock.Chip.StmLock` | sw/OPAE/driver/opae-intel-fpga-driver-1.3.0-2/drivers/mtd/spi-nor/spi-nor.c:684-762 | stated on bytes: a request all locked changes nothing; otherwise it is refused exactly when what is locked reaches it neither from the top nor, given the bit, from the bottom, when the length aimed at is under 1/64 of the part, or when that, rounded down to a power of two, is less than what is locked; else exactly that many bytes at that end are locked and the write disable bit is set; a failed access leaves the old or the new register |
| `LockRules.LockMeetsRule` | sw/OPAE/driver/opae-intel-fpga-driver-1.3.0-2/drivers/mtd/spi-nor/spi-nor.c:684-762 | the lock decision meets that rule for every part, register and range |
| `LockRules.LockOkCovers` | sw/OPAE/driver/opae-intel-fpga-driver-1.3.0-2/drivers/mtd/spi-nor/spi-nor.c:684-762 | a lock that succeeds leaves the request locked, up to the rounding down |
| `LockRules.EightMegabytes` | sw/OPAE/driver/opae-intel-fpga-driver-1.3.0-2/drivers/mtd/spi-nor/spi-nor.c:662-681 | the fourteen protected portions of an 8 MB part are those of the table |
| `BlockLock.Chip.StmUnlock` | sw/OPAE/driver/opae-intel-fpga-driver-1.3.0-2/drivers/mtd/spi-nor/spi-nor.c:769-850 | the same for an unlock: refused exactly when the rest is neither all above nor, given the bit, all below, when it is 1/256 of the part or less but not nothing, or when, rounded up, it is more than what is locked; a rest of 1/128 or less is dropped; with nothing left the write disable bit is cleared |
| `LockRules.UnlockMeetsRule` | sw/OPAE/driver/opae-intel-fpga-driver-1.3.0-2/drivers/mtd/spi-nor/spi-nor.c:769-850 | the unlock decision meets that rule for every part, register and range |
| `SpiNorWrite.ConvertInjective` | sw/OPAE/driver/opae-intel-fpga-driver-1.3.0-2/drivers/mtd/spi-nor/spi-nor.c:474-484 | converted addresses of different bytes differ |
| `SpiNorWrite.ConvertShifts` | sw/OPAE/driver/opae-intel-fpga-driver-1.3.0-2/drivers/mtd/spi-nor/spi-nor.c:474-484 | the page number is shifted by 10 bits for pages above 512 bytes and by 9 otherwise |
| `SpiNorWrite.ConvertWithinPage` | sw/OPAE/driver/opae-intel-fpga-driver-1.3.0-2/drivers/mtd/spi-nor/spi-nor.c:474-484 | converted addresses are contiguous within a page |
| `SpiNorWrite.OrIsSum` | sw/OPAE/driver/opae-intel-fpga-driver-1.3.0-2/drivers/mtd/spi-nor/spi-nor.c:474-484 | the bitwise or of page and offset is their sum |
| `SpiNorDriver.AsmIp2.SpiNorWrite` | sw/OPAE/driver/opae-intel-fpga-driver-1.3.0-2/drivers/mtd/spi-nor/spi-nor.c:1369-1431 | success programs exactly the buffer and nothing else; chunks tile [to, to + retlen) and none crosses a page; on any error retlen counts a programmed prefix; no command is sent to a part still at work; without a fault it succeeds exactly when no page gets more bytes than the FIFO holds |
| `SpiNorDriver.AsmIp2.Write` | sw/OPAE/driver/opae-intel-fpga-driver-1.3.0-2/drivers/mtd/spi-nor/altera-asmip2.c:176-213 | sends the program command the part takes and programs the bytes that fit in 512 behind command and address, or reports 0 after a timeout |
| `SpiNorDriver.AsmIp2.PushOffset` | sw/OPAE/driver/opae-intel-fpga-driver-1.3.0-2/drivers/mtd/spi-nor/altera-asmip2.c:127-138 | pushes the address most significant byte first |
| `SpiNorWrite.BigEndianRoundTrip` | sw/OPAE/driver/opae-intel-fpga-driver-1.3.0-2/drivers/mtd/spi-nor/altera-asmip2.c:127-138 | the pushed address bytes denote the address |
| `SpiNorWrite.WholePages` | sw/OPAE/driver/opae-intel-fpga-driver-1.3.0-2/drivers/mtd/spi-nor/altera-asmip2.c:176-193 | pages no longer than the FIFO room always fit; a whole longer page (528 bytes) never does |
| `SstWrite.Chip.SstWrite` | sw/OPAE/driver/opae-intel-fpga-driver-1.3.0-2/drivers/mtd/spi-nor/spi-nor.c:1285-1362 | success stores each byte once, in order, at its address; pairs go out as word programs at even addresses, each after the first going on with the one before, and at most one byte program stands at each end; no program is sent to a part at work or without the write latch, which is cleared at the end; retlen grows by len; it fails only after a fault; retlen exceeds what was sent exactly when the first program at an odd address failed; an empty buffer is read past its end |
| `DmaRegions.CheckIovaMeaning` | sw/OPAE/driver/opae-intel-fpga-driver-1.3.0-2/drivers/fpga/intel/dma-region.c:145-154 | the 64-bit test means containment, or equality of the start for size 0 |
| `DmaRegions.Find` | sw/OPAE/driver/opae-intel-fpga-driver-1.3.0-2/drivers/fpga/intel/dma-region.c:245-276 | the tree descent returns what linear search returns, none exactly when no region matches |
| `DmaRegions.SearchUnique` | sw/OPAE/driver/opae-intel-fpga-driver-1.3.0-2/drivers/fpga/intel/dma-region.c:236-276 | at most one live region matches, and it is the one found |
| `DmaRegions.AddIsInsert` | sw/OPAE/driver/opae-intel-fpga-driver-1.3.0-2/drivers/fpga/intel/dma-region.c:157-191 | a region that overlaps no live one is always accepted and lands in its place in the order |
| `DmaRegions.AddRefusesIff` | sw/OPAE/driver/opae-intel-fpga-driver-1.3.0-2/drivers/fpga/intel/dma-region.c:157-190 | adding is refused exactly when a region of the tree holds the new one or starts where it does |
| `DmaRegions.RemoveIsWithout` | sw/OPAE/driver/opae-intel-fpga-driver-1.3.0-2/drivers/fpga/intel/dma-region.c:194-205 | removal deletes exactly that region and keeps the order |
| `DmaRegions.InsertKeepsSorted` | sw/OPAE/driver/opae-intel-fpga-driver-1.3.0-2/drivers/fpga/intel/dma-region.c:157-191 | order and disjointness survive every insertion of a disjoint region |
| `AfuMemory.WindowStaysMapped` | sw/OPAE/driver/opae-intel-fpga-driver-1.3.0-2/drivers/fpga/intel/afu.c:624-717 | over every interleaving of map, unmap, set-base, enable, disable and release, with bus addresses reusable as soon as they are unmapped: a nonzero base has its whole window in a live region marked in use, clear of every region about to be unmapped, and enabled implies a base |
| `AfuMemory.LockedPagesConserved` | sw/OPAE/driver/opae-intel-fpga-driver-1.3.0-2/drivers/fpga/intel/dma-region.c:38-129 | over every run the locked-page count is the baseline plus the pages of live regions and running calls, stays under the limit without the capability, and no decrement is clamped |
| `AfuMemory.LookupIsExact` | sw/OPAE/driver/opae-intel-fpga-driver-1.3.0-2/drivers/fpga/intel/dma-region.c:236-276 | in every reachable state a lookup finds the one region that holds the range, exactly when there is one |
| `AfuMemory.StepKeeps` | sw/OPAE/driver/opae-intel-fpga-driver-1.3.0-2/drivers/fpga/intel/dma-region.c:285-386 | each locked section and each DMA map or unmap call keeps the invariant |
| `AfuMemory.ClearSucceeds` | sw/OPAE/driver/opae-intel-fpga-driver-1.3.0-2/drivers/fpga/intel/afu.c:669-688 | clearing the base never meets the two errors the driver warns about |
| `AfuMemory.NoStaleMarkIff` | sw/OPAE/driver/opae-intel-fpga-driver-1.3.0-2/drivers/fpga/intel/afu.c:649-668 | setting a base over another leaves no region marked in vain exactly when the old base was clear or in the same region |
| `AfuMemory.StaleMark` | sw/OPAE/driver/opae-intel-fpga-driver-1.3.0-2/drivers/fpga/intel/afu.c:649-688 | witness: moving the base and clearing it leaves the first region marked, so it cannot be unmapped |
| `AfuDriver.Afu.MapRegion` | sw/OPAE/driver/opae-intel-fpga-driver-1.3.0-2/drivers/fpga/intel/dma-region.c:285-358 | succeeds exactly under the listed conditions, adds the region and its pages; every failing path restores everything and returns the error of the first condition missed; it is a run of the protocol |
| `AfuDriver.Afu.PinPages` | sw/OPAE/driver/opae-intel-fpga-driver-1.3.0-2/drivers/fpga/intel/dma-region.c:77-115 | charges and pins, or gives the charge back on each failing path |
| `AfuDriver.Afu.AdjustLockedVm` | sw/OPAE/driver/opae-intel-fpga-driver-1.3.0-2/drivers/fpga/intel/dma-region.c:38-75 | charges within the limit or with the capability; refunds clamped at zero; nothing for an exiting process |
| `AfuDriver.CheckContinuous` | sw/OPAE/driver/opae-intel-fpga-driver-1.3.0-2/drivers/fpga/intel/dma-region.c:131-143 | true exactly when consecutive frames follow each other, over the count narrowed to an int |
| `AfuDriver.Narrows` | sw/OPAE/driver/opae-intel-fpga-driver-1.3.0-2/drivers/fpga/intel/dma-region.c:131-143 | the count is narrowed to the int equal to it modulo 2^32 |
| `AfuDriver.Afu.UnmapRegion` | sw/OPAE/driver/opae-intel-fpga-driver-1.3.0-2/drivers/fpga/intel/dma-region.c:360-386 | refuses a missing region or one in use and changes nothing; otherwise removes exactly it, unmaps it and then refunds its pages; it is a run of the protocol |
| `AfuDriver.Afu.SetAddr` | sw/OPAE/driver/opae-intel-fpga-driver-1.3.0-2/drivers/fpga/intel/afu.c:635-691 | refused while the engine is on; address 0 clears the base and unmarks its region; any other is taken exactly when it is page aligned and one live region holds the whole window, which is then marked; the invariant stays |
| `UmsgBase.SetMeetsRule` | sw/OPAE/driver/opae-intel-fpga-driver-1.3.0-2/drivers/fpga/intel/afu.c:635-691 | the base function of the protocol meets that rule in every state with the invariant |
| `AfuDriver.Afu.UmsgEnable` | sw/OPAE/driver/opae-intel-fpga-driver-1.3.0-2/drivers/fpga/intel/afu.c:624-633 | succeeds exactly when switching off or a base is set; then the engine is as asked and nothing else changed |
| `UmsgBase.EngineRuns` | sw/OPAE/driver/opae-intel-fpga-driver-1.3.0-2/drivers/fpga/intel/afu.c:529-564 | the engine is reached: charge, map, publish, set the base and switch on end with it running on the mapped window |
| `UmsgBase.MapThenUnmap` | sw/OPAE/driver/opae-intel-fpga-driver-1.3.0-2/drivers/fpga/intel/dma-region.c:285-386 | a map followed by an unmap is a run that ends where it began |
| `UmsgBase.PagesAreBytes` | sw/OPAE/driver/opae-intel-fpga-driver-1.3.0-2/drivers/fpga/intel/dma-region.c:77-89 | pages charged for regions of whole pages are all their bytes |
| `AfuDriver.Afu.UmsgHalt` | sw/OPAE/driver/opae-intel-fpga-driver-1.3.0-2/drivers/fpga/intel/afu.c:709-717 | afterwards the engine is off and the base is clear |
| `AfuDriver.Afu.DestroyRegions` | sw/OPAE/driver/opae-intel-fpga-driver-1.3.0-2/drivers/fpga/intel/dma-region.c:208-234 | takes out every region and gives back the pages of each once, in order; each was unmapped for DMA before that exactly when no region is at bus address 0 |
| `Teardown.UnmappedFirstIff` | sw/OPAE/driver/opae-intel-fpga-driver-1.3.0-2/drivers/fpga/intel/dma-region.c:222-228 | no pages are given back while mapped exactly when no region is at bus address 0 |
| `Teardown.RegionAtZero` | sw/OPAE/driver/opae-intel-fpga-driver-1.3.0-2/drivers/fpga/intel/dma-region.c:222-228 | witness: a run of map steps that leaves a region at bus address 0, whose pages the last close gives back while it is mapped |
| `AfuDriver.Afu.Release` | sw/OPAE/driver/opae-intel-fpga-driver-1.3.0-2/drivers/fpga/intel/afu.c:1035-1043 | the last close halts the engine before it frees memory and leaves no region; for a live process it restores the initial state with the baseline count |
| `PortOwnership.OwnershipHolds` | sw/OPAE/driver/opae-intel-fpga-driver-1.3.0-2/drivers/fpga/intel/pcie.c:257-340 | over every interleaving: the counter is the number of unregistered ports, each held exclusively with open count 1; a VF port is never registered; a registered port's open count is its open files |
| `PortOwnership.ReleasedPortStaysClosed` | sw/OPAE/driver/opae-intel-fpga-driver-1.3.0-2/include/feature-dev.h:1626-1673 | a port the driver holds, even in the middle of a release or assign, can be neither opened nor closed by a user |
| `PortOwnership.OpenAllowedIff` | sw/OPAE/driver/opae-intel-fpga-driver-1.3.0-2/include/feature-dev.h:1626-1660 | in every reachable state a port the driver does not hold can be opened exclusively exactly when no file is open on it, shared unless one file has it exclusively, and not at all once unplugged |
| `PortOwnership.OpensShareOrExclude` | sw/OPAE/driver/opae-intel-fpga-driver-1.3.0-2/include/feature-dev.h:1626-1670 | an exclusive open keeps every other out, a shared one only exclusive ones; the first open is undone by its close |
| `PortOwnership.UnplugIsFinal` | sw/OPAE/driver/opae-intel-fpga-driver-1.3.0-2/include/feature-dev.h:1626-1660 | no run lets a file be opened on an unplugged port again |
| `PortOwnership.TakesEveryPortBack` | sw/OPAE/driver/opae-intel-fpga-driver-1.3.0-2/drivers/fpga/intel/pcie.c:1307-1340 | configuring 0 VFs, or failing to enable, leaves every port PF |
| `PortOwnership.HandsOutExactly` | sw/OPAE/driver/opae-intel-fpga-driver-1.3.0-2/drivers/fpga/intel/pcie.c:1302-1326 | from no VFs, a successful configure turns exactly the requested number of ports to VF |
| `PortOwnership.PortStepKeeps` | sw/OPAE/driver/opae-intel-fpga-driver-1.3.0-2/include/feature-dev.h:1626-1673 | every open, close, release and assign step keeps the ownership invariant |
| `PortDriver.Driver.DetachPort` | sw/OPAE/driver/opae-intel-fpga-driver-1.3.0-2/drivers/fpga/intel/pcie.c:307-340 | releases a registered, unopened port; otherwise the stated error and no change |
| `PortDriver.Driver.AttachPort` | sw/OPAE/driver/opae-intel-fpga-driver-1.3.0-2/drivers/fpga/intel/pcie.c:257-305 | re-registers a released PF port; otherwise the stated error and no change |
| `PortDriver.Driver.ConfigPort` | sw/OPAE/driver/opae-intel-fpga-driver-1.3.0-2/drivers/fpga/intel/fme-main.c:1098-1116 | refuses flags and unknown ids; a failure changes nothing, a release counts one port up and an assign one down |
| `PortDriver.Driver.SriovConfigure` | sw/OPAE/driver/opae-intel-fpga-driver-1.3.0-2/drivers/fpga/intel/pcie.c:1287-1348 | turns the first unregistered ports to VF, or all back to PF, with the returned status |
| `PortDriver.Driver.OpenPort` | sw/OPAE/driver/opae-intel-fpga-driver-1.3.0-2/drivers/fpga/intel/afu.c:960-1007 | refused exactly when the port is unplugged, or open for an exclusive open, or held exclusively for a shared one; otherwise one claim is added; a failed allocation undoes it |
| `PortDriver.Driver.ClosePort` | sw/OPAE/driver/opae-intel-fpga-driver-1.3.0-2/drivers/fpga/intel/afu.c:1009-1020 | gives up one claim |
| `PortDriver.Driver.Lookup` | sw/OPAE/driver/opae-intel-fpga-driver-1.3.0-2/drivers/fpga/intel/pcie.c:153-165 | finds the port with the id, or none |
| `PortReset.ResetExactlyWhileHeld` | sw/OPAE/driver/opae-intel-fpga-driver-1.3.0-2/drivers/fpga/intel/feature-dev.c:253-315 | after the first step of any interleaving of disable, enable and reset the soft-reset bit is set exactly while disable_count > 0, and the count is the number of holders |
| `PortReset.HeldUntilDropped` | sw/OPAE/driver/opae-intel-fpga-driver-1.3.0-2/include/feature-dev.h:1804-1850 | a thread that disabled a port keeps it in reset until its own enable, whatever resets others interleave |
| `PartialReconfig.Fme.PrWrite` | sw/OPAE/driver/opae-intel-fpga-driver-1.3.0-2/drivers/fpga/intel/fme-pr.c:183-259 | against an engine that returns credits at any time and other threads that reset the port at any time: a prefix is delivered in order, all of it on success; every push finds the region of the port asked for selected, the request started, the port in reset and at least two credits; a timeout reports the error register as read; at most PR_WAIT_TIMEOUT + 2 polls; EINVAL only for an unaligned tail |
| `PartialReconfig.Fme.AwaitCredit` | sw/OPAE/driver/opae-intel-fpga-driver-1.3.0-2/drivers/fpga/intel/fme-pr.c:214-226 | terminates within the remaining delay and the cached credit never exceeds the real one |
| `PartialReconfig.Fme.BufLoad` | sw/OPAE/driver/opae-intel-fpga-driver-1.3.0-2/drivers/fpga/fpga-mgr.c:177-199 | the manager reaches OPERATING exactly when init, write and complete all succeeded, otherwise the error state of the failing step, through the states in between; no push goes astray; an aligned buffer never meets EINVAL |
| `PartialReconfig.Fme.PrWriteInit` | sw/OPAE/driver/opae-intel-fpga-driver-1.3.0-2/drivers/fpga/intel/fme-pr.c:131-181 | EINVAL without the feature or for another kind of request; otherwise pulses the engine reset and succeeds exactly when no wait timed out |
| `PartialReconfig.Fme.PrWriteComplete` | sw/OPAE/driver/opae-intel-fpga-driver-1.3.0-2/drivers/fpga/intel/fme-pr.c:261-295 | succeeds only with the request cleared and no error |
| `PartialReconfig.Fme.Reconfigure` | sw/OPAE/driver/opae-intel-fpga-driver-1.3.0-2/drivers/fpga/intel/fme-pr.c:309-412 | each request that is turned down gets the stated error; success delivers the bitstream to the region of the port asked for, padded with zeros to the push width; in every case no push was made with the port out of reset and this thread's hold on the port is over |
| `PartialReconfig.Fme.PortDisable` | sw/OPAE/driver/opae-intel-fpga-driver-1.3.0-2/drivers/fpga/intel/feature-dev.c:280-315 | counts a holder and leaves the port in reset |
| `PartialReconfig.Fme.PortEnable` | sw/OPAE/driver/opae-intel-fpga-driver-1.3.0-2/drivers/fpga/intel/feature-dev.c:253-274 | the last holder takes the port out of reset |
| `PrTypes.AlignMeaning` | sw/OPAE/driver/opae-intel-fpga-driver-1.3.0-2/drivers/fpga/intel/fme-pr.c:358-362 | the aligned length is the least multiple that holds the size, except for sizes that wrap to 0 |
| `BitHeader.ParsesWhatWasPrinted` | sw/FME_xilinx_driver/drv_pcie_hwicap/pcie.c:230-370 | round trip: a printed header, whatever follows, parses to itself with HeaderLength equal to the printed length |
| `BitHeader.AcceptsOnlyPrints` | sw/FME_xilinx_driver/drv_pcie_hwicap/pcie.c:230-370 | conversely an accepted buffer starts with the print of its header, up to the unchecked byte that ends the magic |
| `BitSample.SampleParses` | sw/FME_xilinx_driver/drv_pcie_hwicap/pcie.c:230-370 | a literal header, magic bytes 0F F0 and all, parses to its fields whatever follows |
| `BitHeader.ParseHeader` | sw/FME_xilinx_driver/drv_pcie_hwicap/pcie.c:230-370 | the index loops compute Parse, including rejections and reads outside the buffer |
| `BitHeader.TakeField` | sw/FME_xilinx_driver/drv_pcie_hwicap/pcie.c:273-292 | one tagged, length-prefixed, NUL-terminated field |
| `BitHeader.TakeMagic` | sw/FME_xilinx_driver/drv_pcie_hwicap/pcie.c:249-258 | the alternating magic bytes, with the unsigned loop bound |
| `BitHeader.FieldReads` | sw/FME_xilinx_driver/drv_pcie_hwicap/pcie.c:279-292 | a printed field reads back as itself |
| `BitHeader.FieldWasPrinted` | sw/FME_xilinx_driver/drv_pcie_hwicap/pcie.c:279-292 | an accepted field was printed |
| `Msix.Feature.SetBlock` | sw/OPAE/driver/opae-intel-fpga-driver-1.3.0-2/drivers/fpga/intel/feature-dev.c:372-393 | success binds each vector exactly as the descriptors say; a failure at vector k leaves start..k unbound and later ones untouched; requested lines, line names and event references always match the triggers one to one; with open descriptors it fails only after a fault |
| `Msix.Feature.SetVector` | sw/OPAE/driver/opae-intel-fpga-driver-1.3.0-2/drivers/fpga/intel/feature-dev.c:327-370 | unbinds, then binds unless the descriptor is negative; a failure leaves it unbound |
| `Msix.Feature.Rollback` | sw/OPAE/driver/opae-intel-fpga-driver-1.3.0-2/drivers/fpga/intel/feature-dev.c:387-390 | unbinds the vectors from the failing one down to the first |
| `Msix.BindKeepsMatched` | sw/OPAE/driver/opae-intel-fpga-driver-1.3.0-2/drivers/fpga/intel/feature-dev.c:348-367 | binding keeps requested lines and references matched to triggers |
| `Msix.UnbindKeepsMatched` | sw/OPAE/driver/opae-intel-fpga-driver-1.3.0-2/drivers/fpga/intel/feature-dev.c:338-343 | unbinding keeps them matched |
| `Msix.RefusesMeaning` | sw/OPAE/driver/opae-intel-fpga-driver-1.3.0-2/drivers/fpga/intel/feature-dev.c:378-379 | the 32-bit bounds check accepts every block inside the vectors; what it accepts beyond them wrapped |

## Left out

- FirmwareUpgrade.Upgrade: a file with a record that ends within 4 KB of 2^32, where the 32-bit counter of the erase loop overflows, is outside the claim (`Sized`); numeric fields that `stoi` would accept with a sign or trailing characters count as unreadable; checksums are ignored, as in the code.
- XspiUpgrade.ProgramXSpi: likewise no record may end within 4 KB of 2^32 (`In32Bits`).
- XspiUpgrade.EraseAll: likewise; an end that close to 2^32 makes the erase loop of the code run on past the wrap.
- XspiFlasher.Flasher.GetFlashId: the part with identification byte 0x17 has one full segment here, though the real one is smaller.
- SpiTransfer.FinalTransfer: register reads never fail here (in the code a failed read stops the program through an assertion); polls see finitely many stalls, otherwise arbitrary.
- SpiNorDriver.AsmIp2.SpiNorWrite: the write-enable command, whose result the code ignores, is not modelled; a controller that returns a negative count is not modelled here (it is in `SstWrite`).
- SstWrite.Chip.SstWrite: if the controller programs fewer bytes than asked the code only warns, and the claim about contents then lapses.
- DmaRegions.AddIsInsert: the tree is an immutable search tree without rebalancing, which keeps the order of its regions; node addresses and aliasing are not captured.
- AfuDriver.Afu.Release: the interrupt unbinding and the port reset of the same step are not part of this class; `Msix` and `PortReset` model them.
- AfuDriver.Afu.MapRegion: one live process; page reference counts after a short pin are not modelled; bus addresses from the DMA interface are disjoint from mapped ones and below 2^48.
- PortDriver.Driver.SriovConfigure: removal of the whole device is only the step that marks ports unplugged.
- PartialReconfig.Fme.Reconfigure: the port named by a valid id exists; copying the result back to the user is not modelled.
- PartialReconfig.Fme.PortDisable: the count is unbounded; a 32-bit count cannot be reached by running threads.
- Test mode, flash read-back, the bulk erase and the factory revert of the flasher: debugging aids or unused paths.
- `spi_nor_erase` and the ICAP download loops (`hwicapWrite`, `bitstream_icap_helper`): plain loops that would only add easy members.
- Feature-list enumeration, sysfs, character devices, ioctl argument copying, scatter-gather loading: kernel plumbing.
- HSSI, thermal, power, performance counters, error reporting, the board-management mailbox: register wrappers.
