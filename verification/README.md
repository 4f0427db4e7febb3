# Board drivers of the EA LPC1788 kit: a verified model

This project models the board-support code of an LPC177x/8x Ethernet device and proves what that code
promises. Each driver is modelled together with the hardware it talks to, and the hardware is free to
misbehave in every way the driver has to live with: memories with broken decoders and stuck bits,
flash chips that stay busy for any length of time, a PHY that answers when it likes, an I2C bus that
drops transfers.

| file | what it models |
|---|---|
| `Words.dfy` | uint32_t values as numbers, and C's bit operators by the bits they produce |
| `FaultyMemory.dfy`, `MemTestSpec.dfy`, `MemTests.dfy`, `MemTestTheorems.dfy` | the six RAM tests, the faults of a memory, and which faults each test sees |
| `Multiples.dfy`, `SeededTheorems.dfy` | how many words the seeded pattern can tell apart |
| `NorChip.dfy`, `NorFlash.dfy` | the SST39VF320 as a machine of bus cycles, and its driver |
| `NandChip.dfy`, `NandFlash.dfy` | the K9F1G as a machine of command, address and data cycles, and its driver |
| `MiiBus.dfy`, `PhyDriver.dfy`, `PhyTheorems.dfy` | the MII bus, the SMSC 87x0 PHY driver, and its behaviour over whole runs |
| `TouchScreen.dfy`, `TouchCalibration.dfy` | the touch-screen filter and the calibration, in their integer widths |
| `NvicPriority.dfy`, `NvicBanks.dfy` | the interrupt priority codec and the banked enable and pending registers |
| `Uda1380.dfy` | the codec driver's write-and-verify logic on an unreliable bus |

Main results, hardest first:

* **RAM tests.** Every test is characterised exactly. Over an arbitrary address decoder a test passes if
  and only if its pattern is constant on every set of aliased words (`DecoderVerdict`); this is spelled
  out for all six patterns. Address and inverse address together pass if and only if the decoder is
  injective on the range *and* no bit of it is stuck, for any decoder combined with any stuck bits
  (`AddressPairVerdict`). The seeded pattern sees every alias among n words, whatever the decoder, if
  and only if n * gcd(increment, 2^32) is at most 2^32 (`SeededSeesAllIff`). Two shorted data lines are
  caught by either walking test if and only if the range reaches the lower line (`ShortVerdict`); which
  of them the alternating test catches, under any decoder, is exact too (`AlternatingShortVerdict`).
* **PHY poller.** For every bus delay and every register content, a client that looks at the link only
  when CHANGED is set always knows the link of the last completed sample (`RecordedIsCurrent`), and the
  number of polls that k samples take is given exactly (`SamplesKeepComing`). The flags are pinned to
  the register bits they come from (`StatusShowsLastSample`), and what initialisation writes to the PHY
  to its numbers (`Phy.Init`).
* **Flash drivers.** For every schedule of latencies, erase, poll, write and read returns the data and
  changes nothing else (`StoreSector`, `StorePage`), and no cycle is lost on a busy chip.
* **Codec.** A successful initialisation means that the registers really hold the configuration, whatever
  the bus lost; and it succeeds if and only if the bus and the codec do what `InitArrives` says, whatever
  the registers held before (`Uda1380.Init`).

Conventions. A `uint32_t *` is a word address, so `addr++` adds one; `1 << 31` and `~(1 << i)` are the
32-bit unsigned values. "Latency" is counted in looks at the device (bus cycles, busy queries, ready-pin
reads), which covers every timing the driver can observe. Methods are specified by functions of the old
state; lemmas state what those functions mean.

Where code and comments differ the code was followed: `lpc_phy_init` returns the `Status` enumeration of
`lpc_types.h` (1 on success), although `lpc_phy.h` documents 0 on success; `lpc_norflash_write_buffer`
returns the size rounded up to a whole word. `UDA1380_REG_WriteVerify` is documented to report success
only after a correct read-back; for the value 0 it also succeeds when the read fails. Its success can be
trusted exactly for the values other than 0 (`VerifyTrustedIff`).

## Model

| member | source | states |
|---|---|---|
| `MemTests.TestWalkingZero` | lpc_board_ea_devkit_1788/src/mem_tests.c:53-96 | the walking-0 test on any faulty memory: a range whose start or size is no multiple of 4 fails and touches nothing; on any other every cell ends with the pattern of the last word written into it, other cells are unchanged, the test passes iff every word reads back its pattern, and a failure reports the lowest word that does not, with the value read and the value expected |
| `MemTests.TestWalkingOne` | lpc_board_ea_devkit_1788/src/mem_tests.c:99-142 | the same for the walking-1 test |
| `MemTests.TestAddress` | lpc_board_ea_devkit_1788/src/mem_tests.c:145-178 | the same for the address test |
| `MemTests.TestInverseAddress` | lpc_board_ea_devkit_1788/src/mem_tests.c:181-214 | the same for the inverse address test |
| `MemTests.TestAlternating` | lpc_board_ea_devkit_1788/src/mem_tests.c:217-254 | the same for the alternating 0x55AA55AA pattern |
| `MemTests.TestSeeded` | lpc_board_ea_devkit_1788/src/mem_tests.c:257-294 | the same for the seeded pattern, with wrapping addition |
| `MemTestSpec.TwoPassesAreJudged` | lpc_board_ea_devkit_1788/src/mem_tests.c:53-294 | a pass that writes the whole range in order, followed by a scan that stops at the first difference, satisfies that outcome for every pattern, range, fault and previous contents |
| `MemTestTheorems.DecoderVerdict` | lpc_board_ea_devkit_1788/src/mem_tests.c:53-294 | with sound cells and any decoder, a test passes iff its pattern is constant on aliased words |
| `MemTestTheorems.AddressVerdict` | lpc_board_ea_devkit_1788/src/mem_tests.c:145-214 | address and inverse address each pass iff the decoder is injective on the range |
| `MemTestTheorems.WalkingVerdict` | lpc_board_ea_devkit_1788/src/mem_tests.c:53-142 | each walking test passes iff aliased word indices agree mod 32 |
| `MemTestTheorems.AlternatingVerdict` | lpc_board_ea_devkit_1788/src/mem_tests.c:217-254 | the alternating pattern passes iff aliased word indices agree mod 2 |
| `SeededTheorems.SeededVerdict` | lpc_board_ea_devkit_1788/src/mem_tests.c:257-294 | the seeded pattern passes iff (j - k) * incr vanishes mod 2^32 for all aliased j, k |
| `SeededTheorems.SeededSeesAllIff` | lpc_board_ea_devkit_1788/src/mem_tests.c:257-294 | for every seed, increment and range: the seeded test passes exactly on the injective decoders iff n * gcd(incr, 2^32) <= 2^32 |
| `SeededTheorems.GrainIsGcd` | lpc_board_ea_devkit_1788/src/mem_tests.c:257-294 | the number in that bound is the greatest common divisor: its divisors are the common divisors of incr and 2^32 |
| `SeededTheorems.SeededBlindSpot` | lpc_board_ea_devkit_1788/src/mem_tests.c:257-294 | beyond the bound, a decoder that repeats after 2^32 / gcd words passes although it is not injective |
| `SeededTheorems.SeededSeesEveryAlias` | lpc_board_ea_devkit_1788/src/mem_tests.c:257-294 | unless incr is a multiple of 8, the seeded test passes on an addressable range of any size iff the decoder is injective there |
| `MemTestTheorems.ComplementaryPairVerdict` | lpc_board_ea_devkit_1788/src/mem_tests.c:53-214 | for any decoder together with any stuck bits, two tests with complementary patterns both pass iff no bit of the range is stuck and the pattern is constant on aliased words |
| `MemTestTheorems.WalkingPairVerdict` | lpc_board_ea_devkit_1788/src/mem_tests.c:53-142 | both walking tests pass iff no bit is stuck and aliased indices agree mod 32 |
| `MemTestTheorems.AddressPairVerdict` | lpc_board_ea_devkit_1788/src/mem_tests.c:145-214 | address and inverse address both pass iff no bit is stuck and the decoder is injective |
| `MemTestTheorems.ShortVerdict` | lpc_board_ea_devkit_1788/src/mem_tests.c:53-142 | two shorted data lines (wired-OR or wired-AND) fail each walking test, under any decoder, once the range reaches the lower line; with a sound decoder exactly then |
| `MemTestTheorems.WalkingBit` | lpc_board_ea_devkit_1788/src/mem_tests.c:53-142 | in word k of the walking-1 test bit b is 1 iff b is k mod 32; in the walking-0 test it is 0 exactly then |
| `MemTestTheorems.AlternatingBit` | lpc_board_ea_devkit_1788/src/mem_tests.c:217-254 | bit b of alternating word k is set iff (b + b / 8) is odd exactly when k is even: 0x55AA55AA and its complement in turn |
| `MemTestTheorems.AlternatingShortVerdict` | lpc_board_ea_devkit_1788/src/mem_tests.c:217-254 | any decoder with two shorted data lines (wired-OR or wired-AND): the alternating test passes iff the range is empty, or i + i / 8 and j + j / 8 have the same parity and aliased indices agree mod 2 |
| `MemTestTheorems.SoundMemoryPasses` | lpc_board_ea_devkit_1788/src/mem_tests.c:53-294 | on sound memory every aligned test passes, leaves its pattern in the range, every other word as it was and the result fields alone |
| `NorFlashDriver.ProgramStarts` | lpc_board_ea_devkit_1788/src/lpc_norflash_sst39vf320.c:133-139 | the four cycles of a word write, sent to an idle chip, start exactly that operation and none is lost |
| `NorFlashDriver.ProgramLostWhileBusy` | lpc_board_ea_devkit_1788/src/lpc_norflash_sst39vf320.c:133-139 | sent without waiting, they start an operation iff the chip had already finished |
| `NorFlashDriver.WriteWord` | lpc_board_ea_devkit_1788/src/lpc_norflash_sst39vf320.c:133-139 | a write to a chip in read mode starts exactly the program operation of that word; in any other state it is those four cycles |
| `NorFlashDriver.EraseStarts` | lpc_board_ea_devkit_1788/src/lpc_norflash_sst39vf320.c:122-130 | the six erase cycles start the erase of the sector that contains the address |
| `NorFlashDriver.EraseSectorAt` | lpc_board_ea_devkit_1788/src/lpc_norflash_sst39vf320.c:122-130 | an erase of a chip in read mode starts exactly the erase of the sector that contains the address; in any other state it is those six cycles |
| `NorFlashDriver.ToggleBitCheck` | lpc_board_ea_devkit_1788/src/lpc_norflash_sst39vf320.c:110-119 | the check is true iff the operation was over before its first read, or between its reads with DQ6 happening to equal the data bit; that is, iff bit 6 of the two words read is the same |
| `NorFlashDriver.ToggleCheckIsSafe` | lpc_board_ea_devkit_1788/inc/lpc_norflash.h:75-85 | a true check means the operation had ended by its second read; after it has ended the next check is true |
| `NorFlashDriver.WaitForToggle` | lpc_board_ea_devkit_1788/src/lpc_norflash_sst39vf320.c:147 | for every latency the polling loop ends with the operation complete, after an exact number of checks: half the remaining busy cycles, rounded down, plus one, or plus two if their number is odd and DQ6 does not happen to equal the data bit |
| `NorFlashDriver.WriteBuffer` | lpc_board_ea_devkit_1788/src/lpc_norflash_sst39vf320.c:142-151 | for every latency schedule each target word becomes old AND data, no other word changes, no cycle meets a busy chip, the chip ends idle in read mode, and the result is the size rounded up to even |
| `NorFlashDriver.GetId` | lpc_board_ea_devkit_1788/src/lpc_norflash_sst39vf320.c:81-107 | the identification sequence returns both codes and leaves the chip exactly as it was |
| `NorFlashDriver.EraseThenProgramStores` | lpc_board_ea_devkit_1788/src/lpc_norflash_sst39vf320.c:122-151 | erasing a sector and then programming data from its start leaves the data, ones behind it, and every other sector as it was |
| `NorFlashDriver.StoreSector` | lpc_board_ea_devkit_1788/src/lpc_norflash_sst39vf320.c:76-156 | for every sector, data and latency: offset, erase, poll, write and read back return exactly the data, other sectors unchanged, nothing sent to a busy chip |
| `NandFlashDriver.RowDecodes` | lpc_board_ea_devkit_1788/src/lpc_nandflash_k9f1g.c:45 | the chip decodes the emitted row bytes to 64 * block + page mod 65536, for any block and page |
| `NandFlashDriver.AddressRoundTrip` | lpc_board_ea_devkit_1788/src/lpc_nandflash_k9f1g.c:45 | inside the chip it decodes them to that block and that page |
| `NandFlashDriver.AddressesAreDistinct` | lpc_board_ea_devkit_1788/src/lpc_nandflash_k9f1g.c:45 | different locations never share a row |
| `NandFlashDriver.EraseBlock` | lpc_board_ea_devkit_1788/src/lpc_nandflash_k9f1g.c:115-132 | the erase blanks exactly the 64 pages of the decoded block |
| `NandFlashDriver.WritePage` | lpc_board_ea_devkit_1788/src/lpc_nandflash_k9f1g.c:135-162 | every byte of row 64 * block + page (mod 65536) within the size becomes old AND data, every other byte of the chip stays; all bytes are counted |
| `NandFlashDriver.ReadStart` | lpc_board_ea_devkit_1788/src/lpc_nandflash_k9f1g.c:165-184 | the chip is left reading the decoded page from the given offset |
| `NandFlashDriver.ReadData` | lpc_board_ea_devkit_1788/src/lpc_nandflash_k9f1g.c:187-201 | the buffer receives that slice of the page, its rest is untouched, and the chip's column advances |
| `NandFlashDriver.WaitReady` | lpc_board_ea_devkit_1788/inc/board.h:377-380 | waiting on the ready pin ends for every latency and changes nothing else |
| `NandFlashDriver.EraseThenWriteStores` | lpc_board_ea_devkit_1788/src/lpc_nandflash_k9f1g.c:115-162 | what erase and program leave in every one of the 65536 rows |
| `NandFlashDriver.StorePage` | lpc_board_ea_devkit_1788/src/lpc_nandflash_k9f1g.c:115-201 | erase, write, read from any offset return the matching slice; other pages of the block are blank, other blocks untouched, no cycle lost |
| `PhyDriver.Phy.Poll` | lpc_board_ea_devkit_1788/src/lpc_phy_smsc87x0.c:230-266 | one poll is one step of the state machine on driver and bus, and returns the new status; a poll that completes a sample shows bit 2 of the first register and the field of bits 2 to 4 of the second; nothing is written to the PHY |
| `PhyTheorems.UpdateDecodes` | lpc_board_ea_devkit_1788/src/lpc_phy_smsc87x0.c:144-183 | an update makes both words show the decoded link, which is bit 2 of one register and bits 2 to 4 of the other, and raises CHANGED iff that differs from the old one |
| `PhyTheorems.RunKeepsInv` | lpc_board_ea_devkit_1788/src/lpc_phy_smsc87x0.c:230-266 | over every run BUSY is set iff the state is 1 or 2, every fetch is of the register its state is about, nothing is started or fetched on a busy bus (except by the first poll if initialisation left the bus busy), and the status shows the last completed sample |
| `PhyTheorems.ChangedExactlyOnChange` | lpc_board_ea_devkit_1788/src/lpc_phy_smsc87x0.c:144-183 | a poll returns CHANGED iff it completes a sample that differs from the one before, and the next poll clears it |
| `PhyTheorems.StatusShowsLastSample` | lpc_board_ea_devkit_1788/src/lpc_phy_smsc87x0.c:144-266 | after any polls, CONNECTED is bit 2 of what register 1 delivered to the last sample; with the field of bits 2 to 4 of register 31, SPEED100 is clear iff it is 1 or 5 and FULLDUPLX iff it is 1 or 2 |
| `PhyTheorems.ChangedIffFlagsDiffer` | lpc_board_ea_devkit_1788/src/lpc_phy_smsc87x0.c:177-182 | every poll returns CHANGED iff one of the three link flags is not what it was before that poll |
| `PhyTheorems.PollingWritesNothing` | lpc_board_ea_devkit_1788/src/lpc_phy_smsc87x0.c:230-266 | no run of polls writes to the PHY |
| `PhyTheorems.RecordedIsCurrent` | lpc_board_ea_devkit_1788/inc/lpc_phy.h:51-53 | a client that records the link only on CHANGED always holds the link of the last completed sample |
| `PhyTheorems.ThreeIdlePolls` | lpc_board_ea_devkit_1788/src/lpc_phy_smsc87x0.c:230-266 | three consecutive polls that find the bus idle complete exactly one sample, from any of the three states |
| `PhyTheorems.OneSample` | lpc_board_ea_devkit_1788/src/lpc_phy_smsc87x0.c:230-266 | a sample takes exactly three polls more than its two transactions keep the bus busy |
| `PhyTheorems.SamplesKeepComing` | lpc_board_ea_devkit_1788/src/lpc_phy_smsc87x0.c:230-266 | after the summed number of polls exactly k samples are complete, for every k |
| `PhyDriver.Phy.MiiWrite` | lpc_board_ea_devkit_1788/src/lpc_phy_smsc87x0.c:94-115 | a blocking write succeeds iff the bus is free within 250 queries, and delays 1 ms for each busy one; it writes that value to that register, whether answered or not |
| `PhyDriver.Phy.MiiRead` | lpc_board_ea_devkit_1788/src/lpc_phy_smsc87x0.c:119-141 | the same for a blocking read, which returns the data of its own transaction and writes nothing |
| `PhyDriver.Phy.Init` | lpc_board_ea_devkit_1788/src/lpc_phy_smsc87x0.c:186-227 | initialisation always ends, with the result and delay of InitOutcome, writes 0x8000 (reset) to register 0 and, only on success, 0x1000 (autonegotiation) after it and nothing else, clears all flags and the state, starts nothing on a busy bus unless it found it busy, and on success leaves the bus as InitBus says: idle iff the last, unchecked write took at most 250 queries |
| `PhyTheorems.InitSucceedsIff` | lpc_board_ea_devkit_1788/src/lpc_phy_smsc87x0.c:186-227 | it succeeds iff the reset write is answered and one of the next 400 reads of register 0, all answered so far, shows bits 15 and 11 clear |
| `PhyTheorems.OutOfResetBits` | lpc_board_ea_devkit_1788/src/lpc_phy_smsc87x0.c:208-210 | the reset wait looks at bits 15 and 11 of register 0 |
| `PhyTheorems.PollingAfterInit` | lpc_board_ea_devkit_1788/src/lpc_phy_smsc87x0.c:186-266 | every run of polls after a successful initialisation meets a busy bus at most once, in its first poll, and exactly then if the last write of the initialisation took more than 250 queries |
| `PhyTheorems.FirstPollMayMeetBusyBus` | lpc_board_ea_devkit_1788/src/lpc_phy_smsc87x0.c:186-266 | a concrete PHY that initialises successfully and leaves the bus busy for the first poll |
| `PhyTheorems.InitWaitBound` | lpc_board_ea_devkit_1788/src/lpc_phy_smsc87x0.c:94-227 | it asks for at most 100499 ms of delay |
| `PhyTheorems.InitWaitBoundIsTight` | lpc_board_ea_devkit_1788/src/lpc_phy_smsc87x0.c:94-227 | some PHY makes it ask for exactly that and still succeed |
| `TouchScreen.TouchController.EvalCoord` | lpc_board_ea_devkit_1788/src/board.c:282-307 | success iff ten consecutive samples never step by more than 80 up or down; then the result is their mean rounded down; otherwise it stops at the first larger step; no 16-bit overflow |
| `TouchScreen.SampleBits` | lpc_board_ea_devkit_1788/src/board.c:261-279 | bit b of a sample is bit b + 3 of the two bytes received, high byte first, for all twelve bits |
| `TouchScreen.AverageBetween` | lpc_board_ea_devkit_1788/src/board.c:282-307 | the result lies within any bounds that hold the ten samples |
| `TouchScreen.SteadySpread` | lpc_board_ea_devkit_1788/src/board.c:282-307 | accepted samples lie within 720 counts of each other |
| `TouchScreen.ResultNearFirst` | lpc_board_ea_devkit_1788/src/board.c:282-307 | the result is within 360 counts of the first sample |
| `TouchScreen.ResultNearLast` | lpc_board_ea_devkit_1788/src/board.c:282-307 | and of the last |
| `TouchScreen.BoundsAreTight` | lpc_board_ea_devkit_1788/src/board.c:282-307 | an accepted ramp meets 720 and 360 exactly |
| `TouchCalibration.CalibrateScales` | lpc_board_ea_devkit_1788/src/board.c:310-330 | between the limits the result is the scaled share of the size rounded down, inside [0, size] |
| `TouchCalibration.CalibrateEndpoints` | lpc_board_ea_devkit_1788/src/board.c:310-330 | the limits map to 0 and size, in either order |
| `TouchCalibration.CalibrateMonotone` | lpc_board_ea_devkit_1788/src/board.c:310-330 | monotone in the coordinate, antitone with swapped limits, always in [0, size] |
| `TouchCalibration.SwapMirrors` | lpc_board_ea_devkit_1788/src/board.c:316-327 | swapping the limits mirrors the result in 16-bit arithmetic, for all arguments |
| `TouchCalibration.SwapMirrorsExactly` | lpc_board_ea_devkit_1788/src/board.c:316-327 | between the limits the swapped result is exactly the size minus the other |
| `TouchCalibration.InSizeIff` | lpc_board_ea_devkit_1788/src/board.c:310-330 | for every coordinate and either order of the limits, the result lies in [0, size] iff C's quotient does modulo 2^16 |
| `TouchCalibration.CalibrateTruncates` | lpc_board_ea_devkit_1788/src/board.c:310-330 | the value for all arguments and either order of the limits: modulo 2^16, the quotient of the scaled offset and the range towards zero, or the size minus it |
| `TouchCalibration.BoardCallInSizeIff` | lpc_board_ea_devkit_1788/src/board.c:645-650 | for every 12-bit coordinate and the board's limits and sizes (lines 115-117) the quotient fits 16 bits, and the result lies in [0, size] iff the scaled offset lies above minus one range and below size + 1 ranges |
| `TouchCalibration.BoardCallTruncates` | lpc_board_ea_devkit_1788/src/board.c:645-650 | for every 12-bit coordinate and the board's limits and sizes, the size minus the result is exactly that quotient, inside [0, size] or not |
| `TouchCalibration.ProductFits` | lpc_board_ea_devkit_1788/src/board.c:324 | the product cannot overflow 32 bits for any int16 arguments |
| `NvicPriority.FieldsFillPriority` | lpc_chip_177x_8x/inc/core_cm3.h:1449-1454 | for every width and group the two field widths sum to the implemented bits; the subpriority takes the lowest group + 1 bits of the register, as far as they are implemented |
| `NvicPriority.DecodeEncode` | lpc_chip_177x_8x/inc/core_cm3.h:1447-1486 | decoding an encoded priority returns both values reduced to their fields: the values themselves if they are below 2^min(P, 7-g) and 2^max(0, g+P-7) |
| `NvicPriority.EncodeDecode` | lpc_chip_177x_8x/inc/core_cm3.h:1447-1486 | decoded values are below 2^min(P, 7-g) and 2^max(0, g+P-7), and encoding them returns the implemented bits |
| `NvicPriority.EncodedOrderIsLexicographic` | lpc_chip_177x_8x/inc/core_cm3.h:1447-1460 | encoded values compare as (preempt, sub) pairs, for values below those bounds |
| `NvicPriority.RegisterLayout` | lpc_chip_177x_8x/inc/core_cm3.h:1405-1460 | in the register the preemption priority lies above bit g = group % 8 and the subpriority in bits g to 0, each shifted over the unimplemented bits of its part |
| `NvicPriority.BinaryPointDecides` | lpc_chip_177x_8x/inc/core_cm3.h:1405-1460 | the register above bit g compares as the preemption priorities, and for equal ones the register as the subpriorities |
| `NvicPriority.RegisterKeepsImplementedBits` | lpc_chip_177x_8x/inc/core_cm3.h:1405-1432 | setting and getting a priority returns its implemented bits |
| `NvicPriority.PriorityRoundTrip` | lpc_chip_177x_8x/inc/core_cm3.h:1405-1486 | encode, set, get, decode return the values reduced to their fields: the values themselves if they are below those bounds |
| `NvicPriority.PriorityRegisters.SetPriority` | lpc_chip_177x_8x/inc/core_cm3.h:1405-1411 | the priority goes to SHP[irq + 12] for a handler and IP[irq] for a device interrupt, and no other register changes |
| `NvicPriority.PriorityRegisters.GetPriority` | lpc_chip_177x_8x/inc/core_cm3.h:1425-1432 | returns SHP[irq + 12] or IP[irq], shifted back |
| `NvicBanks.Nvic.EnableIRQ` | lpc_chip_177x_8x/inc/core_cm3.h:1323-1326 | adds exactly this interrupt to the enabled set; the pending set is unchanged |
| `NvicBanks.Nvic.DisableIRQ` | lpc_chip_177x_8x/inc/core_cm3.h:1335-1338 | removes exactly this interrupt from the enabled set; the pending set is unchanged |
| `NvicBanks.Nvic.SetPendingIRQ` | lpc_chip_177x_8x/inc/core_cm3.h:1363-1366 | adds exactly this interrupt to the pending set; the enabled set is unchanged |
| `NvicBanks.Nvic.ClearPendingIRQ` | lpc_chip_177x_8x/inc/core_cm3.h:1375-1378 | removes exactly this interrupt from the pending set; the enabled set is unchanged |
| `NvicBanks.Nvic.GetPendingIRQ` | lpc_chip_177x_8x/inc/core_cm3.h:1351-1354 | 1 iff the interrupt is in the pending set |
| `NvicBanks.StepRefines` | lpc_chip_177x_8x/inc/core_cm3.h:1323-1378 | each step adds or removes exactly one interrupt of one abstract set |
| `NvicBanks.LastCallDecides` | lpc_chip_177x_8x/inc/core_cm3.h:1323-1378 | after any sequence of calls an interrupt is enabled, or pending, iff the last call about it made it so |
| `Uda1380.RegRead` | lpc_board_ea_devkit_1788/src/uda1380.c:100-106 | returns the register if both bytes arrive and 0 otherwise |
| `Uda1380.WriteVerify` | lpc_board_ea_devkit_1788/src/uda1380.c:109-115 | succeeds iff the read-back, or 0 if it failed, equals the value |
| `Uda1380.VerifyTrustedIff` | lpc_board_ea_devkit_1788/src/uda1380.c:109-115 | a true result implies that the register holds the value, on every bus and codec, iff the value is not 0 |
| `Uda1380.NonzeroVerifyIsTrue` | lpc_board_ea_devkit_1788/src/uda1380.c:109-115 | for a nonzero value success means the register holds it |
| `Uda1380.ZeroVerifyCanLie` | lpc_board_ea_devkit_1788/src/uda1380.c:100-115 | for 0 it need not: a concrete bus and register |
| `Uda1380.VerifyMult` | lpc_board_ea_devkit_1788/src/uda1380.c:118-133 | succeeds iff the read is complete and every byte equals the register contents |
| `Uda1380.WriteMult` | lpc_board_ea_devkit_1788/src/uda1380.c:174-177 | succeeds iff every byte was sent; only whole values take effect |
| `Uda1380.SetDefaultValues` | lpc_board_ea_devkit_1788/src/uda1380.c:75-86 | success iff both transfers are complete and every register of the block takes up its value, whatever it held; then the block is really in the registers; no other register changes; within the 10-byte buffer |
| `Uda1380.AdcSelectsInput` | lpc_board_ea_devkit_1788/src/uda1380.c:164-165 | bit b of the ADC value is set iff b is 0 or it is set in the input, converted to 16 bits |
| `Uda1380.MicrophoneSelected` | lpc_board_ea_devkit_1788/inc/uda1380.h:104-105 | an ADC register that selects the microphone in the left stream, or in both, holds 5, or 13 |
| `Uda1380.Init` | lpc_board_ea_devkit_1788/src/uda1380.c:136-171 | success means all fourteen registers hold their configuration, with the power override and bit by bit 1 | input in the ADC register when an input is selected (5 and 13 for the two microphone selections); it comes iff all three blocks go through and both overrides are read back and were taken up (or, for the ADC register, not needed); the event handler is restored in every case |

## Left out

- MemTests: the setup structure lies outside the tested range, and a memory gives the same answer when read twice without a write between (so `is_val` is the value that was compared).
- MemTests.TestSeeded: start plus size must not exceed 2^32, as for all six tests; beyond that the C pointer would wrap.
- NorFlashDriver.WriteBuffer: address and rounded size must lie inside the flash and the address must be even, as its header asks.
- NorFlashDriver.GetId: the delay loops of the identification mode are not modelled.
- NorFlash: block and chip erase, the unlock bypass and the CFI mode of the chip, which the driver does not use.
- NandFlashDriver.WritePage: at most a page and its spare area (2112 bytes); a read stays inside a page. What the chip does beyond is not described by the code.
- NandFlash: reading status and identification, and the chip-select latch, which is compiled out.
- PhyDriver.Phy.Init: the `rmii` argument has no effect in the code either; delays are counted, not timed.
- PhyDriver: status bits as a record of flags; bits 6 to 31 of the word are never touched by the driver.
- TouchScreen: the pressure test and SSP transfers of `Board_GetTouchPos`.
- NvicPriority: priority grouping in AIRCR, system reset, and the active-interrupt register.
- NvicBanks: interrupts that the hardware itself makes pending between two calls.
- Uda1380.Init: I2C set-up calls other than the event handler; registers other than the 256 addressable ones.
- Ring buffers, Ethernet descriptors, SD/MMC, CAN, clocks, pin muxing and LCD initialisation: only prototypes or register plumbing are visible.
