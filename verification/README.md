# Verified models of the Kinetis firmware library

Dafny models of the parts of the library that compute or decide something, with proofs of what they
promise. `dafny verify dfyconfig.toml` checks everything.

## What is modelled

| files | source | form |
|---|---|---|
| `SdramDevice`, `SelfTest`, `FaultCoverage`, `HalfwordAliasing` | the DDR memory self-test | a class over an array of byte cells, behind an arbitrary decoder and an arbitrary data path; loops as in the source |
| `Bmp180Arithmetic`, `Bmp180Calibration`, `Bmp180System`, `Bmp180Driver` | the BMP180 pressure sensor driver | machine arithmetic as functions, the driver as a class, driver and sensor together as a transition system |
| `Bits`, `PriorityEncoding`, `PriorityRegisters`, `PriorityGrouping`, `Preemption`, `InterruptSets`, `SysTickTimer`, `CortexM0Plus`, `CortexM4` | the CMSIS NVIC, SCB and SysTick functions | register contents as values, the two cores as classes whose methods write them |
| `SystemClock` | start-up and core clock of the MK10D10 | a class with the MCG registers and the global clock variable |
| `Mag3110` | MAG3110 calibration | a class with the calibration globals |
| `CInt` | C integer conversions and division | functions |

Conventions. Machine integers are unbounded integers with explicit conversions (`I16`, `I32`, `U32`); a signed
operation that overflows, undefined in C, wraps as the ARM instructions do, and the theorems say when nothing
overflows. `>>` on a signed value is floor division. A zero divisor gives 0, as the ARM divide instructions do
with trapping off; the theorems say when it cannot occur. Words that the source treats bit by bit are natural
numbers with C's operators defined bit by bit in `Bits`; register fields in `SystemClock` are quotients and
remainders.

Hardware. The memory is a last-writer store, its decoder and its data path arbitrary functions. The BMP180's
busy bit is bit 5 of its control register, set by a start command and cleared when the conversion ends. NVIC
set and clear banks, the priority field split, and the SysTick counter follow sections B3.4, B1.5.4 and B3.3 of
the ARMv7-M Architecture Reference Manual. The MCG status is taken to follow the control registers after an
arbitrary finite number of polls, and to show anything before that, poll by poll.

## Where the code and its own words differ

The models follow the code.

- The comment on `bmp180_read_temperature` (bmp180.c:241-248) promises tenths of a degree; line 269 divides by
  ten again, so whole degrees come out, except for B5 in -8 .. 7 (`Bmp180Arithmetic.TenthsReturnedIff`).
- "According to the data sheet" (bmp180.c:244, 277): C division truncates x2 toward zero, where the data sheet's
  example is rounded down. B5 is the one rounded down if and only if MC >= 0 or nothing remains of the division,
  and otherwise one higher (`Bmp180Arithmetic.FloorB5Iff`). For the example reading it is 2400 and not 2399
  (`Bmp180Arithmetic.ExampleTemperature`); that the pressure comes out the same is shown for this example only.
- The pressure formula doubles after dividing when b7 has its top bit set; there the reported pressure can fall by
  1 Pa while the raw reading grows (`Bmp180Arithmetic.PressureMonotoneIff`).
- `SystemCoreClockUpdate` multiplies in 32 bits; for an 8 MHz FLL reference divided by less than 8 it can wrap and
  store a clock far too low (`SystemClock.WrapsIffOverdriven`, `SystemClock.Accuracy`).
- `SysTick_Config` (core_cm4.h:1685) promises periodic interrupts `ticks` apart; `ticks == 1` is accepted and
  never fires (`SysTickTimer.PeriodicIff`).
- The clock setup called BLPE (system_MK10D10.c:201-203) never sets the LP bit, so it stays in FBE
  (`SystemClock.BypassIsNotLowPower`). The frequency is the promised one.
- A MAG3110 calibration whose three pairs of extremes sum to -1, 0 or 1 is taken for "not calibrated"
  (mag3110.c:110-111, `Mag3110.CalibrationUsedIff`, `Mag3110.CalibrationIgnored`).
- `DDR_SelfTest` runs four patterns but not every stuck bit meets both values in them
  (`FaultCoverage.StuckBitAlone`, `FaultCoverage.BoardMissesStuckAtZero`). Its fourth stage adds nothing for
  decoders that mix up whole words (`FaultCoverage.AliasingCoverage`); when half-words are mixed up it does
  (`HalfwordAliasing.BoardNeedsLoopback`), and some of these faults pass all four stages
  (`HalfwordAliasing.HalfAliasesEscapeIff`, `HalfwordAliasing.BoardMissesLowHalf`).
- `dump_calibration_data` swaps B5 although it is not read from the sensor (bmp180.c:104-114). The value survives
  if and only if its two bytes are equal (`Bmp180Calibration.SwapHarmlessIff`); no run depends on it
  (`Bmp180System.StartingB5Irrelevant`).

## Model

| member | source | states |
|---|---|---|
| SelfTest.Sdram.DdrSelfTest | Libraries/devices/src/MT47H64M16HR.c:101-205 | the loops return the number of the first failing stage, as defined from decoder and data path alone, and leave exactly what the stages up to it wrote |
| SelfTest.Sdram.Check8 | Libraries/devices/src/MT47H64M16HR.c:123-136 | the byte read loop accepts exactly when every byte of the region reads back its pattern |
| SelfTest.Sdram.Check16 | Libraries/devices/src/MT47H64M16HR.c:148-157 | the half-word read loop accepts exactly when every byte reads back its part of the half-word index |
| SelfTest.Sdram.Check32 | Libraries/devices/src/MT47H64M16HR.c:169-202 | both word read loops accept exactly when every byte reads back its part of the index or of the address |
| SelfTest.Sdram.Write8 | Libraries/devices/src/MT47H64M16HR.c:111-119 | the byte write loop leaves the fill with byte indexes |
| SelfTest.Sdram.Write16 | Libraries/devices/src/MT47H64M16HR.c:142-146 | the half-word write loop leaves the byte-by-byte fill with half-word indexes |
| SelfTest.Sdram.Write32 | Libraries/devices/src/MT47H64M16HR.c:163-189 | both word write loops leave the byte-by-byte fill of the region, last writer winning |
| SelfTest.Sdram.RunStage | Libraries/devices/src/MT47H64M16HR.c:110-138 | a write loop and its read loop succeed exactly when the stage passes by the definition over decoder and data path |
| SdramDevice.LastWriterIsGreatest | Libraries/devices/src/MT47H64M16HR.c:112-114 | the last writer of a cell is the greatest address that decodes to it |
| SdramDevice.FillHoldsLastWriter | Libraries/devices/src/MT47H64M16HR.c:112-119 | after a write loop a cell holds the pattern of the greatest address that decodes to it |
| SdramDevice.NarrowPatterns | Libraries/devices/src/MT47H64M16HR.c:114-145 | the patterns of stages 1 and 2 are the byte index mod 2^8 and the half-word index mod 2^16, little-endian |
| SdramDevice.WidePatterns | Libraries/devices/src/MT47H64M16HR.c:163-191 | those of stages 3 and 4 are the word index and the word's address, little-endian |
| SelfTest.VerifiedIsPasses | Libraries/devices/src/MT47H64M16HR.c:124-136 | reading the filled region back succeeds exactly when every address sees, through the data path, the pattern of its cell's last writer as its own |
| FaultCoverage.AliasingCoverage | Libraries/devices/src/MT47H64M16HR.c:109-203 | for every word decoder with a faithful data path: code 0 iff injective, 1 iff aliased words differ mod 64, else 2 iff mod 32768, else 3, never 4 |
| FaultCoverage.CompleteCoverage | Libraries/devices/src/MT47H64M16HR.c:109-203 | for every decoder whatever and every data path together: the code is the first stage in which addresses sharing a cell expect different bytes or some byte does not come back |
| FaultCoverage.StagePassesIff | Libraries/devices/src/MT47H64M16HR.c:109-203 | every stage, decoder and data path: it passes iff all sharers of a cell expect one byte and every expected byte comes back, so neither fault hides the other |
| FaultCoverage.WordStagePassesIff | Libraries/devices/src/MT47H64M16HR.c:109-203 | behind a word decoder with any data path a stage passes iff it can tell no aliased words apart and every byte comes back |
| FaultCoverage.WordDecoderCoverage | Libraries/devices/src/MT47H64M16HR.c:109-203 | the exact code for word decoder and data path together; code 0 iff no two words share a row and every byte comes back in all four stages |
| HalfwordAliasing.HalfDecoderCoverage | Libraries/devices/src/MT47H64M16HR.c:109-203 | the exact code for half-word decoder and data path together: distances of aliased half-words modulo 128, then 2^16, then word indexes, then addresses; stage 4 adds odd half-words sharing a row |
| HalfwordAliasing.HalfAliasesEscapeIff | Libraries/devices/src/MT47H64M16HR.c:109-203 | code 0 iff every byte comes back and only low halves of words a multiple of 256 KiB apart share rows |
| FaultCoverage.AliasesAgreeWhenPassing | Libraries/devices/src/MT47H64M16HR.c:109-203 | behind a word decoder no data fault can hide aliasing from a stage that tells the two words apart |
| FaultCoverage.StuckBitCoverage | Libraries/devices/src/MT47H64M16HR.c:109-203 | behind any decoder, faulty ones included: a stuck bit is reported by the first stage that sees the decoder's fault or writes the other value there |
| FaultCoverage.StuckBitAlone | Libraries/devices/src/MT47H64M16HR.c:109-203 | behind an injective word decoder the code is the first stage writing the other value to the stuck bit; it escapes iff there is none |
| FaultCoverage.BoardMissesStuckAtZero | Libraries/devices/src/MT47H64M16HR.c:105-106 | on the board's own region a bit of the first byte stuck at 0 passes the whole test |
| FaultCoverage.SoundPart | Libraries/devices/src/MT47H64M16HR.c:182-204 | a sound part of any size gets code 0 and every word is left holding its own address |
| FaultCoverage.StagesKeepOthers | Libraries/devices/src/MT47H64M16HR.c:109-203 | whatever the faults, no cell outside those the region decodes to is changed |
| Bmp180Arithmetic.TemperatureMonotone | Libraries/devices/src/bmp180.c:265-269 | for MC <= 0, B5 and the temperature never decrease with the raw reading, through shift, truncating division and int16 store |
| Bmp180Arithmetic.TemperatureFallsForPositiveMC | Libraries/devices/src/bmp180.c:265-269 | for every MC > 0 there are a calibration and two readings in range where B5 and the reported temperature both fall |
| Bmp180Arithmetic.TemperatureMonotoneIff | Libraries/devices/src/bmp180.c:265-269 | the exact sign: all calibrations with coefficient MC keep the order of all readings in range, in B5 and in the temperature, iff MC <= 0 |
| Bmp180Arithmetic.TenthsReturnedIff | Libraries/devices/src/bmp180.c:241-270 | the returned value is the promised tenths of a degree iff B5 is in -8 .. 7; otherwise it is whole degrees, rounded toward zero |
| Bmp180Arithmetic.TemperatureExact | Libraries/devices/src/bmp180.c:265-267 | in range the machine computes the unbounded formulas |
| Bmp180Arithmetic.FloorB5Iff | Libraries/devices/src/bmp180.c:265-268 | in range B5 equals the one with x2 rounded down iff MC >= 0 or the division leaves no remainder, and is else one higher; the tenths differ only where B5 + 8 is then a multiple of 16 |
| Bmp180Arithmetic.SafeForAllCalibrations | Libraries/devices/src/bmp180.c:295-305 | every calibration with AC4 >= 2 is free of overflow and has b4 >= 1 at every oversampling iff B5 is in -7994 .. 15994 |
| Bmp180Arithmetic.SafeForSmallAC4 | Libraries/devices/src/bmp180.c:299-305 | the bound on AC4 is exact: with AC4 = 0 nothing is safe, with AC4 = 1 all calibrations are safe at B5 = 4000 alone |
| Bmp180Arithmetic.OperandsExact | Libraries/devices/src/bmp180.c:295-305 | where safe, the machine values of b3 and b4 are those of the formulas |
| Bmp180Arithmetic.OperandFormulas | Libraries/devices/src/bmp180.c:295-305 | b3 and b4 of the model are the source's expressions with >> as division rounded down |
| Bmp180Arithmetic.SplitDivision | Libraries/devices/src/bmp180.c:308-315 | the split division is floor(2*b7/b4) below 2^31 without wrapping, and that rounded down to even above; the second shift wraps only for b4 = 1 |
| Bmp180Arithmetic.ResultMonotoneIff | Libraries/devices/src/bmp180.c:306-315 | the uncorrected result falls with a growing raw reading iff the split halves an odd quotient, and then by exactly one |
| Bmp180Arithmetic.PressureMonotoneIff | Libraries/devices/src/bmp180.c:301-319 | the reported pressure falls with a growing raw reading iff the split halves an odd quotient q and q and q - 1 have the same correction, and then by exactly 1 Pa |
| Bmp180Arithmetic.PressureExact | Libraries/devices/src/bmp180.c:295-321 | the whole reading without overflow is the rounded quotient plus its correction |
| Bmp180Arithmetic.PressureFormula | Libraries/devices/src/bmp180.c:306-319 | without overflow the whole reading is the source's expression of b3 and b4 with >> as division rounded down |
| Bmp180Arithmetic.CorrectionFitsIff | Libraries/devices/src/bmp180.c:316-319 | the final correction stays in int32 iff the result is in -215040 .. 215295 |
| Bmp180Arithmetic.CorrectionMonotone | Libraries/devices/src/bmp180.c:316-319 | the correction never reverses two results, and one step changes the pressure by at most 6 Pa |
| Bmp180Calibration.DecodeEncode | Libraries/devices/src/bmp180.c:102-117 | every calibration set is recovered from its 22 EEPROM bytes |
| Bmp180Calibration.EncodeDecode | Libraries/devices/src/bmp180.c:102-117 | different EEPROM contents give different calibration sets |
| Bmp180Calibration.DecodedFields | Libraries/devices/src/bmp180.c:102-117 | which two bytes make up each of the eleven coefficients, and which are unsigned |
| Bmp180Calibration.SwapTwice | Libraries/devices/src/bmp180.c:39 | the swap macro, through an int16 field, undoes itself |
| Bmp180Calibration.SwapHarmlessIff | Libraries/devices/src/bmp180.c:39 | the swap leaves an int16 field alone iff its two bytes are equal |
| Bmp180Driver.Bmp180.DumpCalibrationData | Libraries/devices/src/bmp180.c:102-117 | copying and swapping in place decodes the EEPROM, and swaps the untouched B5 |
| Bmp180Driver.Bmp180.ReadTemperature | Libraries/devices/src/bmp180.c:191-272 | reads 0x100 * MSB + LSB, stores the machine B5 of it and returns the machine temperature, changing nothing else |
| Bmp180Driver.Bmp180.ReadPressure | Libraries/devices/src/bmp180.c:206-323 | reads the 24 result bits shifted right by 8 - oss, oss being the top two control bits, and returns the machine pressure of it with the stored B5, changing nothing |
| Bmp180Driver.Bmp180.StartConversion | Libraries/devices/src/bmp180.c:177-180 | writes the command, logging whether a conversion was in flight |
| Bmp180Driver.Bmp180.IsConversionBusy | Libraries/devices/src/bmp180.c:230-239 | the poll answers with the busy bit |
| Bmp180Driver.Bmp180.ConversionProcess | Libraries/devices/src/bmp180.c:341-382 | one call is one step of the transition system; 0 and the pressure come together |
| Bmp180System.EveryRunIsCyclic | Libraries/devices/src/bmp180.c:341-382 | in every run the events are exactly the conversion cycle repeated: command 0x2E and then 0xF4, no start in flight, each result read from the registers after its own completion, the pressure with this cycle's B5 at oversampling 3 |
| Bmp180System.StartingB5Irrelevant | Libraries/devices/src/bmp180.c:104-382 | the B5 a driver starts with, such as a swapped one, changes the events of no run |
| Bmp180System.EveryPressureIsSafe | Libraries/devices/src/bmp180.c:295-382 | with AC4 >= 2 and every temperature of the run giving a B5 in -7994 .. 15994, every pressure of every run is computed without overflow in b3 or b4 and with a divisor of at least 1 |
| Bmp180System.RawPressureAtOss3 | Libraries/devices/src/bmp180.c:213-220 | at oversampling 3 the raw pressure is the top 19 result bits |
| Bmp180System.RawPressureByBits | Libraries/devices/src/bmp180.c:213-220 | at every oversampling the raw pressure is the 24 result bits over 2^(8 - oss) |
| Bmp180System.OneZeroPerCycle | Libraries/devices/src/bmp180.c:374-378 | 0 is returned exactly once per cycle |
| Bmp180System.CallsPerZero | Libraries/devices/src/bmp180.c:341-382 | in every such run the number of calls is bounded by 2K+6 for each 0 returned plus the calls still owed to the next one |
| Bmp180System.Progress | Libraries/devices/src/bmp180.c:341-382 | in every run of driver and sensor, from any state, 2K+6 calls return 0 at least once if no conversion is found busy more than K times |
| Bmp180System.BoundIsTight | Libraries/devices/src/bmp180.c:341-382 | for every K some run from the start makes 2K+5 calls, finds no conversion busy more than K times, and has not returned 0 |
| PriorityEncoding.WidthsSumToPrioBits | Libraries/startup/CoreSupport/core_cm4.h:1612-1617 | for 1 to 8 priority bits and every group the two widths make up the priority bits |
| PriorityEncoding.DecodeEncode | Libraries/startup/CoreSupport/core_cm4.h:1610-1649 | decoding an encoded pair gives each part reduced to its width |
| PriorityEncoding.EncodeDecode | Libraries/startup/CoreSupport/core_cm4.h:1610-1649 | encoding a decoded priority gives its implemented bits |
| PriorityEncoding.PartsAreModulo | Libraries/startup/CoreSupport/core_cm4.h:1647-1648 | the parts are the values modulo 2 to the widths |
| PriorityEncoding.EncodedIsSum | Libraries/startup/CoreSupport/core_cm4.h:1619-1622 | the or-ed fields do not overlap: the code is the preempt part raised over the subpriority bits plus the subpriority part, below 2^PRIO_BITS |
| PriorityEncoding.EncodedValue | Libraries/startup/CoreSupport/core_cm4.h:1610-1623 | with a = min(PRIO_BITS, 7 - group) preempt bits and the other b as subpriority the code is preempt mod 2^a times 2^b plus sub mod 2^b |
| PriorityEncoding.DecodedValue | Libraries/startup/CoreSupport/core_cm4.h:1638-1649 | the parts of a priority x are x / 2^b mod 2^a and x mod 2^b |
| PriorityEncoding.EncodeOrder | Libraries/startup/CoreSupport/core_cm4.h:1619-1622 | encoded pairs compare as their parts do lexicographically |
| PriorityEncoding.StoredRoundTrip | Libraries/startup/CoreSupport/core_cm4.h:1568-1595 | a stored priority reads back as its implemented bits |
| PriorityEncoding.StoredByteValue | Libraries/startup/CoreSupport/core_cm4.h:1568-1574 | the stored byte is the priority mod 2^PRIO_BITS times 2^(8 - PRIO_BITS) |
| PriorityEncoding.PreemptionIsByPreemptPart | Libraries/startup/CoreSupport/core_cm4.h:1568-1623 | under the hardware's split of the stored byte one encoded priority preempts another iff its preempt part is smaller |
| PriorityRegisters.PackedGetAfterSet | Libraries/startup/CoreSupport/core_cm0plus.h:713-742 | the read-modify-write of a lane sets one interrupt's priority and no other's |
| PriorityRegisters.SeparateIndexes | Libraries/startup/CoreSupport/core_cm0plus.h:635-637 | different interrupts differ in word index or bit shift |
| PriorityRegisters.PackedRefines | Libraries/startup/CoreSupport/core_cm0plus.h:713-742 | after any writes the packed words read back the last priority written to each interrupt, modulo 2^PRIO_BITS |
| PriorityRegisters.BytewiseRefines | Libraries/startup/CoreSupport/core_cm4.h:1568-1595 | the same for the byte registers of the M4 |
| PriorityRegisters.LayoutsAgree | Libraries/startup/CoreSupport/core_cm0plus.h:713-742 | after the same writes both layouts read back the same priorities |
| PriorityGrouping.GroupingRoundTrip | Libraries/startup/CoreSupport/core_cm4.h:1453-1476 | the grouping word carries the key, so the group written is the group read, modulo 8 |
| PriorityGrouping.RegroupKeepsOthers | Libraries/startup/CoreSupport/core_cm4.h:1458-1463 | setting the grouping keeps every other bit of the lower half |
| Preemption.EndToEnd | Libraries/startup/CoreSupport/core_cm4.h:1453-1649 | after the grouping and any priority writes, preemption between two interrupts follows their preempt parts, and reading back and decoding gives the pair |
| InterruptSets.RunRefines | Libraries/startup/CoreSupport/core_cm4.h:1485-1541 | over any trace of enable, disable, set- and clear-pending the register words hold exactly the sets given by insertion and removal |
| InterruptSets.ReadBitIsMember | Libraries/startup/CoreSupport/core_cm4.h:1514-1517 | the masked word is non-zero exactly for a member |
| SysTickTimer.CounterAfter | Libraries/startup/CoreSupport/core_cm4.h:1695-1706 | for ticks >= 2, after n clocks the counter stands at its place in the period and has fired floor(n/ticks) times |
| SysTickTimer.PeriodicIff | Libraries/startup/CoreSupport/core_cm4.h:1680-1706 | an accepted configuration is periodic iff ticks >= 2 |
| SysTickTimer.AcceptsIff | Libraries/startup/CoreSupport/core_cm4.h:1697 | the wrapping comparison accepts exactly 1 .. 2^24 |
| CortexM4.Core.SysTickConfig | Libraries/startup/CoreSupport/core_cm4.h:1695-1706 | 0 or more than 2^24 ticks return 1 and change nothing; otherwise LOAD is ticks - 1, VAL 0 and CTRL 7, and byte 11 of SHP, SysTick's, and no other, gets the lowest priority |
| CortexM4.Core.SetPriorityGrouping | Libraries/startup/CoreSupport/core_cm4.h:1453-1464 | the group read back is the group modulo 8; bits 0 .. 7 and 11 .. 15 of the register are kept and its upper half is the hardware's VECTKEYSTAT: the keyed write is accepted |
| CortexM4.Core.GetPriorityGrouping | Libraries/startup/CoreSupport/core_cm4.h:1473-1476 | mask and shift read the number in bits 8 .. 10 |
| CortexM4.Core.SetPriority | Libraries/startup/CoreSupport/core_cm4.h:1568-1574 | byte irqn of IP or byte irqn + 12 of SHP becomes the priority modulo 2^PRIO_BITS at the top of the byte; every other byte, and so every other interrupt's priority, stays |
| CortexM4.Core.GetPriority | Libraries/startup/CoreSupport/core_cm4.h:1588-1595 | that byte shifted down to the implemented bits |
| CortexM4.Core.EnableIRQ | Libraries/startup/CoreSupport/core_cm4.h:1485-1489 | sets bit j of enable word k for irqn = 32k + j and no other bit: adds exactly this interrupt to the enabled ones |
| CortexM4.Core.DisableIRQ | Libraries/startup/CoreSupport/core_cm4.h:1498-1501 | clears bit j of enable word k for irqn = 32k + j and no other bit: removes exactly this interrupt from the enabled ones |
| CortexM4.Core.SetPendingIRQ | Libraries/startup/CoreSupport/core_cm4.h:1526-1529 | sets bit j of pending word k for irqn = 32k + j and no other bit: adds exactly this interrupt to the pending ones |
| CortexM4.Core.ClearPendingIRQ | Libraries/startup/CoreSupport/core_cm4.h:1538-1541 | clears bit j of pending word k for irqn = 32k + j and no other bit: removes exactly this interrupt from the pending ones |
| CortexM4.Core.GetPendingIRQ | Libraries/startup/CoreSupport/core_cm4.h:1514-1517 | 1 exactly if bit irqn mod 32 of pending word irqn / 32 is set, else 0 |
| CortexM0Plus.Core.SetPriority | Libraries/startup/CoreSupport/core_cm0plus.h:713-721 | byte irqn of the IP words or byte irqn + 8 of the SHP words becomes the priority modulo 2^PRIO_BITS at the top of the byte; every other bit of every word, and so every other interrupt's priority, stays |
| CortexM0Plus.Core.GetPriority | Libraries/startup/CoreSupport/core_cm0plus.h:735-742 | that byte, cut from its word and shifted down to the implemented bits |
| CortexM0Plus.Core.SysTickConfig | Libraries/startup/CoreSupport/core_cm0plus.h:787-798 | the same on packed words, with byte 7 of the SHP words |
| SystemClock.Mcu.SystemCoreClockUpdate | Libraries/startup/DeviceSupport/system_MK10D10.c:211-289 | stores, by the bits of the registers, the divided oscillator times the multiplier modulo 2^32 over OUTDIV1 + 1; that is just below the exact frequency iff the setting is not overdriven; reserved CLKS changes nothing |
| SystemClock.CoreClockByBits | Libraries/startup/DeviceSupport/system_MK10D10.c:211-289 | the clock of every register setting by its bits: oscillator, 2^FRDIV, the 32 of high range, PRDIV0, VDIV0, FCRDIV, OUTDIV1 |
| SystemClock.OutputCases | Libraries/startup/DeviceSupport/system_MK10D10.c:217-276 | the output of each of the eight clock paths, and the multiplier, by the bits of the registers |
| SystemClock.FllMultiplierIs | Libraries/startup/DeviceSupport/system_MK10D10.c:236-262 | all eight FLL multipliers: 640 a step, or with DMX32 floor(24 MHz a step / 32768) |
| SystemClock.WrapsIffOverdriven | Libraries/startup/DeviceSupport/system_MK10D10.c:217-262 | the uint32 product wraps exactly for an 8 MHz FLL reference with RANGE0 = 0, FRDIV < 3 and the multipliers named |
| SystemClock.Accuracy | Libraries/startup/DeviceSupport/system_MK10D10.c:211-289 | the clock never exceeds the exact frequency and falls short by less than multiplier/outdiv + 1 Hz iff the setting is not overdriven |
| SystemClock.DividedTwice | Libraries/startup/DeviceSupport/system_MK10D10.c:227-230 | dividing by FRDIV's divider and then 32 is dividing by the product |
| SystemClock.SetupKeepsPromise | Libraries/startup/DeviceSupport/system_MK10D10.c:78-103 | from any registers each setup makes the update compute the clock the variable was initialised with |
| SystemClock.Mcu.SystemInit | Libraries/startup/DeviceSupport/system_MK10D10.c:109-205 | every register write and wait in order, with the value written; the final value of every register, trim bits of C4, SC and untouched registers kept; for these the update gives the promised clock |
| SystemClock.SequenceInFull | Libraries/startup/DeviceSupport/system_MK10D10.c:120-205 | every write and wait of each setup in order, with value and condition |
| SystemClock.Mcu.Await | Libraries/startup/DeviceSupport/system_MK10D10.c:134-137 | whatever the polls show meanwhile, a wait ends with the first settled poll at the latest, and with the awaited status bit seen |
| SystemClock.BypassIsNotLowPower | Libraries/startup/DeviceSupport/system_MK10D10.c:177-203 | the setup called BLPE leaves LP, bit 1 of C2, clear with CLKS = 2 |
| Mag3110.FoldIsExtremes | Libraries/devices/src/mag3110.c:150-178 | for every history the extremes are those of the set of samples with the seeds |
| Mag3110.OffsetIsMidpoint | Libraries/devices/src/mag3110.c:176-178 | the halved sum fits int16 and lies within half the range, rounded up, of both extremes |
| Mag3110.OrderAndRepetitionIrrelevant | Libraries/devices/src/mag3110.c:141-178 | histories with the same values give the same calibration |
| Mag3110.CorrectedSampleFits | Libraries/devices/src/mag3110.c:123 | every folded sample minus the offset fits int16 and is at most (Max-Min+1)/2 in magnitude |
| Mag3110.TrueExtremesIff | Libraries/devices/src/mag3110.c:4-9 | an extreme is a real sample iff some sample is on the far side of its seed |
| Mag3110.CalibrationUsedIff | Libraries/devices/src/mag3110.c:110-123 | a sample of the history is corrected by exactly its offsets, unwrapped and within (Max-Min+1)/2, iff on some axis the extremes do not sum to -1, 0 or 1 |
| Mag3110.Calibration.StartCalibrateOnce | Libraries/devices/src/mag3110.c:78-190 | with status bit 3 set one call appends the sample, low byte plus 256 times high byte on each axis, to the history the globals stand for; otherwise it changes nothing |
| Mag3110.Calibration.Absorb | Libraries/devices/src/mag3110.c:149-178 | the six comparisons and three offsets are one step of the fold on each axis |
| Mag3110.Calibration.Centre | Libraries/devices/src/mag3110.c:107-123 | the integer subtraction: a sample of the history, or any between the extremes, loses exactly the offset, unwrapped and within (Max-Min+1)/2, unless all three pairs of extremes cancel; then the default offsets are taken |
| Bmp180Arithmetic.PressureDropsAcrossSplit | Libraries/devices/src/bmp180.c:308-319 | a fall of the pressure: two neighbouring raw readings, 1 Pa less for the higher |
| Bmp180Arithmetic.ExampleTemperature | Libraries/devices/src/bmp180.c:265-269 | the data sheet's raw temperature: B5 is 2400 and would be 2399 rounded down; 150 tenths of a degree, reported as 15 |
| Bmp180Arithmetic.ExamplePressure | Libraries/devices/src/bmp180.c:292-321 | with the B5 the code computes from that temperature, the data sheet's raw pressure gives its 69964 Pa |
| SystemClock.OverdrivenExample | Libraries/startup/DeviceSupport/system_MK10D10.c:217-288 | all fields 0: 5.12 GHz, reported as 825032704 Hz |
| Mag3110.CalibrationIgnored | Libraries/devices/src/mag3110.c:110-111 | a history of one zero sample has three zero offsets, and the sample is reported as (-186, 331, 435) |
| HalfwordAliasing.BoardMissesLowHalf | Libraries/devices/src/MT47H64M16HR.c:105-106 | on the board's region, the low halves of the words at 0x70000000 and 0x70040000 in one row pass the whole test |
| HalfwordAliasing.BoardNeedsLoopback | Libraries/devices/src/MT47H64M16HR.c:182-202 | on the board's region, the high halves of the words at 0x70000000 and 0x70020000 in one row give code 4 |

## Left out

- I2C, SCCB, SPI and FlexBus transfers, delays and printing: their code lies elsewhere; a read is an input of the model. Bus errors of the BMP180 are ignored by the process and taken not to occur.
- Register initialisation tables, LCD drawing, the EEPROM driver, CMSIS inline assembly, ITM output and system reset: constants or I/O, nothing to compute.
- Floating point: altitude, the float outputs of the conversion process, the MAG3110 gains and the angle. The model ends with the integers they start from.
- Start-up of the uC/OS kernel: its code is not part of this model.
- NVIC_GetActive and the single-word enable and pending functions of the M0+: special cases of what is proved for the M4.
- Interrupt numbers below -12 on the M4 and below -8 on the M0+: the index expressions do not cover them, so the models exclude them.
- The watchdog writes of SystemInit: they do not bear on the clock.
- MCG mode rules of the K10 reference manual (which transitions are allowed, the FRDIV table for high range): not part of this model; the exact frequency is that of the dividers the code applies.
- The progress dots and messages of DDR_SelfTest; its four blocks share one method that takes the stage as a parameter.
