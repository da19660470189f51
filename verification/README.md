# Verified model of the sensor firmware's low-level algorithms

A Dafny model of the parts of this firmware that compute something hard to get right, with
proofs. `dafny verify dfyconfig.toml` checks all of it.

The project follows the program. Each module models one component:

| module | component |
|---|---|
| `Bits` | 32-bit registers as sequences of 32 bits, the C operators on them, numbers and powers of two |
| `Options` | a value that may be absent |
| `Priority`, `NvicPriority`, `SysTickTimer` | interrupt priorities: bit fields, the word-packed and the byte store, the SysTick set-up |
| `InterruptSets` | interrupt enabling and pending bits behind write-one-to-set and write-one-to-clear registers |
| `BitAlgorithms`, `Saturation` | the portable bodies of the CMSIS intrinsics |
| `Startup` | the copy and zero loops that run before `main` |
| `Mpu` | programming the memory protection unit, one region at a time and through the alias window |
| `Heap` | `_sbrk` |
| `Clock` | `SystemCoreClockUpdate` |
| `StackUsage`, `StackGate` | the stack-usage gate of the build: one report line, and the verdict |
| `Words`, `Crc`, `CrcPolynomial`, `CrcCheckValue` | the checksum of the storage layer, as a polynomial remainder, and its published check value |
| `StorageRecord`, `StorageDamage`, `Storage`, `StorageDevice` | the A/B record store in flash: record format, which damage is noticed, slot discipline, and the operations over a flash that fails |
| `MqttCodec`, `MqttStream`, `MqttCuts`, `MqttIngest` | MQTT 3.1.1 framing, what the client makes of a byte stream, which ways of arriving lose nothing, and the receive buffer that does it |

Code that updates registers, memory or fields in place is modelled by classes and methods with
loops; each method is tied to a function of the old state, and the theorems are about histories of
that function. Parameters stand for what the headers configure: the number of priority bits P
(1 to 8), the number of MPU regions and aliases, the linker symbols, the flash program unit.

## How the model reads the code

- A register whose single bits matter is a `Bits32`, a sequence of 32 bits with bit 0 first; `&`, `|`,
  `~`, `<<`, `>>` are defined bit by bit. Where only the value matters it is a bounded integer, and each
  operation is checked to stay in range. Unsigned wrap is written out wherever the code relies on it
  (`SubBits`, `SysTick.Config`, `NotOlder`, `Usat`). In `Clock` the masks are contiguous fields, so
  mask-and-shift is division followed by remainder; field positions are those of section 7.4 of RM0440.
- A negative interrupt number names a processor exception by its low four bits, which is the Euclidean
  remainder modulo 16. Priority grouping is section B1.5.4 and the interrupt controller section B3.4 of
  the Armv7-M Architecture Reference Manual (DDI 0403); the protection unit is sections B3.5.8 to B3.5.10.
- Naming a protection region the unit does not have is unpredictable in the architecture, so `Accepts`
  excludes it.
- `Startup` is one flat memory of words in which the tables lie too; the loops read a table row from
  memory again for every word, as the code does. `Runnable` says what the linker script must guarantee
  for that: rows in bounds, no destination over a table, no copy that overwrites words it has yet to read.
- `_sbrk` adds to a pointer. Addresses are mathematical integers, so pointer overflow is not modelled.
- In `StackGate` a file is the list of its lines without their newlines, or unreadable. A line holds no
  newline, so the pattern's `.` is any character.
- The flash of `StorageDevice` may fail at any operation. A failed erase
  leaves anything in its page, one that reports success leaves the page blank. A program operation may leave
  anything where it writes even when it reports success. Other pages keep their contents, and a read either
  fails or is true. A power
  loss is an operation that fails with nothing done after it, so every state a power loss can leave is
  the result of some failing call. A `reliable` flash is one that does not fail: it reads, erases, and
  stores whole program units over blank bytes. What a call must achieve is stated for it; what a call
  must never do is stated for every flash.
- `NetworkTransport_Receive` hands over as many bytes as it has, up to the number asked for
  (`Application/User/Network/Src/network_transport.c:322-340`), and so does `Parser.Fetch`. Its
  ring holds 256 bytes and each run adds at most 64 (`Application/User/Network/Inc/network_transport.h:105-106`), which is
  what `Feasible` demands of the pieces in which a stream arrives. The dispatcher is a parameter that may
  depend on the packets before.
- The receive buffer of the MQTT client is an array of its real size, and every store into it is checked
  to be inside. Where the code would store behind it the model stops in the state `Overrun`, and says
  nothing about what follows.

## Where code and documentation disagree

The model follows the code; each disagreement is a theorem.

- `docs/mqtt_client.md:138` calls reception "fully byte-stream safe". It is not: the header fetch takes
  up to five bytes, and dispatching a shorter packet empties the buffer (`MqttIngest.ShortFrameLost`
  has a PINGRESP lost after a PUBACK). `MqttStream.ByteStreamSafe` gives the exact condition on streams: one is
  safe however the transport delivers it if and only if every accepted packet with a byte behind it has at least five bytes.
  `MqttCuts.CutLosesNothing` gives it on arrivals: while each run keeps up, nothing is lost if and only if some
  arrival ends between the header and the end of each shorter packet.
- `docs/mqtt_client.md:120-128` says packets larger than `MQTT_MAX_PACKET_SIZE` are rejected. The check bounds
  the Remaining Length by that number, not the packet with its fixed header, and the receive buffer
  (`Application/User/Mqtt/Inc/mqtt_client.h:109`) has just that size: a packet of up to five more bytes is
  accepted and stored beyond it (`MqttIngest.LongSubackOverruns`). `MqttStream.PacketFitsExactly` and
  `MqttStream.BufferSafe` say exactly when every store stays inside.
- The Remaining Length of an encoded SUBSCRIBE leaves out the two bytes of the topic length
  (`MqttCodec.SubscribeLengthIsShort`), although section 3.8 of MQTT 3.1.1 counts them. The capacity check
  leaves out the same two bytes (`MqttCodec.SubscribeNeedsEight`).
- A PUBLISH with QoS 1 and packet identifier 0 is encoded but refused by the decoder
  (`MqttCodec.PublishRoundTrip`, `MqttCodec.IdentifierZeroRefused`).
- When the newer slot of a record cannot be read, `Storage_Read` returns the older record with status OK
  (`Storage.StaleRead`, and `Storage.ReadIsCurrent` for the exact condition); the comment at `storage.c:248-250` leaves
  the degradation to a separate health call.
- `sysmem.c:63` says the heap end is initialised at the first call. It is initialised whenever it is found null; releasing
  down to null makes the allocator start over (`Heap.InitialisedOnce`, `Heap.ReleaseToNullForgets`).
- A second `SystemCoreClockUpdate` with unchanged registers changes the result when the clock source
  is unrecognised and the AHB prescaler divides (`Clock.UpdateTwice`, `Clock.UpdateTwiceHalves`).
- `ARM_MPU_SetRegionEx` ignores its region argument when the RBAR value names another region
  (`Mpu.SetRegionExTarget`, `Mpu.SetRegionExElsewhere`).
- A `.su` row whose path itself ends in something like a position is read back wrongly
  (`StackUsage.RoundTrip`, `StackUsage.PathWithPosition`); no colon before a digit is enough to be safe, but not needed.

## Model

| member | source | states |
|---|---|---|
| Bits.ShrValue | Drivers/CMSIS/Include/core_armv8mbl.h:1534-1535 | shifting a register right by n is the quotient of its number by 2^n |
| Bits.ShlValue | Drivers/CMSIS/Include/core_armv8mbl.h:1508 | shifting it left by n is the number modulo 2^(32-n), times 2^n |
| Priority.FieldsShareBits | Drivers/CMSIS/Include/core_armv8mbl.h:1505-1506 | preemption and subpriority bits add up to P for every group, in spite of the wrapping subtraction |
| Priority.EncodeLayout | Drivers/CMSIS/Include/core_armv8mbl.h:1498-1512 | the encoded word is, bit for bit, the subpriority field, above it the preemption field, above that zeros |
| Priority.EncodeValue | Drivers/CMSIS/Include/core_armv8mbl.h:1498-1512 | as a number it is (p mod 2^pre) * 2^sub + (s mod 2^sub) |
| Priority.DecodeEncode | Drivers/CMSIS/Include/core_armv8mbl.h:1498-1536 | decoding an encoded pair gives each field modulo the bits it has |
| Priority.RoundTrip | Drivers/CMSIS/Include/core_armv8mbl.h:1498-1536 | decoding returns the very pair if and only if both fields are in range |
| Priority.EncodeDecode | Drivers/CMSIS/Include/core_armv8mbl.h:1498-1536 | encoding a decoded priority keeps it modulo 2^P, for every group |
| Priority.EncodeFits | Drivers/CMSIS/Include/core_armv8mbl.h:1507-1510 | an encoded priority is below 2^P |
| Priority.EncodeOrdered | Drivers/CMSIS/Include/core_armv8mbl.h:1498-1512 | on in-range fields the encoded order is the lexicographic order, in both directions |
| NvicPriority.InsertBytes | Drivers/CMSIS/Include/core_armv8mbl.h:1453-1460 | the read-modify-write replaces one byte of a register and leaves the other three |
| NvicPriority.UnpackInsert | Drivers/CMSIS/Include/core_armv8mbl.h:1239-1241 | shift and index macros address exactly byte n of the unpacked registers |
| NvicPriority.SlotsDistinct | Drivers/CMSIS/Include/core_armv8mbl.h:1239-1241 | two interrupt numbers share a stored priority exactly when they are equal, or both negative with the same low four bits |
| NvicPriority.PriorityByteValue | Drivers/CMSIS/Include/core_armv8mbl.h:1453-1460 | the stored byte is the number (priority mod 2^P) * 2^(8-P) |
| NvicPriority.BinaryPoint | Drivers/CMSIS/Include/core_armv8mbl.h:1498-1512 | in the stored byte of a grouped priority, the implemented bits above bit g are those of the preemption priority, the ones up to it those of the subpriority, the rest is zero |
| NvicPriority.WordNvic.SetPriority | Drivers/CMSIS/Include/core_armv8mbl.h:1449-1462 | the packed store changes the one byte of that interrupt, to the scaled priority |
| NvicPriority.WordNvic.GetPriority | Drivers/CMSIS/Include/core_armv8mbl.h:1473-1484 | the answer is that interrupt's byte, scaled back |
| NvicPriority.ByteNvic.SetPriority | Drivers/CMSIS/Include/core_armv8mml.h:2249-2259 | the byte store does the same, including the exceptions 4 to 7 that only it has |
| NvicPriority.ByteNvic.GetPriority | Drivers/CMSIS/Include/core_armv8mml.h:2271-2282 | the byte store answers from that byte |
| NvicPriority.Lockstep | Drivers/CMSIS/Include/core_armv8mbl.h:1449-1484 | driven by any common history from equal contents, packed and byte store give the same answers and stay equal |
| NvicPriority.OneMoreCall | Drivers/CMSIS/Include/core_armv8mml.h:2249-2282 | a history one call longer steps the store once and adds a Get's answer |
| NvicPriority.Untouched | Drivers/CMSIS/Include/core_armv8mml.h:2249-2259 | calls on other interrupts never change a priority, over any history |
| NvicPriority.LastSetWins | Drivers/CMSIS/Include/core_armv8mml.h:2249-2282 | in any history, a priority reads back as the value last set, modulo 2^P |
| NvicPriority.GroupedPriorityKept | Drivers/CMSIS/Include/core_armv8mbl.h:1449-1536 | a pair encoded, stored, followed by any traffic on other interrupts, read and decoded is the pair itself exactly when it was in range |
| SysTickTimer.SysTick.Config | Drivers/CMSIS/Include/core_armv8mbl.h:1862-1876 | succeeds exactly for 1 to 2^24 ticks; a failure changes nothing; success sets LOAD to ticks - 1, SysTick's priority to 2^P - 1 and no other priority |
| SysTickTimer.LowestUrgency | Drivers/CMSIS/Include/core_armv8mbl.h:1869-1870 | no priority that can be stored is less urgent than the one SysTick gets |
| InterruptSets.SetOne | Drivers/CMSIS/Include/core_armv8mbl.h:1252-1260 | the written mask adds that interrupt to the set and no other |
| InterruptSets.ClearOne | Drivers/CMSIS/Include/core_armv8mbl.h:1290-1298 | the written mask removes that interrupt and no other |
| InterruptSets.TestOne | Drivers/CMSIS/Include/core_armv8mbl.h:1271-1281 | the tested mask decides membership |
| InterruptSets.Nvic.EnableIRQ | Drivers/CMSIS/Include/core_armv8mbl.h:1252-1260 | both sets after the call: bit n mod 32 of register n / 32 is set for this interrupt, and no other bit changes; a negative number is a no-op |
| InterruptSets.Nvic.DisableIRQ | Drivers/CMSIS/Include/core_armv8mbl.h:1290-1298 | both sets after the call: bit n mod 32 of register n / 32 is cleared for this interrupt, and no other bit changes; a negative number is a no-op |
| InterruptSets.Nvic.SetPendingIRQ | Drivers/CMSIS/Include/core_armv8mbl.h:1328-1334 | both sets after the call: bit n mod 32 of register n / 32 is set for this interrupt, and no other bit changes; a negative number is a no-op |
| InterruptSets.Nvic.ClearPendingIRQ | Drivers/CMSIS/Include/core_armv8mbl.h:1343-1349 | both sets after the call: bit n mod 32 of register n / 32 is cleared for this interrupt, and no other bit changes; a negative number is a no-op |
| InterruptSets.Nvic.GetEnableIRQ | Drivers/CMSIS/Include/core_armv8mbl.h:1271-1281 | 1 exactly for the members of the enabled set, 0 for negative numbers |
| InterruptSets.Nvic.GetPendingIRQ | Drivers/CMSIS/Include/core_armv8mbl.h:1309-1319 | 1 exactly for the members of the pending set, 0 for negative numbers |
| InterruptSets.Nvic.Drive | Drivers/CMSIS/Include/core_armv8mbl.h:1252-1349 | any run of the four calls leaves the registers holding exactly the abstract sets |
| InterruptSets.LastCallDecides | Drivers/CMSIS/Include/core_armv8mbl.h:1252-1349 | after any run an interrupt is enabled or pending exactly as the last call about it left it |
| BitAlgorithms.RorCuts | Drivers/CMSIS/Include/cmsis_gcc.h:1021-1029 | rotating is cutting the word at the amount modulo 32 and exchanging the parts |
| BitAlgorithms.RorCompose | Drivers/CMSIS/Include/cmsis_armclang.h:902-910 | two rotations are one by the sum of the amounts modulo 32 |
| BitAlgorithms.RorUndo | Drivers/CMSIS/Include/cmsis_armclang.h:902-910 | rotating by 32 - a mod 32 undoes rotating by a |
| BitAlgorithms.Rev16SwapsHalfwords | Drivers/CMSIS/Include/cmsis_armclang.h:874-883 | REV followed by a rotation by 16 swaps the bytes of each halfword and is its own inverse |
| BitAlgorithms.RbitGcc | Drivers/CMSIS/Include/cmsis_gcc.h:1048-1069 | the loop mirrors the word for every input, and its shift counter never goes below zero |
| BitAlgorithms.RbitIar | Drivers/CMSIS/Include/cmsis_iccarm.h:540-551 | so does the other compiler's loop, with its 8-bit counter; hence the two agree |
| BitAlgorithms.ReverseStep | Drivers/CMSIS/Include/cmsis_gcc.h:1059-1065 | the invariant of both loops: what is reversed already, what is still to come, and that the counter is still positive |
| BitAlgorithms.ReverseDone | Drivers/CMSIS/Include/cmsis_gcc.h:1066 | the trailing shift completes the reversal |
| BitAlgorithms.MirrorTwice | Drivers/CMSIS/Include/cmsis_gcc.h:1048-1069 | bit reversal is its own inverse |
| BitAlgorithms.Clz | Drivers/CMSIS/Include/cmsis_iccarm.h:525-538 | the mask loop counts the zeros above the highest set bit, 32 for zero, and its mask never runs out |
| BitAlgorithms.LeadingZerosBounds | Drivers/CMSIS/Include/cmsis_iccarm.h:525-538 | a count c below 32 means 2^(31-c) <= v < 2^(32-c); 32 means v is zero |
| BitAlgorithms.ClzOfRbit | Drivers/CMSIS/Include/cmsis_iccarm.h:525-551 | leading zeros of the mirrored word are trailing zeros of the word |
| Saturation.SsatNearest | Drivers/CMSIS/Include/cmsis_gcc.h:1382-1398 | the result is in the signed n-bit range and no value in it is nearer to the argument |
| Saturation.UsatNearest | Drivers/CMSIS/Include/cmsis_gcc.h:1407-1422 | the same for the unsigned range |
| Saturation.SsatMonotone | Drivers/CMSIS/Include/cmsis_gcc.h:1382-1398 | monotone for every width, also those outside 1 to 32 |
| Saturation.UsatMonotone | Drivers/CMSIS/Include/cmsis_gcc.h:1407-1422 | monotone exactly for widths up to 31, or when both arguments have one sign |
| Saturation.SsatCompose | Drivers/CMSIS/Include/cmsis_gcc.h:1382-1398 | saturating twice is saturating to the narrower width |
| Startup.CopyOneRow | Drivers/CMSIS/Include/cmsis_gcc.h:152-154 | the inner loop leaves memory as one block copy of words read before it |
| Startup.ZeroOneRow | Drivers/CMSIS/Include/cmsis_gcc.h:158-160 | the inner loop clears exactly its block |
| Startup.CopySections | Drivers/CMSIS/Include/cmsis_gcc.h:151-155 | the copy loop over the table in memory performs its rows in order and leaves both tables intact |
| Startup.ZeroSections | Drivers/CMSIS/Include/cmsis_gcc.h:157-161 | the zero loop over the table in memory performs its rows |
| Startup.CmsisStart | Drivers/CMSIS/Include/cmsis_gcc.h:131-164 | both loops terminate, with memory as all rows leave it; when the destinations are disjoint, every word a copy row in memory names as destination holds the original word at that row's source, every word a zero row names is 0, and every other word is unchanged |
| Startup.BlitAllCopies | Drivers/CMSIS/Include/cmsis_gcc.h:151-155 | with disjoint rows each copied word is its source word from before all copies |
| Startup.StartupInitialises | Drivers/CMSIS/Include/cmsis_gcc.h:151-161 | after start-up every copied word equals its original source word, every zero-table word is 0, and every other word is unchanged |
| Startup.StartupInitialisesWords | Drivers/CMSIS/Include/cmsis_gcc.h:135-161 | the same from the table words themselves: source, destination and length of a copy row, destination and length of a zero row |
| Mpu.Unit.SetRegion | Drivers/CMSIS/Include/mpu_armv7.h:225-229 | the unit after programming one region through RBAR and RASR |
| Mpu.Unit.SetRegionEx | Drivers/CMSIS/Include/mpu_armv7.h:236-241 | the same after selecting a region first |
| Mpu.Unit.ClrRegion | Drivers/CMSIS/Include/mpu_armv7.h:215-219 | all attributes of that region are zero, its address and all others stay |
| Mpu.Unit.OrderedMemcpy | Drivers/CMSIS/Include/mpu_armv7.h:248-255 | stays inside the window of 2R words and has the effect of that burst |
| Mpu.Unit.Load | Drivers/CMSIS/Include/mpu_armv7.h:261-270 | for every table, count and number of aliases, the chunked load has the effect of programming the first count entries one at a time, with VALID or without |
| Mpu.BurstIsSetMany | Drivers/CMSIS/Include/mpu_armv7.h:248-255 | a burst into the aliases is a sequence of single-region updates |
| Mpu.BurstJoin | Drivers/CMSIS/Include/mpu_armv7.h:264-269 | consecutive bursts are one longer burst |
| Mpu.LaterEntriesWin | Drivers/CMSIS/Include/mpu_armv7.h:261-270 | when every entry names its region, each region ends as its last entry says, and unnamed regions are unchanged |
| Mpu.SetRegionExTarget | Drivers/CMSIS/Include/mpu_armv7.h:236-241 | the region argument is obeyed exactly when RBAR is not valid or names the same region |
| Mpu.SetRegionExElsewhere | Drivers/CMSIS/Include/mpu_armv7.h:236-241 | values with which a call for region 0 programs region 1 |
| Mpu.RbarFields | Drivers/CMSIS/Include/mpu_armv7.h:75-78 | `ARM_MPU_RBAR` names its region and the 32-byte aligned part of its address; an aligned address alone names no region |
| Heap.Allocator.Sbrk | Core/Src/sysmem.c:54-80 | one call, in the linker symbols: it starts at the break, or at `_end` when the break is null, fails exactly when that plus the increment is above `_estack` less the reserve and then moves nothing, else returns where it started; errno |
| Heap.Allocator.Serve | Core/Src/sysmem.c:54-80 | a whole history produces the specified outcomes and break |
| Heap.Conservation | Core/Src/sysmem.c:54-80 | after any history the break is the accepted increments plus `_end` once per initialisation |
| Heap.NeverIntoStack | Core/Src/sysmem.c:69-77 | no history moves the break past `_estack` less the stack reserve |
| Heap.Accounting | Core/Src/sysmem.c:54-80 | a history that stays at or above `_end` initialises once, and its break is `_end` plus the accepted increments, within the heap |
| Heap.InitialisedOnce | Core/Src/sysmem.c:63-67 | initialisation happens once exactly when no earlier call left the break at null |
| Heap.ReleaseToNullForgets | Core/Src/sysmem.c:63-67 | the history that initialises twice, in concrete numbers |
| Heap.FailureIsExact | Core/Src/sysmem.c:63-79 | over any history, a call fails exactly when its increment on top of `_end` (once per initialisation) and all increments accepted before would cross the reserve; a failed call leaves that sum as the break, a successful one returns it |
| Heap.BlocksDisjoint | Core/Src/sysmem.c:59-79 | with non-negative increments any two returned blocks are disjoint, in call order, and below the reserve |
| Heap.BlocksContiguous | Core/Src/sysmem.c:59-79 | a block begins where the previous one ended, whatever calls between them failed or asked for nothing |
| Heap.TakeThenRelease | Core/Src/sysmem.c:69-77 | taking n and giving it back restores the break exactly when taking did not leave it at null, save for one degenerate memory map |
| Clock.TableIsLogarithm | Core/Src/system_stm32g4xx.c:156 | each table entry is the logarithm of the divisor its field value stands for |
| Clock.ShiftIsDivision | Core/Src/system_stm32g4xx.c:267-271 | the final shift divides by the AHB prescaler |
| Clock.VcoFits | Core/Src/system_stm32g4xx.c:251-259 | the product fits 32 bits for every register content |
| Clock.Rcc.SystemCoreClockUpdate | Core/Src/system_stm32g4xx.c:230-272 | no step overflows, divides by zero or indexes outside the table for any register content; the result is the specified clock |
| Clock.UpdatedInNumbers | Core/Src/system_stm32g4xx.c:235-271 | for every content of both registers, reserved bits included, the result in numbers: 16 MHz, 24 MHz, input / (M+1) * N / (2 * (R+1)), or the clock before, divided by 1, 2, 4, 8, 16, 64, 128, 256 or 512 |
| Clock.StagedDivision | Core/Src/system_stm32g4xx.c:249-261 | two truncating divisions around a product stay within one output step plus n/r of the exact quotient |
| Clock.PllAccuracy | Core/Src/system_stm32g4xx.c:245-262 | the PLL clock c satisfies c <= src*N/(M*R) < c + N/R + 1 |
| Clock.UpdateTwice | Core/Src/system_stm32g4xx.c:230-272 | a repeated update changes nothing exactly when the source is known, the prescaler is 1, or the clock before was below the prescaler |
| Clock.UpdateTwiceHalves | Core/Src/system_stm32g4xx.c:264-271 | register contents and a clock for which every update halves the clock again |
| StackUsage.Leftmost | scripts/check_stack_usage.py:30 | the first place of a line from which the rest of the pattern matches |
| StackUsage.MatchRestComplete | scripts/check_stack_usage.py:30 | whatever the pattern can match at a place, the matcher without backtracking finds |
| StackUsage.MatchRestSound | scripts/check_stack_usage.py:30 | what that matcher finds, the pattern matches |
| StackUsage.ParseIsLazyMatch | scripts/check_stack_usage.py:30 | on every line the parser returns m if and only if m is the lazy match of the pattern |
| StackUsage.EarlierMatch | scripts/check_stack_usage.py:30 | the pattern matches inside the path of a printed row exactly at colons that look like a position |
| StackUsage.RoundTrip | scripts/check_stack_usage.py:41-52 | a printed row parses back to its path, function and bytes if and only if no colon of the path looks like a position |
| StackUsage.PathWithPosition | scripts/check_stack_usage.py:30 | a path that is read back wrongly in every row it stands in |
| StackUsage.PlainPathsAreSafe | scripts/check_stack_usage.py:49-50 | in particular when no colon of the path is followed by a digit |
| StackGate.IterRows | scripts/check_stack_usage.py:35-54 | the loops yield exactly the project-owned rows, in file and line order, skipping unreadable files |
| StackGate.SortedRowsSorts | scripts/check_stack_usage.py:66 | the sort is a descending permutation that keeps the order of rows of equal size |
| StackGate.RowsOfMembers | scripts/check_stack_usage.py:41-52 | a row is yielded exactly when some line of some readable file parses to it |
| StackGate.Gate | scripts/check_stack_usage.py:57-85 | the exit status is 2 without any measurement, 1 when some row exceeds the threshold, else 0, as a function of the set of lines alone, hence whatever the order of lines and files |
| StackGate.GateOneRow | scripts/check_stack_usage.py:30-85 | on characters: for a single printed row with an unambiguous path and the byte count n in decimal, leading zeros or not, the exit status is 2 when the path has no `Application/User` with either slash in it, else 1 if and only if n is above the threshold, else 0 |
| StackGate.DecimalOfNumeral | scripts/check_stack_usage.py:52 | the digits n / 10 and n % 10 of a number, after any zeros, are read as that number |
| StackGate.OwnedMeans | scripts/check_stack_usage.py:50 | a path is project-owned exactly when it contains the marker with either kind of slash |
| StackGate.RowTextIsPrint | scripts/check_stack_usage.py:30 | the characters of a row, separators and suffix spelled out |
| StackGate.AlikeMatchRest | scripts/check_stack_usage.py:30 | two lines that differ only in kinds of slashes match at the same places |
| StackGate.AlikeMeansSameSlashes | scripts/check_stack_usage.py:50 | two strings normalise alike if and only if they differ only in kinds of slashes |
| StackGate.SlashesDoNotMatter | scripts/check_stack_usage.py:49-51 | any two sets of lines that normalise to the same set get the same verdict, wherever in the lines the slashes are |
| Crc.StorageCrc32 | Application/User/Storage/Src/storage.c:5-20 | the loops compute the checksum of `CrcPolynomial.CrcIsRemainder` |
| CrcPolynomial.CrcIsRemainder | Application/User/Storage/Src/storage.c:5-20 | the checksum is the complement of the remainder, by long division of bit sequences, of the message polynomial times x^32, its first 32 coefficients complemented, modulo x^32 + x^26 + x^23 + x^22 + x^16 + x^12 + x^11 + x^10 + x^8 + x^7 + x^5 + x^4 + x^2 + x + 1 |
| CrcPolynomial.Division | Application/User/Storage/Src/storage.c:5-20 | and that remainder is one: every polynomial is the sum of a multiple of the generator and it |
| CrcPolynomial.PolynomialIsGenerator | Application/User/Storage/Src/storage.c:14 | bit i of the constant is set exactly when x^(31-i) is a term of the generator |
| CrcPolynomial.CrcDivides | Application/User/Storage/Src/storage.c:8-18 | from any initial register, the loop carries the division out one byte at a time |
| CrcCheckValue.CheckValue | Application/User/Storage/Src/storage.c:5-20 | the checksum of the ASCII digits 1 to 9 is 0xCBF43926 |
| Crc.RoundsLinear | Application/User/Storage/Src/storage.c:11-17 | rounds distribute over exclusive or |
| Crc.RoundsInjective | Application/User/Storage/Src/storage.c:11-17 | no two registers lead to the same register |
| Crc.WordAtOnce | Application/User/Storage/Src/storage.c:8-18 | up to four bytes act as one word mixed in at once |
| Crc.BurstDetected | Application/User/Storage/Src/storage.c:5-20 | data that differ only within four consecutive bytes have equal checksums if and only if they are equal |
| Crc.BitBurstDetected | Application/User/Storage/Src/storage.c:5-20 | the same for data that differ only within 32 consecutive bits, at any bit offset |
| Crc.CrcDifference | Application/User/Storage/Src/storage.c:8-18 | how far two registers end up apart depends only on how far apart they and the data were |
| Crc.AnyChecksumReachable | Application/User/Storage/Src/storage.c:8-18 | from any register four bytes lead to any other |
| StorageRecord.RecordReadsBack | Application/User/Storage/Src/storage.c:139-195 | a page that begins with a written record is classified valid, with that sequence number and payload |
| StorageRecord.RecordBytes | Application/User/Storage/Src/storage.c:389-411 | the bytes of a record: the letters CMSR, version 1 and size little-endian, the type, a zero, the sequence number little-endian, four zeros, the checksum of itself with that field zeroed, the payload |
| StorageRecord.ClassifiedValid | Application/User/Storage/Src/storage.c:139-195 | on bytes: a slot is valid exactly when these are in place, the size is at most 256 and the checksum is right, it then holds that sequence number and payload; it is erased exactly when its first 22 bytes are 0xFF |
| StorageDamage.CheckedFieldChanged | Application/User/Storage/Src/storage.c:156-161 | every change to magic, version, type or a reserved field fails the header checks |
| StorageDamage.DamagedIsNotBlank | Application/User/Storage/Src/storage.c:143-154 | damage of up to four bytes never makes a record look erased |
| StorageDamage.ShortDamageUnnoticed | Application/User/Storage/Src/storage.c:143-182 | damage of up to four consecutive bytes anywhere in a valid record never makes it look erased, and leaves it valid if and only if the checked fields are intact and either the size field changed and the size relation holds, or the damage reaches over the checksum's end and the relation across it holds |
| StorageDamage.EdgeDamageUnnoticed | Application/User/Storage/Src/storage.c:163-182 | any damage to checksum and payload is unnoticed if and only if the damage to the one is the register's answer to the damage to the other |
| StorageDamage.SizeDamageUnnoticed | Application/User/Storage/Src/storage.c:156-182 | damage to the header that keeps the checked fields is unnoticed if and only if the payload bytes gained or lost make up in the register for the ripple of the header's change |
| StorageDamage.GrownByFour | Application/User/Storage/Src/storage.c:159-182 | a size grown by four yields a valid, longer record for exactly one content of the four bytes behind the record |
| StorageRecord.AcceptedIsNotBlank | Application/User/Storage/Src/storage.c:143-161 | no record passes for an erased slot |
| Storage.SuccessorIsNewer | Application/User/Storage/Src/storage.c:443-444 | the next sequence number is strictly newer, across the wrap-around that skips 0 |
| Storage.NotOlderMeans | Application/User/Storage/Src/storage.c:213-217 | a sequence number is not older than another exactly when it lies less than 2^31 steps after it |
| Storage.ReadPolicyMatrix | Application/User/Storage/Src/storage.c:228-275 | which pairs of slot states give which result, in both directions, and which slot's payload is returned |
| Storage.TruthfulRead | Application/User/Storage/Src/storage.c:225-275 | what a read returns for every way in which the flash may fail it |
| Storage.ReadIsCurrent | Application/User/Storage/Src/storage.c:225-275 | a read returns the current record if and only if its slot could be read or the other slot holds the same payload |
| Storage.StaleRead | Application/User/Storage/Src/storage.c:265-266 | the pair of records of which the older is returned when the newer cannot be read |
| Storage.CompletedWriteIsRead | Application/User/Storage/Src/storage.c:426-451 | a completed write is what the next read returns |
| Storage.WriteSparesCurrent | Application/User/Storage/Src/storage.c:310-361 | the slot chosen for writing is never the one the current record is read from |
| Storage.WriteRefusals | Application/User/Storage/Src/storage.c:310-361 | a write is refused exactly when a slot could not be read, or no slot is valid and one is corrupt |
| Storage.WriteLands | Application/User/Storage/Src/storage.c:426-451 | what a completed write leaves: sequence 1 in slot A of an erased pair, else the successor of the current sequence in the other slot; the current slot stays |
| Storage.InterruptedWrite | Application/User/Storage/Src/storage.c:446-450 | an interrupted write leaves the old record readable exactly unless what it left passes for a newer record with other contents |
| Storage.RepairKeepsReading | Application/User/Storage/Src/storage.c:458-510 | a repair keeps what is read exactly unless it is interrupted and what it left passes for a newer record with other contents; a completed one leaves two valid copies |
| Storage.RunReads | Application/User/Storage/Src/storage.c:219-510 | after any run of writes and repairs, whatever its interruptions leave, what is read is the outcome of its calls one after the other: stored data, an overtaking torn copy, or what was read before |
| Storage.RunKeepsLastRecord | Application/User/Storage/Src/storage.c:219-510 | throughout a run the record read is the last one written in full if and only if no interruption leaves a slot that passes for a newer record with foreign contents |
| Storage.ReadsOfRun | Application/User/Storage/Src/storage.c:219-510 | a read in the middle of any run returns the current record if and only if it saw the current slot or an equal copy |
| Storage.AlwaysReadable | Application/User/Storage/Src/storage.c:219-510 | once some record is readable, no run makes the pair unreadable, whatever interruptions leave behind |
| StorageDevice.SlotPagesDistinct | Application/User/Storage/Src/storage.c:36-46 | no two slots of any record types share a page |
| StorageDevice.SlotPagesInOrder | Application/User/Storage/Src/storage.c:34-46 | the pairs lie on consecutive pages from page 0 on, in the order of the types |
| StorageDevice.Store.ReadSlot | Application/User/Storage/Src/storage.c:126-196 | the report is a flash failure or the true classification of the page |
| StorageDevice.Store.Read | Application/User/Storage/Src/storage.c:219-276 | the result is the policy applied to two truthful reports; on a flash that does not fail it is what the pair holds |
| StorageDevice.Store.FillRecord | Application/User/Storage/Src/storage.c:397-411 | overwriting the buffer field by field, with the checksum taken of its own zeroed state, leaves the specified record and touches nothing behind it |
| StorageDevice.Store.BuildRecord | Application/User/Storage/Src/storage.c:389-411 | every page that starts with the built buffer is classified valid with this payload and sequence number; the padding is erased |
| StorageDevice.Store.WriteProgramRecord | Application/User/Storage/Src/storage.c:367-424 | success means that the page holds the record, even on a flash whose program operation lies; over a blank page a flash that does not fail succeeds; no other page changes |
| StorageDevice.Store.WriteEx | Application/User/Storage/Src/storage.c:426-451 | whatever fails, the pair of slots is what one landing of the specified write leaves; refused as unsafe exactly when a slot was not read, or neither is valid and one is corrupt, and then nothing changes; success leaves sequence 1 in slot A of an erased pair, else the next sequence number and the data beside an unchanged current slot, and a flash that does not fail succeeds on every readable or erased pair; other record types are untouched |
| StorageDevice.Store.EnsureRedundancy | Application/User/Storage/Src/storage.c:458-510 | the same for a repair; unless both slots were read and exactly one is valid, nothing is erased; success leaves the valid slot as it was and beside it its payload with the next sequence number; a flash that does not fail succeeds exactly with one valid slot |
| StorageDevice.Store.RecoverCorruptRecord | Application/User/Storage/Src/storage.c:512-564 | the pair is erased exactly when both slots were read, neither is valid and some is corrupt; success leaves the new record with sequence 1 alone in slot A, and a flash that does not fail succeeds exactly then |
| StorageDevice.Store.Serve | Application/User/Storage/Src/storage.c:219-510 | any history of writes, repairs and reads on a failing flash is a run of the slot discipline, success means completion, and every read saw the truth or a failure; on a flash that does not fail, writes succeed exactly on readable or erased pairs, repairs exactly with one valid slot, and reads return what the pair holds |
| MqttCodec.ReadVarInt | Application/User/Mqtt/Src/mqtt_codec.c:12-37 | the loop decodes at most four bytes, asks for more, or rejects |
| MqttCodec.WriteVarInt | Application/User/Mqtt/Src/mqtt_codec.c:39-55 | the loop writes the base-128 digits, or nothing when they do not fit |
| MqttCodec.VarIntRoundTrip | Application/User/Mqtt/Src/mqtt_codec.c:12-55 | reading undoes writing on any stream exactly for the lengths that may be written |
| MqttCodec.WrittenHeader | Application/User/Mqtt/Src/mqtt_codec.c:57-107 | a written fixed header frames exactly the announced bytes |
| MqttCodec.VarIntOnBytes | Application/User/Mqtt/Src/mqtt_codec.c:12-37 | the decoded number, on the bytes: the low seven bits of up to four bytes as base-128 digits, ending with the first byte below 128 |
| MqttCodec.MalformedHeaders | Application/User/Mqtt/Src/mqtt_codec.c:57-89 | malformed exactly for packet types 0 and 15 and for four continued length bytes |
| MqttCodec.OversizedHeaders | Application/User/Mqtt/Src/mqtt_codec.c:80-82 | any length that can be written is too large exactly above 2304, and otherwise decoded |
| MqttCodec.PublishRoundTrip | Application/User/Mqtt/Src/mqtt_codec.c:146-301 | an encoded PUBLISH is one frame of the stream and decodes to what was encoded, unless QoS 1 was given identifier 0 |
| MqttCodec.EncodePublishExactly | Application/User/Mqtt/Src/mqtt_codec.c:146-179 | a PUBLISH is encoded exactly when its topic has 1 to 64 valid bytes, its payload at most 2048, QoS is 0 or 1 and it fits the buffer; and byte for byte as what |
| MqttCodec.DecodePublishExactly | Application/User/Mqtt/Src/mqtt_codec.c:257-301 | a body decodes to given parts exactly when it is the body of these parts, they are within the same limits, and the identifier is absent with QoS 0 and not 0 with QoS 1 |
| MqttCodec.IdentifierZeroRefused | Application/User/Mqtt/Src/mqtt_codec.c:280-288 | the bytes of an encoded PUBLISH that is refused |
| MqttCodec.SubscribeLengthIsShort | Application/User/Mqtt/Src/mqtt_codec.c:181-202 | every encoded SUBSCRIBE is two bytes longer than its header announces, and inside the caller's buffer exactly when there is room for two bytes more than the check asks for |
| MqttCodec.SubscribeNeedsEight | Application/User/Mqtt/Src/mqtt_codec.c:190-201 | a packet of eight bytes that passes the check for a buffer of six |
| MqttCodec.EncodeSubscribeExactly | Application/User/Mqtt/Src/mqtt_codec.c:181-202 | when a SUBSCRIBE is encoded, the capacity demanded included, and all its bytes |
| MqttStream.NothingLostExactly | Application/User/Mqtt/Src/mqtt_client.c:387-481 | a delivery takes only its own bytes exactly when the header was known before, or the packet has five bytes or more, or nothing follows it; else it takes five, or all that is pending |
| MqttStream.RunInStep | Application/User/Mqtt/Src/mqtt_client.c:383-484 | over every connection and every way of cutting its stream into arrivals all bytes are accounted for, and until one is dropped the packets delivered are the first frames of the stream |
| MqttStream.OversizedCloses | Application/User/Mqtt/Src/mqtt_client.c:428-440 | pending bytes that announce a length above 2304, whatever follows them, close the connection at the next call; nothing is delivered and nothing overruns |
| MqttStream.MalformedCloses | Application/User/Mqtt/Src/mqtt_client.c:428-440 | so does a malformed header |
| MqttStream.FourPerCall | Application/User/Mqtt/Src/mqtt_client.c:383-484 | of a stream of acceptable packets of five bytes or more that arrives at once, one call delivers four and keeps the rest |
| MqttStream.BytewiseLosesNothing | Application/User/Mqtt/Src/mqtt_client.c:383-484 | arriving byte by byte, any stream loses nothing |
| MqttStream.CutsAgree | Application/User/Mqtt/Src/mqtt_client.c:383-484 | whichever way a stream arrives, if nothing is lost and nothing is left to do, the packets, the state of the link and the bytes left are those of byte-by-byte arrival |
| MqttStream.ByteStreamSafe | Application/User/Mqtt/Src/mqtt_client.c:383-484 | no way in which the transport can deliver a stream, or its beginning, drops a byte if and only if every accepted frame that is followed by another byte has at least five bytes |
| MqttCuts.CutLosesNothing | Application/User/Mqtt/Src/mqtt_client.c:383-484 | while each run's four rounds keep up with what has arrived, nothing is lost if and only if some arrival ends between the decoded header and the end of every accepted frame below five bytes that is followed by another byte |
| MqttStream.BufferSafe | Application/User/Mqtt/Src/mqtt_client.c:445-463 | no way in which the transport can deliver a stream without losing a byte stores behind the receive buffer if and only if every frame that is reached fits it |
| MqttStream.PacketFitsExactly | Application/User/Mqtt/Src/mqtt_client.c:445-463 | whatever bytes of a packet arrive, every store is inside the receive buffer if and only if fixed header and body together fit |
| MqttStream.LongFrameOverruns | Application/User/Mqtt/Src/mqtt_client.c:445-463 | every stream with a reached frame that does not fit stores behind the buffer when it arrives byte by byte |
| MqttStream.FirstFrameOverruns | Application/User/Mqtt/Src/mqtt_client.c:445-463 | a stream whose first frame does not fit stores behind the buffer however it arrives |
| MqttStream.HeaderStable | Application/User/Mqtt/Src/mqtt_codec.c:57-89 | more bytes never change a decoded header |
| MqttStream.FiveBytesDecide | Application/User/Mqtt/Src/mqtt_codec.c:57-89 | five bytes always decide a header |
| MqttStream.FrameAlone | Application/User/Mqtt/Src/mqtt_codec.c:57-89 | a frame is decided by its own bytes |
| MqttStream.CutExtends | Application/User/Mqtt/Src/mqtt_client.c:383-484 | frames already complete stay the first frames, whatever arrives |
| MqttIngest.Parser.Fetch | Application/User/Network/Src/network_transport.c:322-340 | the bytes fetched are stored behind those in the buffer, and no byte of ring or buffer is lost |
| MqttIngest.Parser.TryParseHeader | Application/User/Mqtt/Src/mqtt_client.c:154-172 | the header fields after a parse; the cap on the scan never strikes |
| MqttIngest.Parser.IngestRound | Application/User/Mqtt/Src/mqtt_client.c:385-482 | one round on the real buffer does exactly what the specification says of the pending bytes, and stores inside the buffer unless the packet does not fit |
| MqttIngest.Parser.Ingest | Application/User/Mqtt/Src/mqtt_client.c:383-484 | a call is four rounds, its early returns notwithstanding; with a malformed or oversized header pending it closes the connection and delivers nothing |
| MqttIngest.Parser.Session | Application/User/Mqtt/Src/mqtt_client.c:383-484 | a whole connection, cut into any arrivals, is the specified run and stays in step with the stream |
| MqttIngest.Parser.RunOnce | Application/User/Network/Src/network_transport.c:183-212 | one run takes from the network the smallest of what is offered, 64, and 256 less what the ring holds, which is exactly what the specification lets arrive |
| MqttIngest.Parser.Connection | Application/User/Mqtt/Src/mqtt_client.c:569-697 | whatever the network offers, a connection over the bounded transport is a feasible way of arriving; while it is open each run takes its whole offer if one run can bring that much |
| MqttIngest.Parser.FeasibleSession | Application/User/Mqtt/Src/mqtt_client.c:569-697 | and every feasible way of arriving is one that it can produce |
| MqttIngest.ShortFrameLost | Application/User/Mqtt/Src/mqtt_client.c:344-405 | after CONNACK, a PUBACK and a PINGRESP that arrive together: the second is lost and the connection closes |
| MqttIngest.RepliesTogether | Application/User/Mqtt/Src/mqtt_client.c:383-484 | the parser fed those arrivals delivers two packets and closes the connection |
| MqttIngest.LongSubackOverruns | Application/User/Mqtt/Src/mqtt_client.c:445-463 | a SUBACK that passes the header check and does not fit the receive buffer by five bytes, in whatever pieces it arrives |

## Left out

- MqttIngest.Parser.Session: stops where the code would store behind its receive buffer, because what C does then is undefined.
- MqttCuts.CutLosesNothing: concerns arrivals with which every run keeps up; a run that leaves complete packets behind (a fetch of more than four) delays them, and where the arrivals end no longer tells.
- MqttStream.BufferSafe: says nothing of arrivals that lose a byte; the client then reads frames that are not in the stream, and `PacketFitsExactly` is what holds of each of those.
- How likely a torn record or other damage is to satisfy the relations under which it goes unnoticed is not estimated.
- BitAlgorithms.Rev16SwapsHalfwords: takes the byte swap `__REV`, a compiler built-in, as its definition.
- Mpu.Unit.Load: takes the register write semantics from DDI 0403; the barriers around enabling and disabling the unit are not part of this model.
- Heap.Accounting: for histories that go below `_end` only `Conservation` and `NeverIntoStack` are stated.
- Inline-assembly intrinsics, barriers, exclusive accesses and SIMD wrappers are single opaque instructions.
- Further copies of the same algorithms in other CMSIS headers, the TrustZone variants and the security attribution unit repeat what is modelled.
- `NVIC_SetPriorityGrouping`, `NVIC_GetActive`, vector table access and system reset are single register accesses.
- `Storage_Init`, `Storage_GetHealth` and formatting: geometry checks and reports over the same classification; the store is modelled once it is initialised, and null pointers are not modelled.
- UTF-8 and topic-filter validation is a parameter of the codec; CONNECT, CONNACK, PUBACK, SUBACK and PINGREQ have fixed layouts.
- The client's connection states, keep-alive, timeouts and sending are not modelled; neither are the rest of the transport, the scheduler, the drivers, the HAL and the interrupt handlers.
- Of the gate script: argument parsing, printing, an error in the middle of reading a file, and digits outside ASCII.
- The call of `_start`, `SystemInit` and the C library's use of `_sbrk`.
