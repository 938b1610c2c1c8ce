# Verified model of the cFE platform support package

A Dafny model of the parts of the platform support package (PSP) that keep state between calls or
do non-trivial arithmetic, with proofs of what they promise. `dafny verify dfyconfig.toml` checks it.

| module | models |
|---|---|
| `Bits` | machine words: wrap-around, masks, shifts, and the number theory behind them |
| `ExceptionRing`, `ExceptionProtocol`, `ExceptionSafety`, `ExceptionIds` | the exception log: a ring of 2^k slots with free-running 32-bit counters, filled by a signal handler and drained by the application |
| `CpuLine`, `Schedstat`, `SchedstatLoads` | the CPU load monitor: reading /proc/schedstat in arbitrary pieces, parsing it, load arithmetic |
| `Timebase` | the VxWorks timebase: fraction reduction at startup and tick conversion |
| `Eeprom` | EEPROM writes by read-modify-write, against plain stores |
| `ResetPolicy`, `ResetRuns`, `Mcp750` | boots, restarts and crashes, the boot record, and the critical data store (CDS) |
| `MemoryLayout` | the two ways of laying out reserved memory |
| `IoDriver` | device locks and concurrent driver commands |
| `MemRange`, `PspModules` | memory range validation; module IDs and lookup |

Objects the C code updates in place are classes whose methods are proved against functions on
values; the theorems about whole runs are lemmas about those functions.

Word widths are explicit: counters, IDs and sizes that are `uint32` wrap at 2^32, timebase products
at 2^64, and addresses at 2^32 where the code stores them in 32 bits.

## What the proofs show that the code's comments do not

- **Exception log.** In every interleaving of one handler and one application the log is a FIFO of
  2^k entries, through any number of counter wraps. A copy by ID that up to n handler runs may
  interrupt is reliable if and only if n runs cannot claim its slot again (`CopyIntactIff`): an unread
  entry withstands any number, an entry that has been read at least one, for every k; the bad case is
  reached from power-on (`ReportedEntryReplaced`). When the ring is full the oldest entry is still
  delivered, but with ID 0 (`SummaryIsSteps`). An application that preempts a handler can be handed an
  entry that is not committed yet (`AcceptedBeforeCommit`). With a single slot no ID is ever accepted
  between handler runs (`SingleSlotAcceptsNone`).
- **CPU load.** The lines processed depend on the file alone. The 32-bit product wraps from 2^20 busy
  milliseconds on, and from there the load is never the exact fraction (`LoadExactIff`), though it
  still fits in 24 bits. The branch for `elapsed_ms == 0` cannot be reached.
- **Timebase.** The reported time is exact if and only if the 64-bit product does not overflow.
- **EEPROM.** The address of the read-modify-write is kept in 32 bits, so 8- and 16-bit writes above
  4 GiB go to the address modulo 2^32; the two EEPROM drivers agree on every value exactly at aligned
  addresses that are, for 8 and 16 bits, below that (`AgreeIffPortable`).
- **Reset policy.** Over whole runs, pc-linux and MCP750 give the same boots exactly when directed
  restarts ask for PROCESSOR or POWERON (`SameBootsIff`); for any other type MCP750 boots PROCESSOR and
  pc-linux POWERON. The CDS holds what was written since the latest POWERON boot if and only if no
  PROCESSOR boot follows an ending that deletes the store (`PromisedIff`), which without -R means that no
  process dies at one of a few steps of a power-on restart (`NeverEmptiedIff`, `LosesStore`);
  `CutShortRestartLosesStore` is such a run.
- **CDS range check.** The 32-bit sum wraps; the check is right exactly when it does not
  (`AcceptedExact`).
- **Layouts.** Rounding addresses and rounding sizes give the same layout exactly from an aligned base.
  The FreeRTOS size check compares an `unsigned int` and is right unless that truncation wraps.
- **Memory table.** An entry that was never set counts as a type-0 entry covering every address.

## Model

| member | source | states |
|---|---|---|
| ExceptionRing.Layout.Slot | fsw/shared/src/cfe_psp_exceptionstorage.c:79-82 | masking a sequence number selects its slot: the number modulo the ring size |
| ExceptionRing.ExceptionStorage.constructor | fsw/pc-linux/src/cfe_psp_memory.c:646-648 | storage after power-on initialization: empty, no ID anywhere |
| ExceptionRing.ExceptionStorage.Reset | fsw/shared/src/cfe_psp_exceptionstorage.c:69-73 | discards all unread entries and changes nothing else |
| ExceptionRing.ExceptionStorage.GetNextContextBuffer | fsw/shared/src/cfe_psp_exceptionstorage.c:88-106 | refused, with nothing changed, exactly when full; otherwise the next slot is cleared and tagged |
| ExceptionRing.ExceptionStorage.WriteComplete | fsw/shared/src/cfe_psp_exceptionstorage.c:112-133 | commits, then expires the slot after the committed one |
| ExceptionRing.ExceptionStorage.SigHandler | fsw/pc-linux/src/cfe_psp_exception.c:67-110 | a handler run as the composition of its stores in program order, or nothing when full |
| ExceptionRing.ExceptionStorage.GetCount | fsw/shared/src/cfe_psp_exceptionstorage.c:146-150 | the wrapped difference of the counters, which CountIsLength shows is the queue's length |
| ExceptionRing.ExceptionStorage.GetSummary | fsw/shared/src/cfe_psp_exceptionstorage.c:158-215 | refused when empty; otherwise reports and pops the oldest entry, with 0 or "" for what cannot be looked up |
| ExceptionRing.ExceptionStorage.CopyContext | fsw/shared/src/cfe_psp_exceptionstorage.c:223-266 | refuses an ID out of range or expired; otherwise copies and counts the stored bytes up to the buffer's size |
| ExceptionProtocol.SlotOfWrapped | fsw/shared/src/cfe_psp_exceptionstorage.c:79-82 | the slot is that of the unwrapped count, however often the counter has wrapped |
| ExceptionProtocol.StoreFrame | fsw/shared/src/cfe_psp_exceptionstorage.c:98-103 | a store to one slot leaves every other entry of the window alone |
| ExceptionSafety.InitialInv | fsw/pc-linux/src/cfe_psp_memory.c:646-648 | zeroed storage satisfies the invariant |
| ExceptionSafety.CommittingKeepsSlots | fsw/shared/src/cfe_psp_exceptionstorage.c:117 | after the increment the next slot holds the oldest entry of the window |
| ExceptionSafety.ExpiringKeeps | fsw/shared/src/cfe_psp_exceptionstorage.c:129-132 | zeroing the next slot's ID leaves its payload and every other ID |
| ExceptionSafety.OldestEntry | fsw/shared/src/cfe_psp_exceptionstorage.c:171-179 | in every reachable state the oldest entry's payload is the committed one; its ID is true, or 0 exactly when the ring is full and already expired |
| ExceptionSafety.StepKeeps | fsw/shared/src/cfe_psp_exceptionstorage.c:69-215 | every store of the handler and every access of the application keeps the invariant |
| ExceptionSafety.RunKeeps | fsw/shared/src/cfe_psp_exceptionstorage.c:69-215 | so does every interleaving |
| ExceptionSafety.CountIsLength | fsw/shared/src/cfe_psp_exceptionstorage.c:146-150 | the count is the number of waiting entries and at most the ring size |
| ExceptionSafety.StepRefinesQueue | fsw/shared/src/cfe_psp_exceptionstorage.c:69-215 | each step is an enqueue, a dequeue of the head with its payload, a dropped prefix, or nothing; a raise is refused exactly when full |
| ExceptionSafety.ResetDropsPrefix | fsw/shared/src/cfe_psp_exceptionstorage.c:69-73 | the store of a reset drops exactly the entries up to the counter value it loaded |
| ExceptionSafety.ResetIsSteps | fsw/shared/src/cfe_psp_exceptionstorage.c:69-73 | the Reset method's effect is its load and its store in a row: the queue is empty afterwards |
| ExceptionSafety.InterruptedReset | fsw/shared/src/cfe_psp_exceptionstorage.c:69-73 | with any handler activity between the two, exactly what waited when the reset started is dropped, and what is committed meanwhile stays |
| ExceptionSafety.RunIsQueue | fsw/shared/src/cfe_psp_exceptionstorage.c:88-215 | over every interleaving from power-on: bounded, departures match commits position by position, and without resets delivered plus waiting equals committed |
| ExceptionSafety.HistoryGrows | fsw/shared/src/cfe_psp_exceptionstorage.c:88-215 | what was committed or delivered is never rewritten |
| ExceptionSafety.HandlerRunIsSteps | fsw/pc-linux/src/cfe_psp_exception.c:87-103 | the SigHandler method's effect is its seven stores taken in a row |
| ExceptionIds.HandlerWrites | fsw/pc-linux/src/cfe_psp_exception.c:87-103 | everything a handler run leaves: its slot in full, with zeros after the context, the next slot's ID 0, and no other change |
| ExceptionSafety.SummaryIsSteps | fsw/shared/src/cfe_psp_exceptionstorage.c:158-215 | GetSummary is its accesses in a row; it pops the queue's head and reports its true ID, or 0 exactly for a full ring |
| ExceptionIds.IdMeaning | fsw/shared/src/cfe_psp_exceptionstorage.c:103 | the ID of write i is the base plus i modulo the index range, and never 0 |
| ExceptionIds.SameId | fsw/shared/src/cfe_psp_exceptionstorage.c:103 | two writes share an ID exactly when they are a multiple of the index range apart |
| ExceptionIds.IdSelectsSlot | fsw/shared/src/cfe_psp_exceptionstorage.c:229-236 | the truncated ID selects the slot that the full sequence number selects |
| ExceptionIds.FoundExactly | fsw/shared/src/cfe_psp_exceptionstorage.c:229-241 | in every reachable state, also inside a handler, an ID is accepted exactly when it belongs to a tagged write |
| ExceptionIds.ZeroNeverFound | fsw/shared/src/cfe_psp_exceptionstorage.c:229-241 | ID 0 is never accepted |
| ExceptionIds.FreshIdAccepted | fsw/shared/src/cfe_psp_exceptionstorage.c:229-241 | a fresh ID is accepted and gives that write's data |
| ExceptionIds.StaleIdRefused | fsw/shared/src/cfe_psp_exceptionstorage.c:119-132 | from the ring size on, until it is reissued, an ID is refused |
| ExceptionIds.AcceptedWhileFresh | fsw/shared/src/cfe_psp_exceptionstorage.c:119-132 | between handler runs an ID is accepted exactly while fewer than ring-size writes follow from it |
| ExceptionIds.SingleSlotAcceptsNone | fsw/shared/src/cfe_psp_exceptionstorage.c:129-132 | with a single slot no ID is accepted between handler runs |
| ExceptionIds.ReissuedIdAccepted | fsw/shared/src/cfe_psp_exceptionstorage.c:103 | one index range later the same ID is accepted and stands for the newer write |
| ExceptionIds.AcceptedBeforeCommit | fsw/shared/src/cfe_psp_exceptionstorage.c:102-103 | a run in which an ID is accepted although nothing is committed |
| ExceptionIds.CopyBytesIntact | fsw/shared/src/cfe_psp_exceptionstorage.c:259 | bytes copied with handler runs between any of them are the committed bytes, as long as those runs cannot claim the slot again; runs that a full ring turns away do not count |
| ExceptionIds.CopyIntact | fsw/shared/src/cfe_psp_exceptionstorage.c:223-266 | the same for the whole call, including runs around the two loads of the size |
| ExceptionIds.UnreadCopyIntact | fsw/shared/src/cfe_psp_exceptionstorage.c:93-97 | an accepted entry that has not been read yet is copied intact under any number of handler runs |
| ExceptionIds.OneInterruptionIsHarmless | fsw/shared/src/cfe_psp_exceptionstorage.c:119-132 | a copy interrupted by at most one handler run, of any ID, returns only bytes committed under that ID, or refuses |
| ExceptionIds.NewestReplaces | fsw/shared/src/cfe_psp_exceptionstorage.c:119-132 | once enough handlers have run for the slot to be claimed again, the copy returns the newest write's bytes |
| ExceptionIds.CopyIntactIff | fsw/shared/src/cfe_psp_exceptionstorage.c:119-132 | for every accepted write and every n: all copies interrupted by at most n handler runs, at any points and with any contexts, return the committed bytes if and only if n runs cannot claim the slot again |
| ExceptionIds.ReportedEntryReplaced | fsw/shared/src/cfe_psp_exceptionstorage.c:88-266 | in a run from power-on, the copy of an entry already reported withstands n handler runs exactly for n below the ring size |
| ExceptionIds.UninterruptedCopy | fsw/shared/src/cfe_psp_exceptionstorage.c:223-266 | with no interruption the byte-by-byte copy is what CopyContext returns |
| ExceptionIds.TornCopy | fsw/shared/src/cfe_psp_exceptionstorage.c:259 | handlers that run before byte k of a copy leave it torn at exactly that byte |
| ExceptionIds.SizeLoads | fsw/shared/src/cfe_psp_exceptionstorage.c:245-257 | the size is loaded a second time exactly when the buffer is large enough for the first, and handlers in between change the size used |
| CpuLine.PassSpaces | fsw/modules/linux_sysmon/linux_sysmon.c:129-132 | skips exactly the leading white space |
| CpuLine.ReadCpuuseLine | fsw/modules/linux_sysmon/linux_sysmon.c:120-156 | the loop stays in the line and computes the parse of at most ten fields |
| CpuLine.ParseStopsAtNul | fsw/modules/linux_sysmon/linux_sysmon.c:120-156 | nothing after the terminating NUL influences the parse |
| CpuLine.StrtoulValue | fsw/modules/linux_sysmon/linux_sysmon.c:133 | white space, sign and digits are taken whole; the value is negated modulo 2^64 after a minus sign and clamped |
| CpuLine.StrtoulNone | fsw/modules/linux_sysmon/linux_sysmon.c:134-138 | without a digit no number is found |
| CpuLine.ParsePrinted | fsw/modules/linux_sysmon/linux_sysmon.c:126-155 | printed numbers are read back one by one, up to the first text that is no number |
| CpuLine.NumbersRead | fsw/modules/linux_sysmon/linux_sysmon.c:142-154 | of one to ten numbers, whatever text follows, the first gives the CPU number modulo 2^32 and the eighth the run time, which stays as it was without one |
| CpuLine.PrintedLineRoundTrip | fsw/modules/linux_sysmon/linux_sysmon.c:120-156 | a printed line of ten numbers gives back the CPU number and the seventh statistic |
| CpuLine.LoadValue | fsw/modules/linux_sysmon/linux_sysmon.c:219-231 | every load: 0xFFFFFF for a CPU busy all the interval, otherwise the quotient of the wrapped product, repeated in both halves |
| CpuLine.LoadFits | fsw/modules/linux_sysmon/linux_sysmon.c:219-231 | a load is within 24 bits for all inputs, also where the product wraps |
| CpuLine.LoadExactIff | fsw/modules/linux_sysmon/linux_sysmon.c:229-230 | it is the exact 12-bit fraction, doubled, if and only if fewer than 2^20 milliseconds were busy |
| Schedstat.LinesUnique | fsw/modules/linux_sysmon/linux_sysmon.c:171-258 | there is one way only to cut a file into short lines and a rest without a further one |
| Schedstat.LinesCut | fsw/modules/linux_sysmon/linux_sysmon.c:171-258 | and that cut always exists |
| Schedstat.LineLimit | fsw/modules/linux_sysmon/linux_sysmon.c:252-257 | a line of up to 255 characters is taken, and the first longer one ends the file |
| Schedstat.File.Read | fsw/modules/linux_sysmon/linux_sysmon.c:176 | a read returns any nonempty piece that fits, or nothing at the end or on an error |
| Schedstat.MemChr | fsw/modules/linux_sysmon/linux_sysmon.c:184 | finds the first newline, if there is one |
| Schedstat.MoveDown | fsw/modules/linux_sysmon/linux_sysmon.c:241 | the overlapping move keeps the bytes |
| Schedstat.LineInBuffer | fsw/modules/linux_sysmon/linux_sysmon.c:192-199 | treating the C string in the reused buffer is treating the line |
| Schedstat.CpuLoadState.Account | fsw/modules/linux_sysmon/linux_sysmon.c:201-234 | updates exactly the entry of a CPU in range, and the highest number seen |
| Schedstat.CpuLoadState.TakeLine | fsw/modules/linux_sysmon/linux_sysmon.c:192-235 | the effect of one line on the per-core table |
| Schedstat.CpuLoadState.TakeFirstLine | fsw/modules/linux_sysmon/linux_sysmon.c:189-247 | treats the first line and leaves exactly the rest at the start of the buffer |
| Schedstat.CpuLoadState.TakeLines | fsw/modules/linux_sysmon/linux_sysmon.c:187-250 | the inner loop takes all complete lines, once and in order, and ends |
| Schedstat.CpuLoadState.ReadChunk | fsw/modules/linux_sysmon/linux_sysmon.c:176-185 | stays in the buffer; searching the new bytes finds the buffer's first newline |
| Schedstat.CpuLoadState.ReadLines | fsw/modules/linux_sysmon/linux_sysmon.c:171-257 | however reads split the file, the table is a fold over the lines up to the first of 256 characters or more |
| Schedstat.CpuLoadState.UpdateSchedstat | fsw/modules/linux_sysmon/linux_sysmon.c:158-260 | the same for the whole call, with the CPU count |
| SchedstatLoads.LineOnCore | fsw/modules/linux_sysmon/linux_sysmon.c:192-235 | a line changes the CPU it mentions and no other |
| SchedstatLoads.PassOnCore | fsw/modules/linux_sysmon/linux_sysmon.c:171-258 | after a pass over any file each CPU's entry is the fold of the run times reported for it, and unchanged if there are none |
| SchedstatLoads.LastRunTimeCounts | fsw/modules/linux_sysmon/linux_sysmon.c:216-231 | of these the last is kept, and the load is for the time since the one before it, or since the previous pass |
| SchedstatLoads.PassStoresLoad | fsw/modules/linux_sysmon/linux_sysmon.c:216-231 | after a pass over any file, a reported CPU has its last run time and, for the time since the one before, 0xFFFFFF if it was busy all the interval, and otherwise the exact fraction below 2^20 ms and that of the wrapped product above |
| SchedstatLoads.UnreportedKept | fsw/modules/linux_sysmon/linux_sysmon.c:201-214 | a CPU that the file does not report keeps its entry |
| SchedstatLoads.CpuLineUpdates | fsw/modules/linux_sysmon/linux_sysmon.c:192-214 | which CPU, below 128, and which run time a "cpu" line of one to ten numbers reports |
| SchedstatLoads.OtherLineIgnored | fsw/modules/linux_sysmon/linux_sysmon.c:192-214 | every other line, and a "cpu" line without a number, changes nothing |
| SchedstatLoads.PassCountCovers | fsw/modules/linux_sysmon/linux_sysmon.c:204-207 | the CPU count covers every CPU mentioned |
| SchedstatLoads.PassCountReached | fsw/modules/linux_sysmon/linux_sysmon.c:204-207 | and the highest number is that of some line |
| SchedstatLoads.PassInRange | fsw/modules/linux_sysmon/linux_sysmon.c:219-231 | loads stay within 24 bits through any pass |
| SchedstatLoads.PrintedLineUpdates | fsw/modules/linux_sysmon/linux_sysmon.c:192-235 | the line the kernel prints for a CPU is accounted to that CPU |
| SchedstatLoads.CalcAggregateCpu | fsw/modules/linux_sysmon/linux_sysmon.c:384-407 | fails exactly without CPUs; otherwise the average, with no wrap of sum or counter |
| SchedstatLoads.SumSplits | fsw/modules/linux_sysmon/linux_sysmon.c:389-393 | the sum that is averaged counts every CPU once |
| SchedstatLoads.SumOfOne | fsw/modules/linux_sysmon/linux_sysmon.c:389-393 | with its load |
| SchedstatLoads.AggregateBetween | fsw/modules/linux_sysmon/linux_sysmon.c:384-407 | the average lies between any bounds of the loads |
| Timebase.GcdIsCommon | fsw/modules/timebase_vxworks/cfe_psp_timebase_vxworks.c:104-111 | the reference greatest common divisor divides both numbers |
| Timebase.GcdIsGreatest | fsw/modules/timebase_vxworks/cfe_psp_timebase_vxworks.c:104-111 | every common divisor divides it |
| Timebase.NothingLeft | fsw/modules/timebase_vxworks/cfe_psp_timebase_vxworks.c:113 | when the loop ends, no common factor is left |
| Timebase.DivideOut | fsw/modules/timebase_vxworks/cfe_psp_timebase_vxworks.c:118-125 | an iteration that keeps the factor makes both numbers smaller, keeps the ratio, and revives no smaller factor |
| Timebase.NotCommon | fsw/modules/timebase_vxworks/cfe_psp_timebase_vxworks.c:127-133 | an iteration that advances the factor has excluded it, and never stands at two numbers equal to the factor |
| Timebase.TimebaseGlobal.Reduce | fsw/modules/timebase_vxworks/cfe_psp_timebase_vxworks.c:112-134 | for all nonzero 32-bit pairs the loop ends with the ratio divided by its greatest common divisor, coprime, and the factor never overflows; a pair with a zero is left alone |
| Timebase.TimebaseGlobal.Init | fsw/modules/timebase_vxworks/cfe_psp_timebase_vxworks.c:75-144 | stores the reduced ratio and the truncated ticks per second |
| Timebase.TimeAfterInit | fsw/modules/timebase_vxworks/cfe_psp_timebase_vxworks.c:75-220 | after Init, GetTime reports exactly the ticks times N/D in OSAL ticks, rounded down, if and only if ticks times the reduced numerator is below 2^64 |
| Timebase.ReportedSecond | fsw/modules/timebase_vxworks/cfe_psp_timebase_vxworks.c:152-155 | the ticks that GetTimerTicksPerSecond returns, given to GetTime, make at most a second, short by less than one period plus one tick |
| Timebase.SecondAfterInit | fsw/modules/timebase_vxworks/cfe_psp_timebase_vxworks.c:90-220 | the same from the configured period through Init |
| Timebase.TimebaseGlobal.GetTime | fsw/modules/timebase_vxworks/cfe_psp_timebase_vxworks.c:190-220 | shifting and or-ing joins the halves to one number; the product is taken modulo 2^64, the quotient rounded down |
| Timebase.ConvertExactIff | fsw/modules/timebase_vxworks/cfe_psp_timebase_vxworks.c:212-216 | the reduced ratio gives the exact rounded-down value of the unreduced one if and only if the product is below 2^64 |
| Timebase.ConvertMonotone | fsw/modules/timebase_vxworks/cfe_psp_timebase_vxworks.c:203-216 | later register pairs give later times |
| Timebase.OneSecond | fsw/modules/timebase_vxworks/cfe_psp_timebase_vxworks.c:90-102 | one reported second of ticks converts to at most a second, short by less than one period plus one tick |
| Eeprom.Decode32Encode32 | fsw/modules/ram_direct/cfe_psp_ram_direct.c:106-116 | reading a word's bytes gives the word, in both byte orders |
| Eeprom.Direct32 | fsw/modules/eeprom_direct/cfe_psp_eeprom_direct.c:59-73 | an aligned word write stores exactly its four bytes; otherwise refused and nothing changes |
| Eeprom.Merge16 | fsw/modules/eeprom_direct/cfe_psp_eeprom_direct.c:104-148 | the mask-and-or of each of the four branches replaces one half of the word and keeps the other |
| Eeprom.Merge8 | fsw/modules/eeprom_direct/cfe_psp_eeprom_direct.c:172-218 | the same for a byte of a half-word |
| Eeprom.StoreMerged16 | fsw/modules/eeprom_direct/cfe_psp_eeprom_direct.c:104-152 | storing the merged word is storing the half-word in memory, in both byte orders |
| Eeprom.StoreMerged8 | fsw/modules/eeprom_direct/cfe_psp_eeprom_direct.c:172-223 | storing the merged half-word is storing the byte |
| Eeprom.WordAddress | fsw/modules/eeprom_direct/cfe_psp_eeprom_direct.c:112-125 | the aligned address is the word of the address modulo 2^32 |
| Eeprom.HalfAddress | fsw/modules/eeprom_direct/cfe_psp_eeprom_direct.c:180-192 | the same for half-words |
| Eeprom.Direct16 | fsw/modules/eeprom_direct/cfe_psp_eeprom_direct.c:81-153 | at an even address a plain store of two bytes at the address modulo 2^32; refused at an odd one |
| Eeprom.Direct8 | fsw/modules/eeprom_direct/cfe_psp_eeprom_direct.c:161-224 | through the 16-bit and 32-bit write, a plain store of one byte at the address modulo 2^32 |
| Eeprom.ReadBack | fsw/modules/ram_direct/cfe_psp_ram_direct.c:72-116 | reading with the width just written gives the value |
| Eeprom.StoreFrame | fsw/modules/eeprom_mmap_file/cfe_psp_eeprom_mmap_file.c:130-146 | a store changes the addressed bytes and no other |
| Eeprom.PortableAgrees | fsw/modules/eeprom_mmap_file/cfe_psp_eeprom_mmap_file.c:130-146 | both drivers do the same for an aligned write below 2^32 |
| Eeprom.SequencesAgree | fsw/modules/eeprom_mmap_file/cfe_psp_eeprom_mmap_file.c:130-146 | and leave the same memory after any sequence of them |
| Eeprom.AgreeIffPortable | fsw/modules/eeprom_direct/cfe_psp_eeprom_direct.c:83-192 | they agree on every value at a place if and only if it is aligned and, for 8 and 16 bits, below 2^32 |
| Eeprom.MappedMemory.StoreBytes | fsw/modules/eeprom_direct/cfe_psp_eeprom_direct.c:70 | the processor's store |
| Eeprom.MappedMemory.MemRead16 | fsw/modules/ram_direct/cfe_psp_ram_direct.c:72-81 | the value at an even address, refused at an odd one |
| Eeprom.MappedMemory.MemRead32 | fsw/modules/ram_direct/cfe_psp_ram_direct.c:106-116 | the value at a word address, refused elsewhere |
| Eeprom.MappedMemory.EepromWrite32 | fsw/modules/eeprom_direct/cfe_psp_eeprom_direct.c:59-73 | the word write in place |
| Eeprom.MappedMemory.EepromWrite16 | fsw/modules/eeprom_direct/cfe_psp_eeprom_direct.c:81-153 | read, merge and write back in place |
| Eeprom.MappedMemory.EepromWrite8 | fsw/modules/eeprom_direct/cfe_psp_eeprom_direct.c:161-224 | read, merge and write back through the 16-bit write |
| ResetPolicy.LinuxPsp.SetupReservedMemoryMap | fsw/pc-linux/src/cfe_psp_memory.c:594-627 | a segment that was deleted is found zeroed, every other as it was left |
| ResetPolicy.Decide | fsw/pc-linux/src/cfe_psp_start.c:391-414 | PROCESSOR exactly for a recorded PROCESSOR under one of the two flag values, or for an argument that starts with PR; otherwise POWERON |
| ResetPolicy.LinuxPsp.DetermineResetType | fsw/pc-linux/src/cfe_psp_start.c:387-414 | the option or a boot record with a known flag decides; everything but PROCESSOR becomes POWERON |
| ResetPolicy.LinuxPsp.InitProcessorReservedMemory | fsw/pc-linux/src/cfe_psp_memory.c:629-680 | POWERON clears all blocks; the record is set up for a crash of this boot |
| ResetPolicy.LinuxPsp.DeleteProcessorReservedMemory | fsw/pc-linux/src/cfe_psp_memory.c:694-699 | deletes the segments whose system call succeeds |
| ResetPolicy.LinuxPsp.Restart | fsw/pc-linux/src/cfe_psp_support.c:60-79 | deletion for POWERON only, then the record, as the completed step sequence |
| ResetPolicy.AcceptedExact | fsw/pc-linux/src/cfe_psp_memory.c:235 | the CDS range check is the intended one if and only if its 32-bit sum does not wrap for an offset inside |
| ResetPolicy.Written | fsw/pc-linux/src/cfe_psp_memory.c:226-253 | an accepted write changes exactly its bytes, a refused one nothing |
| ResetPolicy.Copy | fsw/pc-linux/src/cfe_psp_memory.c:241 | the copy replaces exactly the addressed bytes of the block |
| ResetPolicy.LinuxPsp.WriteToCDS | fsw/pc-linux/src/cfe_psp_memory.c:226-253 | the write in place, leaving every other block; also for an offset outside the store, whatever the length |
| ResetPolicy.LinuxPsp.ReadFromCDS | fsw/pc-linux/src/cfe_psp_memory.c:261-288 | the bytes, exactly when the range is accepted |
| ResetRuns.BootedRecord | fsw/pc-linux/src/cfe_psp_memory.c:653-677 | after every boot the record predicts the opposite type and is marked as crashed |
| ResetRuns.EndingDecides | fsw/pc-linux/src/cfe_psp_support.c:60-79 | how a process ends, at any step of a restart, fixes the next boot's type |
| ResetRuns.BootsFollowPolicy | fsw/pc-linux/src/cfe_psp_start.c:391-419 | over every run, with any outcome of the deletions, each boot without -R follows the policy |
| ResetRuns.FirstBootIsPowerOn | fsw/pc-linux/src/cfe_psp_start.c:391-419 | the first boot is POWERON |
| ResetRuns.RepeatedProcessorIsDirected | fsw/pc-linux/src/cfe_psp_memory.c:655-661 | between two PROCESSOR boots in a row the process asked for the second |
| ResetRuns.AllWrittenBytes | fsw/pc-linux/src/cfe_psp_memory.c:226-253 | a byte is the last one written to it |
| ResetRuns.StoreIsHistory | fsw/pc-linux/src/cfe_psp_memory.c:637-663 | over every run a CDS byte is the last written since the store was last empty, or 0 |
| ResetRuns.LinksOverRun | fsw/pc-linux/src/cfe_psp_support.c:66-70 | each of the three segments survives unless the last process deleted it |
| ResetRuns.BlocksOverRun | fsw/pc-linux/src/cfe_psp_memory.c:637-661 | over every run, a PROCESSOR boot finds exception log, reset area and user area byte for byte as the process before left them, unless it deleted the segment; otherwise they are zero |
| ResetRuns.FirstBootFindsNothing | fsw/pc-linux/src/cfe_psp_memory.c:594-627 | the first boot finds every block zero, whatever -R says |
| ResetRuns.RecordOverRun | fsw/pc-linux/src/cfe_psp_memory.c:664-677 | after every run the boot record tells a completed restart from a crash, and holds the type asked for or the policy's |
| ResetRuns.PolicyStated | fsw/pc-linux/src/cfe_psp_start.c:391-419 | after a crash the opposite of the last boot, after a directed restart PROCESSOR exactly if that was asked for |
| ResetRuns.EmptiedUnderProcessorBoot | fsw/pc-linux/src/cfe_psp_support.c:62-79 | exactly which endings leave an empty CDS under a PROCESSOR boot |
| ResetRuns.HistoryIsSincePowerOn | fsw/pc-linux/src/cfe_psp_memory.c:637-663 | then the store was last empty at the latest POWERON boot |
| ResetRuns.StoreSincePowerOn | fsw/pc-linux/src/cfe_psp_memory.c:637-663 | with or without -R, if no PROCESSOR boot follows an ending that deletes the store, every CDS byte is the last written since the latest POWERON boot, or 0, across any number of PROCESSOR boots |
| ResetRuns.ShapeDecides | fsw/pc-linux/src/cfe_psp_start.c:391-419 | what processes write to the CDS has no influence on the boots |
| ResetRuns.EmptiedBreaksPromise | fsw/pc-linux/src/cfe_psp_support.c:62-79 | a byte written before such a boot is gone after it |
| ResetRuns.PromisedIff | fsw/pc-linux/src/cfe_psp_memory.c:637-663 | at every point of a run and whatever is written, the CDS is what was written since the latest POWERON boot, if and only if no PROCESSOR boot follows an ending that deletes the store |
| ResetRuns.NeverEmptiedIff | fsw/pc-linux/src/cfe_psp_support.c:62-79 | without -R that condition is exactly that no process that booted POWERON dies at the losing steps of a power-on restart |
| ResetRuns.CutShortRestartLosesStore | fsw/pc-linux/src/cfe_psp_support.c:62-79 | a run in which a PROCESSOR boot finds a written byte gone |
| Mcp750.McpPsp.Startup | fsw/mcp750-vxworks/src/cfe_psp_start.c:154-228 | type and subtype for every combination of register bits, the first one set deciding; a PROCESSOR boot keeps every other byte of the block and any other boot clears them |
| Mcp750.McpPsp.InitProcessorReservedMemory | fsw/mcp750-vxworks/src/cfe_psp_memory.c:320-336 | clears everything unless PROCESSOR, and then predicts PROCESSOR |
| Mcp750.McpPsp.Restart | fsw/mcp750-vxworks/src/cfe_psp_support.c:80-94 | records POWERON or, for every other type, PROCESSOR |
| Mcp750.BootsFollowPolicyOn | fsw/mcp750-vxworks/src/cfe_psp_start.c:187-220 | over every run of software hard resets each boot follows the MCP750's policy |
| Mcp750.PoliciesAgreeIff | fsw/mcp750-vxworks/src/cfe_psp_support.c:80-94 | the two platforms' policies agree exactly for restarts of the two defined types |
| Mcp750.SameBoots | fsw/mcp750-vxworks/src/cfe_psp_start.c:187-228 | over every run with such restarts before the last session both platforms give every boot the same type |
| Mcp750.SameBootsIff | fsw/mcp750-vxworks/src/cfe_psp_support.c:80-94 | and exactly over those: all boots are alike if and only if every ending before the last session is a crash or a restart of a defined type |
| MemoryLayout.MaskRoundsUp | fsw/mcp750-vxworks/src/cfe_psp_memory.c:370 | adding the mask and clearing it gives the first multiple at or after the address |
| MemoryLayout.Align | fsw/mcp750-vxworks/src/cfe_psp_memory.c:370 | the same as the code computes it |
| MemoryLayout.RoundUpUnique | fsw/mcp750-vxworks/src/cfe_psp_memory.c:370 | that multiple is unique |
| MemoryLayout.AddThenRoundStacked | fsw/mcp750-vxworks/src/cfe_psp_memory.c:366-393 | rounding addresses keeps any list of blocks in order and disjoint, and aligned from the second on, for any base |
| MemoryLayout.RoundThenAddStacked | fsw/shared-freertos/src/cfe_psp_memory.c:140-205 | rounding sizes keeps them in order and disjoint for any base |
| MemoryLayout.SameLayoutIffAligned | fsw/shared-freertos/src/cfe_psp_memory.c:140-205 | the two rules agree on every address if and only if the base is aligned |
| MemoryLayout.ReservedMemoryMap.SetupOnMcp750 | fsw/mcp750-vxworks/src/cfe_psp_memory.c:350-397 | the recorded addresses, sizes and total follow the first rule |
| MemoryLayout.RoundSizes | fsw/shared-freertos/src/cfe_psp_memory.c:140-155 | the six rounded sizes and their sum |
| MemoryLayout.ReservedMemoryMap.SetupOnFreeRtos | fsw/shared-freertos/src/cfe_psp_memory.c:132-205 | refused with nothing assigned when the truncated sum is too large; otherwise the second rule |
| MemoryLayout.SixRounded | fsw/mcp750-vxworks/src/cfe_psp_memory.c:366-393 | six statements in a row compute the first rule |
| MemoryLayout.SixAdded | fsw/shared-freertos/src/cfe_psp_memory.c:140-205 | and the second, ending the required size after the base |
| MemoryLayout.BlocksOnMcp750 | fsw/mcp750-vxworks/src/cfe_psp_memory.c:361-397 | the six blocks are in order, disjoint, inside the total block, and aligned but for the first |
| MemoryLayout.BlocksOnFreeRtos | fsw/shared-freertos/src/cfe_psp_memory.c:157-205 | when the check passes the six blocks are in order, disjoint and inside the array |
| MemoryLayout.SameBlocks | fsw/shared-freertos/src/cfe_psp_memory.c:178-205 | both platforms place the six blocks and the end alike if and only if the base is aligned |
| MemoryLayout.CheckExact | fsw/shared-freertos/src/cfe_psp_memory.c:157 | the size check is the intended one unless the size wraps below the array's size |
| MemoryLayout.PlaceResetArea | fsw/pc-linux/src/cfe_psp_memory.c:331-336 | pc-linux's reset segment follows the first rule, by pages |
| Bits.BitOfXor | fsw/modules/iodriver/src/iodriver.c:80 | the exclusive or works bit by bit |
| IoDriver.Slot | fsw/modules/iodriver/src/iodriver.c:77-82 | the selected slot is hash xor module, modulo the table's size; the separate branch for module 0 makes no difference |
| IoDriver.GetMutex | fsw/modules/iodriver/src/iodriver.c:65-86 | the mutex in that slot, or none for a negative hash |
| IoDriver.HashValue | fsw/modules/iodriver/src/iodriver.c:88-92 | the wrapping hash is exact in 31-bit arithmetic and not negative |
| IoDriver.HashAlwaysLocks | fsw/modules/iodriver/src/iodriver.c:65-92 | a combined hash always selects a mutex |
| IoDriver.Driver.constructor | fsw/modules/iodriver/src/iodriver.c:27-37 | every slot of the table is created |
| IoDriver.Driver.Command | fsw/modules/iodriver/src/iodriver.c:94-131 | refused without a command function; otherwise called once, under the mutex of the module and hash, or under none |
| IoDriver.StepKeeps | fsw/modules/iodriver/src/iodriver.c:94-131 | a mutex is owned exactly by the thread inside a command under it |
| IoDriver.LogIsCommands | fsw/modules/iodriver/src/iodriver.c:116-124 | in every interleaving a thread's takes, calls and gives are whole commands in a row, and at most one begun |
| IoDriver.FreeCommandCompletes | fsw/modules/iodriver/src/iodriver.c:116-124 | a command whose mutex is free goes through, with the trace of the Command method, and leaves the world as it was |
| IoDriver.MutualExclusion | fsw/modules/iodriver/src/iodriver.c:58-64 | in every interleaving at most one thread is inside a command per mutex, and all mutexes are back when all threads are outside |
| IoDriver.WaitingEnds | fsw/modules/iodriver/src/iodriver.c:116-124 | no deadlock: a waiting thread's mutex is free or its owner can leave |
| IoDriver.SameDeviceSerialized | fsw/modules/iodriver/src/iodriver.c:58-64 | in every interleaving, two threads inside commands with the same module and the same nonnegative hash are one thread |
| IoDriver.UnlockedTogether | fsw/modules/iodriver/src/iodriver.c:70-74 | with a negative hash two threads are inside at once |
| MemRange.ContainsAddresses | fsw/shared/src/cfe_psp_memrange.c:84-98 | the end-address comparison means containment of every address, when neither range wraps |
| MemRange.ContainsSpans | fsw/shared/src/cfe_psp_memrange.c:84-98 | comparing first and last address compares every address in between, also where the entry's range wraps |
| MemRange.ZeroedEntryCoversAll | fsw/shared/src/cfe_psp_memrange.c:78-98 | an entry of zeros spans every address |
| MemRange.MemoryTable.MemValidateRange | fsw/shared/src/cfe_psp_memrange.c:44-134 | succeeds exactly when some entry in use, of the requested type or of any for ANY, spans every requested address; otherwise the last entry in use gives the type, range or address code, as it spans all, the first or not even that address |
| MemRange.MemoryTable.MemRangeSet | fsw/shared/src/cfe_psp_memrange.c:153-192 | the code of the first failing check; on success one entry is replaced, otherwise none |
| PspModules.InternalBase | fsw/shared/src/cfe_psp_module.c:51 | the masked expression is the start of the last 256 IDs after the module base |
| PspModules.IdParts | fsw/shared/src/cfe_psp_module.c:118-130 | the masks split an ID into group, index and low byte |
| PspModules.ModuleRegistry.ModuleInitList | fsw/shared/src/cfe_psp_module.c:64-93 | counts all entries and initializes the valid ones in order with consecutive IDs |
| PspModules.ModuleRegistry.ModuleInit | fsw/shared/src/cfe_psp_module.c:99-106 | records both lengths; internal modules first, then configured ones |
| PspModules.InitializedIds | fsw/shared/src/cfe_psp_module.c:78-90 | an ID passed to Init is the base plus the entry's place |
| PspModules.InitializedExactly | fsw/shared/src/cfe_psp_module.c:78-90 | Init is called exactly for the valid entries that have one, each with the base plus its place |
| PspModules.IdsDistinct | fsw/shared/src/cfe_psp_module.c:99-106 | all IDs passed to Init, over both lists, are different |
| PspModules.ModuleRegistry.LookupInverts | fsw/shared/src/cfe_psp_module.c:112-142 | looking up an ID gives the module it was given to |
| PspModules.ModuleRegistry.GetApiEntry | fsw/shared/src/cfe_psp_module.c:112-142 | the configured list from 0x01100000 on, the internal one from 0x0110FF00 on, and every other ID refused |
| PspModules.ModuleRegistry.FindByName | fsw/shared/src/cfe_psp_module.c:148-190 | the ID of the first configured module of that name, else of the first internal one, else refused |
| PspModules.ModuleRegistry.NamedThenLookup | fsw/shared/src/cfe_psp_module.c:112-190 | looking up the ID found for a name gives the first configured module of that name, else the first internal one; no name is missed |

## Left out

- ResetPolicy.LinuxPsp.WriteToCDS: excludes an offset inside the store whose sum with the length reaches 2^32: there the check wraps and the copy goes outside the store, which the model does not follow (`AcceptedExact` shows that the check is wrong for all of these calls and for no other).
- ResetPolicy.LinuxPsp.ReadFromCDS: excludes the same calls.
- Timebase.TimebaseGlobal.GetTime: requires a nonzero denominator; the code divides by zero when the denominator times the tick resolution wraps to 0.
- Timebase.TimebaseGlobal.Init: requires a nonzero period numerator, a compile-time constant the code divides by.
- MemoryLayout.ReservedMemoryMap.SetupOnMcp750: requires that no address overflows the word.
- MemoryLayout.ReservedMemoryMap.SetupOnFreeRtos: requires that no size overflows the word; the console output and the panic after a refusal are not modelled.
- Eeprom.MappedMemory.EepromWrite16: the memory is one block of whole words starting at address 0, and ends at or below 2^64; faults outside it are not modelled.
- Two handlers overlapping in the exception log: the code says this is not handled, so one handler runs at a time.
- Exception log accesses finer than one field, such as a torn copy of the signal information inside the handler; reordering by compiler or processor.
- A process dying inside an exception handler and the half-written ring surviving a processor reset.
- NULL output pointers of GetSummary; the OSAL lookup of a thread and the platform's reason text are parameters.
- The idle task's wake-up signal, installing the handlers, and the lists of signals.
- `strtoul`, `isspace` and `memchr` are modelled after the C standard with a 64-bit `unsigned long`; OSAL's conversion of nanoseconds to milliseconds is a parameter.
- Opening /proc/schedstat, the monitor's thread, its start and stop, and its command dispatch; the FreeRTOS and RTEMS monitors, whose values are not claimed to fit 24 bits.
- Reading the timebase register atomically, and the signed 64-bit type of `OS_time_t`.
- Shared memory creation and attachment failures (the code exits), key files, signals and the forced exit after a restart request; concurrent calls of CFE_PSP_Restart.
- The volatile disk of pc-linux (a no-op), the InitProcessorReservedMemory of FreeRTOS, and platforms other than pc-linux, MCP750 and the FreeRTOS layout.
- MCP750 watchdog, push-button and soft resets in whole runs: `Startup` covers them, the run lemmas follow the power switch and software hard resets; its CDS access has the same shape as on pc-linux.
- Which entries other code puts in the memory table; MemRangeGet and MemRanges, which only copy a field.
- Module IDs when OSAL defines user object types: the model takes the other branch's constants.
- A driver that issues commands from inside a command, a mutex that cannot be created (its undefined ID means no lock), and signed overflow in the hash, taken to wrap.
- Solid-state recorder, ports, watchdog, version, status strings and not-implemented stubs: constants or one-line wrappers.
