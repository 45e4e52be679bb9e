# A verified model of the copy machine and its checkers

The repository holds a machine with one instruction, `copy(n, dst, src)` on bit-addressed memory
(C, `src/vm/`), and a two-layer checker that is meant to certify its rounds (Python, `src/`). The
two halves share nothing but a bit layout. This project models both in Dafny and proves that they
fit: what a PASS of the checkers means for the sequential, self-modifying loop of the machine.

## How it is organised

| file | what it holds |
|---|---|
| `BitSpace.dfy`, `Words.dfy`, `Encoding.dfy` | bytes and their bits (most significant first), the little-endian 64-bit step, unsigned fields |
| `Bitcpy.dfy` | `bitcpy`, as written and repaired, in place on byte arrays that may be one buffer |
| `Geometry.dfy` | widths, slots and register layout |
| `MmioService.dfy`, `Machine.dfy` | the handshake, the slot loop, ticks and runs as functions of the memory |
| `Round.dfy`, `Stepping.dfy`, `Vm.dfy` | the machine as a class over a byte array, proved against those functions |
| `ConflictCheck.dfy`, `MemoryCheck.dfy` | the two checkers, L2 and L1 |
| `Certificate.dfy`, `Pipeline.dfy`, `PassIsNotEnough.dfy` | what a PASS is worth, from image bytes to whole runs |
| `BootLoader.dfy` | the self-patching boot layer and chains of layers |
| `Image.dfy` | the image reader, the fixture writer, and their agreement with the machine's decoder |

## Where the code does not do what it says

* `bitcpy` copies faithfully exactly on `Bitcpy.InDomain`. With a source offset below the destination
  offset in their bytes it takes the head from bits 8 too far along (`src/vm/bitcpy.c:151-157`); both
  64-bit loops combine words wrongly (`src/vm/bitcpy.c:115-129`, `src/vm/bitcpy.c:165-176`). One method
  carries the text as written and a repaired version, told apart by a `version` argument; the places
  marked "Repair" are the only differences. What the wrong branches leave is stated bit by bit
  (`Bitcpy.Astray`): with fewer than 64 bits behind the head everything behind the head is right, and
  otherwise everything behind the last whole 64-bit step. The machine carries the same choice as a constant: which
  `bitcpy` it is linked with. Nothing outside the destination range is ever written, also on the wrong
  branches, so isolation holds for the code as written.
* `docs/vm-integration.md:32` promises that an image which passed cannot make `vm_tick` fail. It can, in three
  ways. No checker looks at the end of a source range (`PassIsNotEnough.PassDoesNotExcludeErrors`). A round
  may write a slot that is still to be fetched and run an instruction nobody judged there; a configuration
  that protects the processor area rejects such a round, but one without regions passes it
  (`PassIsNotEnough.FittingSourcesDoNotExcludeErrors`). And no checker looks at the registers: a pending
  input request may let a device replace the round before its first fetch
  (`PassIsNotEnough.JudgedRoundMayBeReplaced`). For an image with no pending input request below
  `processor_bits` and no destination in a later slot, `vm_tick` never returns VM_ERR if and only if every
  source range ends inside the space, or HALT is set where no device can clear it
  (`Certificate.PassedImageNeverFails`; tick by tick, with either `bitcpy`, `CopyVm.PassedTickFails`).
* Regions without explicit bounds are inert. All regions of the shipped configuration are: it protects
  nothing, and passes only rounds of NOPs (`MemoryCheck.ShippedPassesOnlyNops`).
* The fast bit reader differs from the slow one when the end of the data cuts the range
  (`Image.FastIsSlowExactly`). `ImageReader.read` never gets there on an image of full size whose
  processor area fits the space (`Image.ReadIsUncut`); nothing in `Config` demands that it fits.
* The boot layer loads the layer at its pointer in one tick if and only if the processor has at least three
  slots (`BootLoader.BootNeedsThreeSlots`). With two, the patch takes the place of the pointer and the
  machine loads the bits that start in its own last field, whatever the pointer was
  (`BootLoader.TwoSlotsForgetThePointer`). With one, the load copies the processor area onto itself, and
  the patch is written 2^32 - 1 slots on (`CopyVm.Vm.BuildBootLoader`).

## Modelling choices

* The two streams become a value per tick, `Reaction`: the bytes a read would deliver, the indicators
  after it, the bytes a write would accept. Statements are for all such values. The hooks become a ghost
  trace.
* An allocation of more than 2^53 bytes does not succeed. Addresses then have at most 56 bits, and no
  64-bit sum wraps around. `ceil_log2` is modelled with its 64-bit word for all arguments up to 2^63.
* A load behind the end of a buffer yields an arbitrary byte; the repaired `bitcpy` has none.
* `list.sort` is the stable sort by key; `ConflictCheck.SortIsUnique` shows that this determines it.
* Instruction fields reaching the checkers are unsigned numbers, as decoded.
* That a round passed L2 is stated in the machine's lemmas as `ConflictCheck.StrictlyDisjoint`, that no bit
  lies in two intervals; `ConflictCheck.CheckTick` proves it equivalent to an empty list of conflicts.
* The length of k slots, a product in the source, is spelled `Span`, repeated addition;
  `Geometry.SpanIsProduct` proves them equal.

## Model

| member | source | states |
|---|---|---|
| Bitcpy.BitGetPtr | src/vm/bitcpy.c:13-17 | the shift-and-mask read is the bit of the memory view |
| Bitcpy.BitSetPtr | src/vm/bitcpy.c:19-25 | the in-place write changes that one bit of the view |
| Bitcpy.OverlapFallback | src/vm/bitcpy.c:27-40 | for any overlap, in one buffer or two, the chosen direction makes the in-place loop the copy from the old contents, all other bits unchanged |
| Bitcpy.BytesAndTail | src/vm/bitcpy.c:86-99 | whole bytes and a masked tail copy n bits exactly |
| Bitcpy.SameOffsetHead | src/vm/bitcpy.c:103-113 | the masked head copies the bits up to the byte boundary and keeps the rest of the byte |
| Bitcpy.SameOffsetWords | src/vm/bitcpy.c:115-129 | the 64-bit loop stays inside its range, and every bit it stores is the source bit at a named wrong place, read from what earlier steps left |
| Bitcpy.SameOffset | src/vm/bitcpy.c:101-145 | the equal-offset path: reference copy where faithful, elsewhere every bit: right head, wrong whole steps, right rest |
| Bitcpy.ShiftedHead | src/vm/bitcpy.c:147-162 | the shifted head is right when the source offset is the larger one and, bit by bit, 8 bits off as written when it is the smaller one |
| Bitcpy.SlidingWords | src/vm/bitcpy.c:164-176 | the sliding 64-bit loop stays inside its range, and every bit it stores is the or of two named source bits, read from what earlier steps left |
| Bitcpy.SlidingBytes | src/vm/bitcpy.c:178-195 | the byte loop and tail copy any n bits between different offsets, whatever lies behind the buffer |
| Bitcpy.DifferentOffsets | src/vm/bitcpy.c:147-195 | the different-offset path: reference copy where faithful, elsewhere every bit: the head right or 8 bits off, wrong whole steps, right rest |
| Bitcpy.Bitcpy | src/vm/bitcpy.c:42-196 | refines the reference copy on every branch of the domain as written and on all inputs repaired; outside it, what each destination bit becomes as written; every bit outside the destination keeps its value on every branch |
| Bitcpy.DivergesOutsideDomain | src/vm/bitcpy.c:115-176 | for every choice of offsets outside the domain, contents on which every possible result is wrong |
| Bitcpy.DomainIsExact | src/vm/bitcpy.c:42-196 | the code as written copies faithfully for all contents if and only if the offsets are in the domain |
| Bitcpy.OutcomeIsUnique | src/vm/bitcpy.c:42-196 | where all loads lie inside the buffer the description leaves one result only, on every branch |
| Words.SameOffsetStores | src/vm/bitcpy.c:122-124 | every bit that (a << s) \| (b >> (64 - s)) stores, as a bit of a or b |
| Words.SlidingStores | src/vm/bitcpy.c:169-171 | every bit that (a << left) \| (b >> right) stores, as an or of bits of a and b |
| Encoding.WriteThenRead | src/vm/space.c:38-53 | a field that fits is read back as written |
| Encoding.LowDigits | src/vm/space.c:47-53 | a field holds the number modulo 2^width |
| Encoding.BitsOfShift | src/vm/space.c:47-53 | the shift-and-mask bits of a value are its binary digits, most significant first |
| Geometry.CeilLog2 | src/vm/space.c:11-17 | the doubling loop ends with the least k such that 2^k >= x, for x up to 2^63, without wrapping |
| Geometry.WidthIsLeast | src/vm/space.c:18-20 | the width is the least positive multiple of 8 whose addresses cover the space |
| Geometry.RegistersTile | src/vm/space.c:73-103 | the registers tile the bits from the processor area to the workspace without gap or padding, do not meet, and end inside the space |
| CopyVm.Vm.ComputeMmioLayout | src/vm/space.c:73-103 | the running address places every register at its closed-form position, the final rounding changing nothing |
| CopyVm.Vm.Init | src/vm/space.c:107-147 | succeeds exactly when sizes are positive, memory can be had and everything fits; then the layout is well-formed and the memory zero |
| CopyVm.Vm.ReadField | src/vm/space.c:38-45 | the accumulating loop reads the number the bits stand for |
| CopyVm.Vm.WriteField | src/vm/space.c:47-53 | the loop writes the binary digits of the value and nothing else |
| CopyVm.Vm.WriteInstAt | src/vm/space.c:65-69 | three field writes at the offsets of the layout |
| BootLoader.WriteInstReadsBack | src/vm/space.c:57-69 | an instruction whose fields fit is read back as written, and only its bits change |
| CopyVm.Vm.ServeOut | src/vm/space.c:213-254 | service_out in place is the handshake function, with the bits sent |
| CopyVm.Vm.ServeIn | src/vm/space.c:167-211 | service_in in place is the handshake function |
| MmioService.OutputHandshake | src/vm/space.c:155-166 | a pending request ends with REQ=0, DONE=1, GOT = 8 times the bytes moved, ERR exactly if malformed or short, only status bits changed; bit k sent is bit k from the source address on, before the tick, cleared status bits apart; no request, no change and nothing sent |
| MmioService.InputHandshake | src/vm/space.c:167-211 | the same for input; beyond the status bits exactly the delivered bits change, to the delivered data |
| MmioService.InputIndicators | src/vm/space.c:200-205 | EOF and ERR of every served request, of length 0 too, and where the delivered data lie over them |
| MmioService.ServicesReach | src/vm/space.c:167-254 | whatever the devices do, the two services change status registers and the range of a well-formed input request only |
| Machine.OutputIsFirst | src/vm/space.c:267-270 | what a tick sends is read from the memory before the tick, input of the same tick included in nothing sent |
| Machine.InputIsLast | src/vm/space.c:267-270 | what the device delivers stands there when the slots start, over output registers too |
| Machine.TraceReplays | src/vm/space.c:276-327 | replaying the announced copies gives the memory the slots leave, for any self-modifying program |
| Machine.ErrorPrefix | src/vm/space.c:288-321 | after a bounds error the memory is the work of exactly the slots before the offending one; the source bound is reported if it is violated, the destination bound only otherwise |
| Machine.RunSlotsInTwo | src/vm/space.c:278-327 | without an error the loop can be cut at any slot |
| Machine.HaltIsAbsorbing | src/vm/space.c:258-274 | after VM_HALT every tick halts for any device, no slot runs, only output status can change, and memory is fixed after one further tick |
| Machine.HaltedForever | src/vm/space.c:269-274 | the same for any number of further ticks |
| CopyVm.Vm.ExecuteSlots | src/vm/space.c:276-327 | the loop over the real buffer goes slot by slot with either bitcpy, stops where it must, is the reference run when its copies are faithful, and for a round that writes no later slot runs as first read and changes only its destinations |
| CopyVm.Vm.DoTick | src/vm/space.c:258-336 | one tick: output, input, HALT check, slots, return code, tick counter and error record |
| CopyVm.TickTrace | src/vm/space.c:258-336 | for any program and either bitcpy: the slots were fetched one after the other from what the ones before left, only copies inside the space were announced, and after an error last_err names the first slot that did not run, as fetched, with the bound it violates, the counter unchanged; trace replay where the announced copies are faithful |
| CopyVm.Vm.DoRun | src/vm/space.c:338-344 | for any program and either bitcpy a chain of ticks from state to state, all VM_OK but perhaps the last, ending after life ticks or with the first that is not; the reference run when its copies are faithful; a sealed round runs any number of ticks |
| CopyVm.RunCounts | src/vm/space.c:338-344 | over a run the counter rises by one a tick, but for a tick that ends in an error |
| Round.FetchOnceIsEnough | src/vm/space.c:278-327 | a round in which no instruction writes a bit of a later slot, fetched slot by slot, runs as the list read at its start |
| Stepping.StepCopy | src/vm/space.c:323-326 | one real copy keeps the link between the in-place loop and the reference |
| Stepping.StepsOutcome | src/vm/space.c:278-327 | all that is claimed of the slot loop follows from its single steps |
| Stepping.FaithfulTrace | src/vm/space.c:276-327 | a loop whose announced copies are faithful was the reference run, error and prefix included |
| ConflictCheck.CheckTick | src/conflict_check.py:85-145 | the list is empty if and only if no bit lies in two ranges; it holds a report for every instruction that meets itself and every neighbouring pair of the sorted intervals that meets, once, in order; each report is true of the fields it names |
| ConflictCheck.VerdictIsExact | src/conflict_check.py:116-145 | the sorted neighbour scan decides the statement about every bit and every pair of intervals |
| ConflictCheck.DisjointIsPairwise | README.md:148-158 | counting intervals over a bit and looking at every pair of ranges say the same |
| ConflictCheck.VerdictIgnoresOrder | src/conflict_check.py:86-145 | the verdict does not depend on the order of the instructions |
| ConflictCheck.FirstConflictIsLeast | src/conflict_check.py:119-143 | the scan's first conflict begins at the least bit covered twice, and no conflict of the whole list begins earlier |
| ConflictCheck.ReportsAreGenuine | src/conflict_check.py:97-143 | every report is the non-empty intersection of two intervals of the named slots with the origins of its kind |
| ConflictCheck.ReportsAreComplete | src/conflict_check.py:92-143 | the reports are exactly those, in that order |
| ConflictCheck.IntervalsInOrder | src/conflict_check.py:92-111 | of each non-NOP its source range, then its destination range is collected |
| ConflictCheck.SortIsStable | src/conflict_check.py:116-117 | the sort is ordered by (start, end), keeps the elements, and keeps the order of equal keys |
| ConflictCheck.SortIsUnique | src/conflict_check.py:116-117 | only one list is so |
| ConflictCheck.CheckLayers | src/conflict_check.py:71-83 | PASS exactly if every round is strictly disjoint; the list holds the complete reports of the rounds one after the other, each true of the round of its tick; the non-NOPs are counted |
| ConflictCheck.CheckBatch | src/conflict_check.py:147-154 | said of the operations (n, dst, src) themselves: empty if and only if no bit lies in two of their ranges; every report is true of the two operations it names by position; the list is complete |
| MemoryCheck.IntersectsExactly | src/config.py:48-56 | intersects means a shared bit, but for regions whose end is not above their begin, where it is stricter |
| MemoryCheck.ContainsExactly | src/config.py:38-46 | contains means that every bit of the range lies in the region |
| MemoryCheck.FindAllowed | src/memory_check.py:80-84 | the early-return loop decides membership in some allowed region |
| MemoryCheck.CheckLayer | src/memory_check.py:37-78 | PASS exactly if every instruction is safe; every charge that applies to an instruction is brought, once, in order, naming the first protected region met; NOPs are counted |
| MemoryCheck.LayerVerdict | src/memory_check.py:43-78 | no violation means safe, and every violation names an instruction of the round and a reason that applies |
| MemoryCheck.WholeLayer | src/memory_check.py:43-78 | the violations bring every charge that applies, once, in order |
| MemoryCheck.SafeWrites | src/memory_check.py:49-73 | a safe instruction writes no protected bit, none outside the space, and only allowed ones where regions are allowed |
| MemoryCheck.InertRegions | src/config.py:40-51 | regions without bounds protect nothing, and allow nothing |
| MemoryCheck.ShippedPassesOnlyNops | config/default_config.json:5-11 | the shipped configuration passes exactly the rounds of NOPs |
| Certificate.IsolationFromL1 | src/memory_check.py:43-84 | L1 alone isolates a round that writes no later slot: protected bits and bits outside the allowed regions do not change, with L2 conflicts, with bounds errors, with either bitcpy |
| Certificate.PassSparesProcessor | src/memory_check.py:57-65 | a round that passed under a configuration protecting the processor area has no destination below processor_bits, hence none in a later slot |
| Certificate.PassedRoundFailsOnlyOnSources | src/vm/space.c:288-321 | of the slots of a round that passed L1 and writes no later slot, with either bitcpy: they end without an error if and only if every source fits; a destination error is impossible |
| Certificate.PassedImageNeverFails | docs/vm-integration.md:32 | for such an image: no device makes the tick fail if and only if every source fits, or HALT is set where no request covers it |
| CopyVm.PassedTickFails | docs/vm-integration.md:32 | of an image that passed L1, writes no later slot and asks for no input below processor_bits, with either bitcpy: the tick is VM_ERR if and only if HALT is clear after I/O and some source does not fit; HALT of the image itself where no request covers it |
| Certificate.VerifiedRound | src/vm/space.c:276-335 | a round that passed both checkers, writes no later slot and whose sources fit ends VM_OK as one simultaneous copy |
| Certificate.VerifiedRoundByCode | src/vm/space.c:276-335 | the same of the loop over the real buffer, for either bitcpy on its domain |
| Certificate.SimultaneousIsUnique | README.md:148-158 | the simultaneous copy, which the invariant is to guarantee, is determined by memory and instructions |
| Certificate.AnyOrder | README.md:148-158 | any order of the same disjoint instructions leads to the same memory |
| Certificate.SimultaneousTwice | src/conflict_check.py:3-9 | a conflict-free round is idempotent |
| Certificate.VerifyOnceRunForever | src/vm/space.c:338-344 | with registers protected and no request pending, every run of a verified round is VM_OK, leaves processor and registers alone, and keeps the memory of its first tick |
| Pipeline.VerifiedRunIsFaithful | src/vm/space.c:338-344 | such a run asks bitcpy only for the copies of the round |
| Pipeline.VerifiedImageRuns | docs/vm-integration.md:94-104 | verify, then run, from image bytes to whole runs |
| PassIsNotEnough.PassDoesNotExcludeErrors | docs/vm-integration.md:32 | a concrete image that passes both checkers, processor and registers protected, whose tick is VM_ERR for every device |
| PassIsNotEnough.FittingSourcesDoNotExcludeErrors | docs/vm-integration.md:32 | without protected regions, a concrete image that passes both checkers, all sources fitting, whose tick is VM_ERR for every device because slot 0 rewrites slot 1; its one copy is faithful as written |
| PassIsNotEnough.JudgedRoundMayBeReplaced | docs/vm-integration.md:32 | processor and registers protected, one NOP, HALT clear: a concrete image that passes both checkers, and a device whose delivery the tick fetches and fails on |
| CopyVm.Vm.ClearProcessor | src/vm/space.c:348-352 | all slots become zero NOPs, nothing behind the processor area changes |
| CopyVm.Vm.BuildBootLoader | src/vm/space.c:354-390 | refuses pointers that do not fit; otherwise pointer, patch, load and NOPs stand in their slots field by field, and nothing behind the processor area changes, but for the wrapped patch of a single slot |
| CopyVm.Vm.BootOneLayer | src/vm/space.h:192-203 | build, then tick: on a quiet machine with at least three slots VM_OK, the processor area becomes the layer at the pointer, nothing else changes, with either bitcpy |
| BootLoader.PatchIsSeen | src/vm/space.h:18-23 | the patch of slot N-2 is what the fetch of slot N-1 sees |
| BootLoader.BootSlots | src/vm/space.h:203 | the boot layer performs exactly two copies, patch and patched load, and leaves the layer at the pointer in the processor area |
| BootLoader.BootTick | src/vm/space.c:278-335 | one boot tick is VM_OK and replaces the processor area, every bit behind it unchanged; its copies are in the domain of the code as written |
| BootLoader.ChainRuns | src/vm/space.c:338-344 | after any number of ticks up to the length of a chain the memory is the first one with the layer of that number in the processor area, for the code as written too |
| BootLoader.AfterLayersMeans | src/vm/space.h:18-23 | that closed form: the processor area is the stored layer, everything else as at first |
| BootLoader.TwoSlotsForgetThePointer | src/vm/space.c:366-387 | the slots of a two-slot boot layer: patch and load both run, and the load comes from the src field of slot 1 whatever the pointer |
| BootLoader.OneSlotLoadsItself | src/vm/space.c:366-387 | with one slot the load copies the processor area onto itself |
| BootLoader.FewSlotsMiss | src/vm/space.h:203 | on a memory that has a one where those layers have a zero, the tick of one or two slots leaves something other than the layer at the pointer |
| BootLoader.BootNeedsThreeSlots | src/vm/space.h:203 | every quiet booting memory ticks to the layer at the pointer if and only if there are at least three slots |
| Image.ReadBitsSlow | src/image_reader.py:93-106 | the bit loop reads the number of the bits, with zeros behind the data |
| Image.FromBytesIsUint | src/image_reader.py:79-81 | the big-endian number of a chunk is the number its bits stand for |
| Image.FastReadsWindow | src/image_reader.py:62-91 | chunk, shift and mask give the bit loop's number for every width up to 64 inside the data |
| Image.FastIsSlowExactly | src/image_reader.py:62-106 | on data of a given size the two readers agree for all contents if and only if the range is not cut by the end of the data |
| Image.Read | src/image_reader.py:37-48 | refuses data shorter than the space, and only those; otherwise as many instructions as slots, numbered in order |
| Image.ReadIsUncut | src/image_reader.py:37-60 | on a full image whose processor area fits the space every field read is the slow reader's number and that of its bits |
| Image.WidthsAgree | src/config.py:19-27 | the reader's width is the least multiple of 8 that addresses the space, hence vm_init's |
| Image.ReaderAgreesWithMachine | src/image_reader.py:37-60 | reader and machine decode the same instructions from the same bytes |
| Image.WriteBits | src/snapshot.py:57-81 | the in-place bit writer changes exactly the bits of the field that lie inside the data |
| Image.MakeFixture | src/snapshot.py:84-110 | the image is the blank one with slot after slot written, slots that do not fit left out |
| Image.FixtureHolds | src/snapshot.py:84-110 | for any triples and slot size: every triple whose slot fits the space is there up to the digits its fields hold, beyond the processor too, and all other bits are zero |
| Image.FixtureRoundTrip | src/snapshot.py:84-110 | for any field width and any processor area that fits the space, reading a fixture back gives its instructions followed by NOPs |
| Image.FixtureOnMachine | src/vm/space.c:57-63 | and the machine of that layout fetches the same ones |

## Left out

- Bitcpy.Bitcpy: of a bit that comes from a load behind the end of the source buffer nothing is said, since C leaves it open. Buffers that are distinct pointers into one object are not modelled.
- Bitcpy.DomainIsExact: asks that the bytes the first wrong step loads lie inside the source buffer, for the same reason.
- Words.SameOffsetStores: a little-endian host; the other byte order is wrong too, in other bits.
- Words.SlidingStores: the same.
- CopyVm.Vm.BuildBootLoader: asks that the patch slot lie inside the space, which it does with two or more slots; where the wrapped number of a single slot leads out of the buffer, C leaves the result open.
- CopyVm.Vm.Init: a successful allocation of more than 2^53 bytes is not modelled, so that addresses have at most 56 bits.
- Command line, globbing, file loading and exit codes (`src/spaces_verify.py`), and report formatting (`src/report.py`): input, output and presentation.
- `save_snapshot`, `load_snapshot` and `Config._load`: file and JSON plumbing.
- `src/vm/invariants.c`: a debug check that `vm_tick` never calls.
- `read_non_nop` and the `__repr__` methods: easy members.
- Floating-point `math.log2` in `derive_addr_bits`: the exact ceiling is used.
- Texts of violations and the error line on stderr; cost claims.
- That every conflicting pair is listed: the scan looks at neighbours, a long interval can hide later ones, and only the verdict is complete.
