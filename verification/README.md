# A verified model of the hardware abstraction layer

This project models the boot-time core of the HAL in Dafny and proves what it keeps, over every input and every run.

- **Page tables** (`PageMap`, `PageTables`, `PageBuilder`, `PageEntries`, `PageLeaves`, `PageRegions`, `PageTheorems`, `Mmu`, `BootTheorems`). The builder is a class over the root table, the pool of 16 tables and the pool counter, written in place; the three copies in the source differ only in the format of entries, so the class takes a format and `PageEntries.FormatOf` supplies the three. Its abstract state is `PageMap`: the tables in order of allocation, and a map from page to leaf entry. The concrete tables are a function of the abstract state (`PageTables.Represents`), which is how every method keeps its invariant. The three hardware walks in `Mmu` are written from the manuals and proved to find what the builder wrote.
- **Gated mapping** (`Direct`). Mapping a device region behind a capability token.
- **Devicetree walker** (`FdtFormat`, `FdtScan`, `FdtWalk`). An encoder for sections 5.2 to 5.5 of the Devicetree Specification, the token machine of the walker, and the walker on bytes.
- **Interrupt controllers** (`IrqContract`, `IrqHistory`, `PlicHistory`, `EnableWords`, `Plic`, `Gic`). The mock controller states the contract; the PLIC and GICv3 drivers, over models of their devices' registers, refine it. Each device has its register map in numbers, apart from the offsets that the driver uses, and records a history of claims, handler runs, calls and completions (a claim is recorded by the read of the register, a completion by the write), and the drivers' invariant says that the history passes a monitor and accounts for the handler table, the enable bits and the interrupts still in service. A handler may make any calls through the trait, including on its own line.
- **PCI** (`PciAddress`, `PciConfig`, `PciScan`). Both ways of reaching configuration space, the probe of a base address register and the bus scan.
- **Firmware memory maps and the manifest** (`Bytes`, `UefiMap`, `Acpi`, `Madt`, `Manifest`).
- **Timers** (`Timer`). Conversions between ticks and nanoseconds and the one-shot deadline.

Machine words are natural numbers with explicit bounds; word sizes are in `Words`, and bitwise operators are defined in `Bits` together with their laws. The numbers that the source lets wrap (`base + length` and its rounding, `number_of_pages * 4096`, the sum of usable bytes, the `as u64` casts of the timers) wrap at 2^64 in the model, as in a build without overflow checks.

## Findings

Where the code does not do what it or its documentation says, the model follows the code and a lemma gives the exact condition.

- AArch64 leaf entries are always writable, because `AP_RW_EL1` is zero; Sv39 entries cannot ask for uncached memory; on x86_64 the rights depend on IA32_EFER.NXE and CR0.WP, which nothing in the repository sets. no architecture looks at `readable`, so every page that is reached can be read. `BootTheorems.RightsHonoured` says exactly when the requested rights are the granted ones, `BootTheorems.PresetsHonoured` for which presets; `BootTheorems.ReadOnlyDataLost`, `BootTheorems.UnreadableIsRead` and `BootTheorems.UncachedLost` give pages.
- AArch64 programs TCR_EL1 with its IPS field zero, which limits output addresses to 32 bits. Pages above 4 GiB are mapped with success and fault: `BootTheorems.ProgrammedLimit`, `BootTheorems.FourGibibytes` (exactly which pages are reached), `BootTheorems.HighPageFaults` (the page at 4 GiB).
- The builder does not look at address bits above the table indices, bit 39 on Sv39 and bit 48 on the others. A region that reaches past them is mapped with success, but onto lower pages, which lose what they had: a successful call maps all pages of its region to themselves exactly when the region ends within the span (`PageTheorems.IdentityExactly`, which covers the wrapped ends too; what happens otherwise is `PageTheorems.RegionAnywhere`). The first page past the span becomes page 0: `PageTheorems.PageZeroIsTaken`, and for the hardware `BootTheorems.AddressZeroEndsElsewhere`.
- For the same reason a capability token, which should not be good for another device's range (hal/hal-direct/src/lib.rs:89-93), can change pages outside the range it names. `Direct.Escapes` is the condition on the range: it has pages, begins past page 0, reaches past the span, and the pool of 16 tables is large enough to get there. `Direct.ConfinedExactly` says that a call can change a page outside its range, from some page map, exactly when it is accepted and escapes; `Direct.OnlyAuthorisedPages` that a run without such calls is confined; `Direct.TokenReachesPageZero` gives a token.
- A region whose end, rounded up, does not fit 64 bits is mapped with success as at most one page: `PageRegions.EndPageExactly`, `PageRegions.WrappedRegion`, `PageRegions.LastPageIsNotMapped`.
- The devicetree walker takes the unnamed root for a possible IOMMU and keeps that until the root closes, so `memory@` and `plic@` nodes inside it are never seen, against the comment at hal/hal-riscv64/src/memory.rs:188-193. `FdtScan.WhatIsFound` says exactly what is found on every tree, `FdtScan.MemoryNodeMissed` gives a tree.
- A PLIC ignores the completion of a source that is disabled at that moment. A handler that masks or unregisters its own line therefore leaves it in service: `PlicHistory.RetiredUnlessMasked` (exactly when), `PlicHistory.StaysWaiting` (for ever, unless someone calls `end_of_interrupt` for it while it is not masked), `PlicHistory.EndReleases` (that such a call helps), `PlicHistory.HandlerMasksItself` (a run).
- The trait says that numbers outside `irq_line_count()` are rejected. The GIC reports 480 and accepts 480 to 511 (`Gic.GicDriver.IrqLineCount`); the PLIC keeps to the statement (`Plic.PlicDriver.IrqLineCount`). The converse, that numbers below the count are accepted, is not promised and does not hold: the GIC rejects 0 to 31 and the PLIC rejects 0. `IrqContract.AcceptsReportedNumbers` says when both directions hold.
- The trait says that the time never decreases. What is reported is cut to 64 bits, and does: `Timer.ClockRunsForwards` (exactly when), `Timer.ClockRunsBackwards`. An expired token is then good again: `Direct.ClockRunsUntilItWraps`, `Direct.ExpiredTokenReturns`.
- The trait says that a deadline fires at its time or shortly after, and that one beyond the counter's range is refused. The floor arms a tick early unless the deadline falls on a tick; a deadline beyond the register is accepted and cut; on x86_64 one that is armed as zero disarms the timer. `Timer.FiresRightExactly`, `Timer.FiresOnTimeExactly`, `Timer.DisarmedExactly` and `Timer.NeverInThePastExactly` say exactly when, about the value that is armed; `Timer.EarlyDeadline`, `Timer.FarDeadlineIsCut` and `Timer.ShortDeadlineDisarms` are accepted deadlines.
- A 64-bit memory region of 2^33 bytes or more is reported as 2^32 bytes: `PciConfig.SizeReportedExactly`, `PciConfig.LargeRegionMisreported`.
- The walk of an interrupt controller table longer than 0xFFFF_FF01 bytes need not end: `Madt.WalkEndsExactly`.
- `device_index` is set only in the manifest; in the scan's own table it stays 0, so looking a device up there finds at most the first: `PciScan.ComputeDiscovery.DeviceByIndex`.

## Model

| member | source | states |
|---|---|---|
| PageBuilder.PageTableBuilder.AllocTable | hal/hal-x86_64/src/memory.rs:360-375 | hands out pool slots in order and fails, changing nothing, when all 16 are used |
| PageBuilder.PageTableBuilder.LinkFresh | hal/hal-x86_64/src/memory.rs:406-411 | a fresh table is linked under one entry; the tables then represent the page map with exactly that table added, or nothing changes when the pool is used up |
| PageBuilder.PageTableBuilder.Descend | hal/hal-x86_64/src/memory.rs:401-413 | one turn of the level loop: ends at the table below that serves the page, allocating it only if it is missing, and changes no translation |
| PageBuilder.PageTableBuilder.LeafTable | hal/hal-x86_64/src/memory.rs:388-413 | the walk from the root reaches the leaf table of the page, with exactly the missing tables of its path allocated top down |
| PageBuilder.PageTableBuilder.WriteLeaf | hal/hal-x86_64/src/memory.rs:417-421 | changes the entry of exactly one page |
| PageBuilder.PageTableBuilder.MapPage | hal/hal-x86_64/src/memory.rs:388-421 | keeps the tables a representation of the page map, which changes at exactly one page, or only in its tables when the pool runs out |
| PageBuilder.PageTableBuilder.MapUpTo | hal/hal-x86_64/src/memory.rs:564-582 | the mapping loop maps page after page until the first failure |
| PageBuilder.PageTableBuilder.SetupIdentityMapping | hal/hal-x86_64/src/memory.rs:555-585 | for every base and length the page map and the result are those of `MapRegion`: an empty region is refused, the pages from the rounded start to the rounded end are mapped, both sums wrapping at 64 bits, and the rounded start is returned |
| PageAddresses.AlignDown | hal/hal-core/src/memory.rs:66-68 | clearing the low bits rounds down to a multiple of 4096 |
| PageAddresses.AlignUp | hal/hal-core/src/memory.rs:70-72 | adding 4095 and masking, for every address; the sum wraps |
| PageAddresses.RoundsUp | hal/hal-core/src/memory.rs:70-72 | while the sum does not wrap the result is the least multiple of 4096 that is not below the address |
| PageAddresses.Indices | hal/hal-riscv64/src/memory.rs:418-423 | shifting and masking gives the base-512 digits of the page number, highest first |
| PageMap.GrowMeaning | hal/hal-x86_64/src/memory.rs:388-421 | a call adds exactly the missing tables of the page's path when they fit, and otherwise fills the pool and fails |
| PageMap.MapOneSound | hal/hal-x86_64/src/memory.rs:388-421 | every call keeps each table's parent present, tables distinct and every mapped page reachable |
| PageMap.MapAllDirs | hal/hal-x86_64/src/memory.rs:360-421 | any sequence of calls succeeds exactly when the old tables and those its pages need fit in the pool together, and these are then the tables there are |
| PageMap.MapAllPrefix | hal/hal-x86_64/src/memory.rs:360-421 | a failing sequence is a successful proper prefix followed by one call that changes no translation |
| PageMap.PoolAccounting | hal/hal-x86_64/src/memory.rs:360-421 | after a successful run from a fresh pool the counter is the number of distinct page prefixes, summed over the levels above the leaf |
| PageMap.FullPool | hal/hal-x86_64/src/memory.rs:360-421 | with the pool used up, a call allocates nothing and succeeds exactly on pages whose leaf table exists |
| PageMap.FullPoolForever | hal/hal-x86_64/src/memory.rs:360-421 | and the tables stay as they are over every later run |
| PageMap.RepeatIsIdle | hal/hal-x86_64/src/memory.rs:388-421 | repeating a successful sequence changes nothing at all |
| PageMap.OrderIsIrrelevant | hal/hal-x86_64/src/memory.rs:388-421 | two sequences on disjoint pages succeed in either order or in neither, with the same translation and the same tables |
| PageTables.LinkStep | hal/hal-x86_64/src/memory.rs:406-411 | linking a fresh zeroed table under an unused entry keeps the tables a representation of the page map |
| PageTables.LeafStep | hal/hal-x86_64/src/memory.rs:417-418 | writing a leaf entry represents the page map changed at that page only |
| PageTables.TablesFormTree | hal/hal-x86_64/src/memory.rs:360-421 | in every reachable state entries in use of non-leaf tables lead to used pool tables one level down, no table has two parents, the root has none, every used table has one |
| PageTables.WalkIsLookup | hal/hal-x86_64/src/memory.rs:388-421 | decoding the entries found in memory from the root down finds exactly the leaf in the page map |
| PageEntries.TableEntryRoundTrip | hal/hal-riscv64/src/memory.rs:431-442 | on all three formats a non-leaf entry decodes to the table it was made from, for every table address that fits the frame field |
| PageEntries.LeafPresent | hal/hal-arm64/src/memory.rs:421-426 | every leaf entry is in use |
| PageEntries.LayoutIsValid | hal/hal-x86_64/src/memory.rs:401-413 | with aligned, distinct table addresses the three formats meet what the builder needs |
| PageLeaves.X86LeafSum | hal/hal-x86_64/src/memory.rs:417-437 | the entry assembled by or-ing flags is the frame plus exactly the requested attribute bits |
| PageLeaves.ArmLeafSum | hal/hal-arm64/src/memory.rs:421-457 | the same for AArch64 |
| PageLeaves.Sv39LeafSum | hal/hal-riscv64/src/memory.rs:447-479 | the same for Sv39 |
| Mmu.HardwareAgrees | hal/hal-riscv64/src/memory.rs:418-479 | for every setting of the control bits, the walk of each architecture's manual on the built tables ends at the mapped frame with the accumulated rights where the hardware reaches the page, never stops early, and faults on every other page |
| PageRegions.MapPagesIsMapAll | hal/hal-x86_64/src/memory.rs:564-582 | the loop over a region is the sequence of its identity-map calls |
| PageRegions.EndPageExactly | hal/hal-x86_64/src/memory.rs:561-562 | the end page is the right one exactly when base, length and 4095 add up to less than 2^64 |
| PageRegions.WrappedRegion | hal/hal-x86_64/src/memory.rs:561-565 | otherwise at most the first page is mapped, and none if the region itself ends by 2^64 |
| PageRegions.LastPageIsNotMapped | hal/hal-x86_64/src/memory.rs:555-585 | a call that succeeds and maps nothing |
| PageTheorems.RegionAnywhere | hal/hal-x86_64/src/memory.rs:555-585 | any call, wherever its region lies: up to the page at which it stops each page is mapped as the last page of the region that the indices take for it, and nothing else changes; it fails only on an empty region or with the pool used up |
| PageTheorems.MapPagesAnywhere | hal/hal-x86_64/src/memory.rs:564-582 | the same for the loop over pages |
| PageTheorems.IdentityExactly | hal/hal-x86_64/src/memory.rs:555-585 | a successful call, for any 64-bit base and length, maps every page of its region to itself exactly when base and length add up to no more than the span of the indices |
| PageTheorems.SpanIsKept | hal/hal-x86_64/src/memory.rs:555-585 | no call maps a page past the span, which is what the statement above presumes |
| PageTheorems.PageZeroIsTaken | hal/hal-riscv64/src/memory.rs:418-423 | the first page past the span is mapped with success, as page 0 |
| PageTheorems.RegionEffect | hal/hal-x86_64/src/memory.rs:555-585 | for a region within the span: on success every page of the rounded region maps to itself with the requested permissions and no other page changes; on failure this holds of a proper prefix and the pool is used up; an empty region changes nothing |
| PageTheorems.RegionSucceeds | hal/hal-x86_64/src/memory.rs:555-585 | from any state and for any region, a call succeeds exactly when the region is not empty and the tables there are and the tables its pages need fit in the pool |
| PageTheorems.FreshRegionSucceeds | hal/hal-riscv64/src/memory.rs:556-576 | on a fresh pool a call within the span succeeds exactly when its region is not empty and the 2 MiB, 1 GiB and (four levels) 512 GiB blocks it touches number at most 16 |
| BootTheorems.PoolIsFullThere | hal/hal-x86_64/src/memory.rs:342-375 | on fresh tables, from address 0, 0x1C0_0000 bytes can be mapped on x86_64 and AArch64 and 0x1E0_0000 on Sv39, and one byte more cannot |
| PageTheorems.RegionIdempotent | hal/hal-x86_64/src/memory.rs:555-585 | mapping any region again allocates nothing and changes nothing |
| PageTheorems.RegionsCommute | hal/hal-x86_64/src/memory.rs:555-585 | any two regions whose pages the indices tell apart can be mapped in either order with the same outcome and the same pool counter |
| BootTheorems.RegionsEffect | hal/hal-x86_64/src/memory.rs:555-585 | after successful calls within the span exactly the covered pages are mapped, with the permissions of the last call on each |
| BootTheorems.RunCalls | hal/hal-x86_64/src/memory.rs:555-585 | any run of calls on the builder, failing and wrapping ones included, leaves tables that represent the page map of the run |
| BootTheorems.Boot | hal/hal-x86_64/src/memory.rs:388-437 | from fresh tables of any architecture through any run of calls whatever to memory: the hardware walk of every canonical address finds the frame that the last call to reach its page mapped there, with its rights, or faults |
| BootTheorems.RunMaps | hal/hal-x86_64/src/memory.rs:555-585 | over every run whatever, with failing, empty, wrapping and aliasing calls, the mapped pages are mapped as the last call that reached them says |
| BootTheorems.RunMapsIdentity | hal/hal-arm64/src/memory.rs:544-564 | over every run, failing and empty calls included, in which no region reaches past the span, what is mapped is mapped to itself |
| BootTheorems.HardwareAfterRun | hal/hal-arm64/src/memory.rs:393-460 | after every run of calls whatever, the hardware translates exactly the mapped pages it reaches, to the frame each was mapped to, and faults on all others |
| BootTheorems.SameTranslation | hal/hal-riscv64/src/memory.rs:418-452 | after the same successful calls two architectures translate an address below 2^38 alike exactly when both or neither serve its page |
| BootTheorems.RightsHonoured | hal/hal-arm64/src/memory.rs:431-460 | the exact condition, per architecture and control bits, for the granted rights to be the requested ones, reading included; never to user code |
| BootTheorems.PresetsHonoured | hal/hal-core/src/memory.rs:123-155 | which of the four presets are honoured where |
| BootTheorems.ReadOnlyDataLost | hal/hal-arm64/src/memory.rs:438-452 | a read-only page that is writable on AArch64; on x86_64 it faults without NXE and is writable without WP |
| BootTheorems.UnreadableIsRead | hal/hal-core/src/memory.rs:113-121 | a page asked for as not readable that can be read, on every architecture |
| BootTheorems.UncachedLost | hal/hal-riscv64/src/memory.rs:463-478 | a device page that is not uncached on Sv39 |
| BootTheorems.ProgrammedLimit | hal/hal-arm64/src/memory.rs:599-604 | the programmed TCR_EL1 leaves the output address size at 32 bits |
| BootTheorems.FourGibibytes | hal/hal-arm64/src/memory.rs:599-604 | with the limit that this register stands for, exactly the mapped pages whose frame is below 4 GiB are reached |
| BootTheorems.HighPageFaults | hal/hal-arm64/src/memory.rs:599-604 | the page at 4 GiB, mapped with success, faults |
| BootTheorems.AddressZeroEndsElsewhere | hal/hal-riscv64/src/memory.rs:418-423 | after one successful call for the page at 2^39 the Sv39 walk of address 0 ends there |
| Direct.VerifyToken | hal/hal-direct/src/lib.rs:200-251 | accepts exactly a token with the required scope that is not expired and passes the verifier |
| Direct.DirectAccess.MapMmioRegion | hal/hal-x86_64/src/direct.rs:61-90 | maps after verification only, for every range; a rejected call leaves tables and pool untouched |
| Direct.MapMmioRegions | hal/hal-x86_64/src/direct.rs:61-90 | a run of calls on the builder leaves the page map of that run |
| Direct.OnlyTouchedPages | hal/hal-x86_64/src/direct.rs:61-90 | over any run a page's translation changes only if an authorised call has a page that the indices take for it |
| Direct.OnlyAuthorisedPages | hal/hal-direct/src/lib.rs:89-93 | over any run in which no accepted call escapes, a page's translation changes only inside the page-rounded range of an authorised call |
| Direct.ConfinedExactly | hal/hal-direct/src/lib.rs:89-93 | a call changes only pages in its range, whatever page map it starts from, exactly unless it is accepted and its range escapes: it begins past page 0, reaches past the span, and begins past it or needs, with page 0, no more than the 16 tables to get there |
| PageTheorems.PassesSpan | hal/hal-x86_64/src/memory.rs:360-421 | a call gets past the end of the span exactly when the tables there are, those of its pages below the end and those of page 0 fit in the pool |
| PageTheorems.TablesPastSpan | hal/hal-riscv64/src/memory.rs:418-423 | the tables for the pages up to the end of the span and page 0 fit in the pool exactly when the blocks touched, and two or three tables more, number at most 16 |
| Direct.TokenReachesPageZero | hal/hal-x86_64/src/direct.rs:61-90 | an accepted token for the first page past the span, whose call maps page 0 |
| Direct.RejectedCallsAreIdle | hal/hal-x86_64/src/direct.rs:61-90 | dropping the rejected calls of a run does not change its outcome |
| Direct.ExpiryIsFinal | hal/hal-direct/src/lib.rs:206-208 | while time does not run backwards an expired token is rejected for ever |
| Direct.ClockRunsUntilItWraps | hal/hal-x86_64/src/direct.rs:54-57 | the clock the calls read meets that condition, for all calls up to a tick, exactly while the reported time has not wrapped |
| Direct.ExpiredTokenReturns | hal/hal-direct/src/lib.rs:206-208 | after the wrap an expired token is accepted again |
| FdtFormat.FlattenHolds | hal/hal-riscv64/src/memory.rs:62-92 | every token list with good names has a blob that holds it, so the walker's requirement is met by an encoder |
| FdtScan.TrackedBody | hal/hal-riscv64/src/memory.rs:255-334 | inside a tracked node every property at any depth is taken for that node, and depth and tracking come back to where they were |
| FdtScan.ScanOfTree | hal/hal-riscv64/src/memory.rs:236-345 | the walk of any single-root tree, with NOPs anywhere, ends at depth 0 with nothing tracked |
| FdtScan.WhatIsFound | hal/hal-riscv64/src/memory.rs:255-334 | for every tree, exactly when memory, PLIC and IOMMU are found, and which base and size: those of the last `reg` in document order that is long enough |
| FdtScan.UnnamedRoot | hal/hal-riscv64/src/memory.rs:255-334 | with an unnamed root nothing but the IOMMU is ever found, and that exactly when some node is compatible with one |
| FdtScan.MemoryNodeMissed | hal/hal-riscv64/src/memory.rs:188-193 | a tree with a memory node that the walker does not find, though it would if that node were the root |
| FdtScan.NodeNames | hal/hal-riscv64/src/memory.rs:255-275 | a node is the memory exactly if it is named "memory" or its name begins with "memory@", the PLIC exactly if it begins with "plic@" |
| FdtScan.Spelling | hal/hal-riscv64/src/memory.rs:290-334 | the property names looked for are "reg" and "compatible", and the five bytes looked for in the latter's value are "iommu" |
| FdtWalk.TokenCodes | hal/hal-riscv64/src/memory.rs:95-99 | the bytes of the token codes and of the magic number |
| FdtWalk.SampleIsRead | hal/hal-riscv64/src/memory.rs:200-347 | a blob, byte by byte, in which the walk finds 0x1000_0000 bytes at 0x8000_0000 |
| FdtWalk.FdtWalker.ReadCstrAt | hal/hal-riscv64/src/memory.rs:150-162 | the bytes up to the next NUL |
| FdtWalk.FdtWalker.AlignOffset | hal/hal-riscv64/src/memory.rs:166-168 | masking rounds the cursor up to a multiple of four |
| FdtWalk.AnyIommuWindow | hal/hal-riscv64/src/memory.rs:322-330 | true exactly when the bytes "iommu" occur in the value |
| FdtWalk.TakeToken | hal/hal-riscv64/src/memory.rs:236-345 | one turn of the loop consumes exactly one encoded token, names, values and padding included, and makes its step |
| FdtWalk.WalkDeviceTree | hal/hal-riscv64/src/memory.rs:200-347 | on a blob that holds a token list the walk takes exactly those tokens in order and stops at the end marker; without the magic number it finds nothing |
| FdtWalk.FromDeviceTree | hal/hal-riscv64/src/memory.rs:500-537 | for every tree, with NOPs anywhere, the region, the IOMMU flag and the PLIC base are what the walk finds or else the defaults; with an unnamed root region and PLIC base are always the defaults |
| IrqContract.PerformKeepsPromises | hal/hal-core/src/interrupt.rs:93-124 | what each call promises about its own line, its answer and every other line |
| IrqContract.AcceptsReportedNumbers | hal/hal-core/src/interrupt.rs:96-98 | a controller accepts exactly the numbers below its reported count if and only if its lines start at 0 and are that many |
| Plic.PlicDriver.IrqLineCount | hal/hal-riscv64/src/interrupt.rs:307-309 | every accepted number is below the reported count, and of those below it only 0 is not accepted |
| Gic.GicDriver.IrqLineCount | hal/hal-arm64/src/interrupt.rs:388-390 | accepted although not below the reported count are exactly 480 to 511; below it and not accepted exactly 0 to 31 |
| IrqContract.MockInterruptController.RegisterIrq | hal/hal-core/src/interrupt.rs:202-214 | the mock does what the contract says |
| IrqContract.MockInterruptController.UnregisterIrq | hal/hal-core/src/interrupt.rs:216-222 | the mock does what the contract says |
| IrqContract.MockInterruptController.MaskIrq | hal/hal-core/src/interrupt.rs:224-231 | the mock does what the contract says |
| IrqContract.MockInterruptController.UnmaskIrq | hal/hal-core/src/interrupt.rs:233-240 | the mock does what the contract says |
| IrqContract.MockInterruptController.EndOfInterrupt | hal/hal-core/src/interrupt.rs:258-260 | the mock does what the contract says |
| IrqContract.LinesAreIndependent | hal/hal-core/src/interrupt.rs:92-124 | after any calls a line is what the calls on that line alone make of it |
| IrqContract.OneHandlerPerLine | hal/hal-core/src/interrupt.rs:99-103 | a line's handler is the first one registered since the line was last free |
| IrqContract.ControllersAnswerAlike | hal/hal-core/src/interrupt.rs:86-91 | the same calls, in each controller's own numbering, get the same answers and leave the same lines |
| IrqHistory.ServicedIsOrderly | hal/hal-riscv64/src/interrupt.rs:454-480 | servicing keeps the discipline whatever calls the handler makes |
| IrqHistory.CompletionHasClaim | hal/hal-riscv64/src/interrupt.rs:315-330 | in every orderly history a completion names the last claim, with no claim or completion between |
| IrqHistory.ClaimIsCompleted | hal/hal-riscv64/src/interrupt.rs:454-480 | every claim is completed once, with the same number, before anything else is claimed, unless it is the one still open |
| IrqHistory.ClaimsAndCompletions | hal/hal-arm64/src/interrupt.rs:473-508 | number by number claims and completions are equally many, but for the one still open |
| IrqHistory.LinesFollowCalls | hal/hal-arm64/src/interrupt.rs:473-508 | dispatch itself changes no handler and no mask |
| IrqHistory.RightHandlerRuns | hal/hal-riscv64/src/interrupt.rs:470-476 | a handler runs only right after the claim of its line, and is the one that the calls so far have registered |
| IrqHistory.HandlerIsNotSkipped | hal/hal-arm64/src/interrupt.rs:497-505 | a claimed line with a handler always gets it run |
| PlicHistory.WaitsWhileOpen | hal/hal-riscv64/src/interrupt.rs:454-480 | a claimed source stays in service until its completion, unless its handler has ended it through the trait while it was not masked |
| PlicHistory.RetiredUnlessMasked | hal/hal-riscv64/src/interrupt.rs:315-330 | after its completion the hardware keeps a source in service exactly when its line is masked at that moment and its handler has not ended it before |
| PlicHistory.StaysWaiting | hal/hal-riscv64/src/interrupt.rs:454-480 | such a source is never claimed again, even if unmasked or registered again, until someone ends it through the trait while it is not masked |
| PlicHistory.EndReleases | hal/hal-riscv64/src/interrupt.rs:315-330 | and that retires it |
| PlicHistory.HandlerMasksItself | hal/hal-riscv64/src/interrupt.rs:257-268 | a handler that masks its own line leaves its source in service |
| Plic.DriverFindsRegisters | hal/hal-riscv64/src/interrupt.rs:44-68 | the priority word of source n is at 4n, its enable word for context 1 at 0x2080 + 4(n / 32), threshold and claim at 0x20_1000 and 0x20_1004 |
| Plic.NothingEnabled | hal/hal-riscv64/src/interrupt.rs:204-221 | words that were never written enable no source |
| Plic.PlicDriver.BootstrapCurrentCore | hal/hal-riscv64/src/interrupt.rs:348-371 | sets the threshold to 0 and leaves everything else as it was |
| Plic.PlicDriver.Deliverable | hal/hal-riscv64/src/interrupt.rs:348-371 | from then on a line with a handler can be claimed exactly when its source is pending and it is not masked |
| Plic.PlicDriver.DispatchInOrder | hal/hal-riscv64/src/interrupt.rs:454-480 | one dispatch keeps the history orderly; with the threshold at 0 it is spurious only if no unmasked line with a handler is pending |
| Plic.PlicDriver.SetEnabled | hal/hal-riscv64/src/interrupt.rs:204-221 | the read-modify-write changes one source's enable bit, in the word where the device has it, and no other word or source |
| Plic.PlicDriver.RegisterIrq | hal/hal-riscv64/src/interrupt.rs:225-246 | refines the contract; on success bit n % 32 of the word at 0x2080 + 4(n / 32) is set and the word at 4n is 1; every registered source has priority 1 |
| Plic.PlicDriver.UnregisterIrq | hal/hal-riscv64/src/interrupt.rs:248-255 | refines the contract |
| Plic.PlicDriver.MaskIrq | hal/hal-riscv64/src/interrupt.rs:257-268 | refines the contract |
| Plic.PlicDriver.UnmaskIrq | hal/hal-riscv64/src/interrupt.rs:270-277 | refines the contract |
| Plic.PlicDriver.EndOfInterrupt | hal/hal-riscv64/src/interrupt.rs:315-330 | the number is written back once, which retires the source unless its line is masked, and changes no line |
| Plic.PlicDriver.Serve | hal/hal-riscv64/src/interrupt.rs:225-330 | over every sequence of calls, lines and answers are those of the contract |
| Plic.PlicDriver.DispatchExternal | hal/hal-riscv64/src/interrupt.rs:454-480 | a spurious claim does nothing; a claim runs the line's handler, if there is one, and is completed with the same number |
| Plic.PlicDriver.Run | hal/hal-riscv64/src/interrupt.rs:423-494 | over every run of device, kernel and dispatch steps the history grows by what each step does, is orderly, and accounts for handlers, enable bits and what is in service |
| Plic.MasksAfter | hal/hal-riscv64/src/interrupt.rs:204-221 | one changed enable bit changes one line's mask |
| Gic.GicDriver.SetLine | hal/hal-arm64/src/interrupt.rs:313-360 | one write to a set or a clear register changes one interrupt's enable bit and no other |
| Gic.GicDriver.ConfigureSpi | hal/hal-arm64/src/interrupt.rs:256-292 | sets priority, route and enable bit of one SPI; the four-wide priority write leaves every configured neighbour configured |
| Gic.BytesOfWord | hal/hal-arm64/src/interrupt.rs:256-292 | the four priorities of a word are its bytes, lowest first |
| Gic.NothingEnabled | hal/hal-arm64/src/interrupt.rs:313-360 | words that were never written enable no interrupt |
| Gic.GicDriver.RegisterIrq | hal/hal-arm64/src/interrupt.rs:296-311 | refines the contract; on success the SPI is enabled and has priority 0x80 and route 0 where the device keeps them; every registered SPI keeps these |
| Gic.GicDriver.UnregisterIrq | hal/hal-arm64/src/interrupt.rs:313-326 | refines the contract |
| Gic.GicDriver.MaskIrq | hal/hal-arm64/src/interrupt.rs:328-346 | refines the contract |
| Gic.GicDriver.UnmaskIrq | hal/hal-arm64/src/interrupt.rs:348-360 | refines the contract |
| Gic.GicDriver.EndOfInterrupt | hal/hal-arm64/src/interrupt.rs:396-403 | the number is written once, the interrupt is no longer active, and no line changes |
| Gic.GicDriver.Serve | hal/hal-arm64/src/interrupt.rs:296-403 | over every sequence of calls, lines and answers are those of the contract |
| Gic.GicDriver.DispatchCurrentIrq | hal/hal-arm64/src/interrupt.rs:473-508 | spurious reads are not ended; the timer's interrupt goes to its callback, an SPI to its handler; what was acknowledged is ended once and nothing stays active |
| Gic.GicDriver.Run | hal/hal-arm64/src/interrupt.rs:473-508 | over every run the history grows by what each step does and is orderly, and no interrupt is left active that was not so before |
| PciAddress.EcamReaches | hal/hal-arm64/src/compute.rs:44-65 | the ECAM address of a register decodes to that register |
| PciAddress.PortReaches | hal/hal-x86_64/src/compute.rs:44-66 | the word for the address port decodes to that register |
| PciConfig.ReadConfig | hal/hal-arm64/src/compute.rs:59-65 | both ways of access read the register that is named |
| PciConfig.WriteConfig | hal/hal-x86_64/src/compute.rs:155-162 | both ways of access write the register that is named, and only its writable bits |
| PciConfig.WriteBackRestores | hal/hal-arm64/src/compute.rs:121-144 | writing anything and then the old value restores a register, whichever bits are writable |
| PciConfig.ProbeBarSize | hal/hal-arm64/src/compute.rs:118-152 | leaves configuration space as it was, and returns the size that the bits read back stand for, or nothing for an I/O or absent register |
| PciConfig.BarSizeIs | hal/hal-arm64/src/compute.rs:118-152 | a memory region of 2^k bytes is sized as 2^k below 2^32 and as 2^32 from there on |
| PciConfig.SizeReportedExactly | hal/hal-arm64/src/compute.rs:118-152 | the reported size is the true one exactly up to 2^32 bytes |
| PciConfig.LargeRegionMisreported | hal/hal-arm64/src/compute.rs:150-151 | a register of 2^33 bytes that is reported as 2^32 |
| PciConfig.WithoutSize | hal/hal-arm64/src/compute.rs:118-152 | there is no size exactly for a register that is an I/O one, is not there or is not implemented |
| PciConfig.MergeBits | hal/hal-arm64/src/compute.rs:121-144 | a write changes exactly the writable bits of a register |
| PciConfig.SizesToldApart | hal/hal-arm64/src/compute.rs:150-152 | two regions are told apart exactly when the smaller is below 2^32 bytes |
| PciScan.ReadPciHeader | hal/hal-arm64/src/compute.rs:89-109 | the header's fields, each from its place in the dwords at 0, 8 and 0xC, or nothing for a function whose vendor reads 0xFFFF |
| PciScan.WhatIsCompute | hal/hal-arm64/src/compute.rs:162-182 | a function is a compute device exactly when it and function 0 answer, function 0 has bit 23 of its dword at 0xC set unless it is the function itself, and the top byte of its dword at 8 is 0x03 or 0x12 or its vendor is 0x1AE0 |
| PciScan.WhatIsRecorded | hal/hal-arm64/src/compute.rs:249-269 | the kind by that top byte or else Tpu, the vendor from the low half of dword 0, and the probed size of the register at 0x10 |
| PciScan.EligiblesAreAll | hal/hal-arm64/src/compute.rs:220-244 | the scan's list holds exactly the functions that are present, classified and, past function 0, announced by the multifunction bit |
| PciScan.EligiblesAscend | hal/hal-arm64/src/compute.rs:220-244 | in (bus, device, function) order, without repetition |
| PciScan.StoppedFull | hal/hal-arm64/src/compute.rs:245-247 | leaving all three loops at the 33rd device keeps the first 32 |
| PciScan.ScanFunction | hal/hal-arm64/src/compute.rs:234-273 | one function is recorded, skipped or found to have no room |
| PciScan.ScanFunctions | hal/hal-arm64/src/compute.rs:232-274 | the functions that the multifunction bit announces, or the table is full |
| PciScan.ScanDevice | hal/hal-arm64/src/compute.rs:221-275 | all functions of a device: afterwards the table is that of the scan up to the next device, or is full |
| PciScan.BusScan | hal/hal-x86_64/src/compute.rs:222-277 | the table holds exactly the first 32 compute devices in order, with their sizes, and zeros after them; configuration space is as it was |
| PciScan.ComputeDiscovery.constructor | hal/hal-arm64/src/compute.rs:216-282 | the new table is that of a scan |
| PciScan.ComputeDiscovery.Rescan | hal/hal-arm64/src/compute.rs:297-310 | the table matches the configuration space of now, whatever the filter; the error cannot occur |
| PciScan.ComputeDiscovery.DeviceByIndex | hal/hal-arm64/src/compute.rs:312-316 | finds the first device for index 0 and nothing else |
| UefiMap.DescriptorIter.Next | hal/hal-x86_64/src/memory.rs:186-207 | takes the next descriptor off what is left, or stops |
| UefiMap.DescriptorI | hal/hal-x86_64/src/memory.rs:186-207 | descriptor i is read at i strides |
| UefiMap.DescriptorCount | hal/hal-x86_64/src/memory.rs:189-192 | there are as many as whole strides fit, none for a stride below 40 |
| UefiMap.DescriptorsOfSlots | hal/hal-x86_64/src/memory.rs:186-207 | every slot of a map is seen once, in order, for any stride and any leftover bytes |
| UefiMap.DecodeEncodedMap | hal/hal-x86_64/src/memory.rs:99-106 | decoding an encoded map recovers its descriptors whatever the vendor tails hold |
| UefiMap.EncodedMapIs | hal/hal-x86_64/src/memory.rs:461-470 | the same for a whole blob with its header |
| UefiMap.FirmwareReadsBack | hal/hal-x86_64/src/memory.rs:461-470 | a blob put together from its parts is read back: the size of the map in 8 bytes at 0, the stride in 8 at 8, the descriptors from 16 on, the root pointer's address behind the map |
| UefiMap.RegionDescribes | hal/hal-x86_64/src/memory.rs:475-491 | a region begins at the descriptor's physical start, has 4096 bytes for each page up to the wrap at 64 bits, and is of the kind that its type number stands for |
| Acpi.TablesAreThose | hal/hal-x86_64/src/memory.rs:272-287 | where memory holds a root table, with its address 24 bytes into the root pointer, its length at 4 and addresses of 8 bytes from 36 on, the tables listed are exactly those |
| Acpi.NoTables | hal/hal-x86_64/src/memory.rs:261-275 | none are listed without a root pointer or a root table |
| Acpi.AcpiDmarPresent | hal/hal-x86_64/src/memory.rs:251-296 | true exactly when some table listed by the root table begins with the letters DMAR |
| Acpi.AnyNamed | hal/hal-x86_64/src/memory.rs:278-296 | its loop over the root table's addresses: true exactly when one of them is a table with the signature |
| Acpi.AcpiDiscover | hal/hal-arm64/src/memory.rs:222-262 | on memory that holds a root table: the SMMU is found exactly when a table begins with IORT; no distributor when none begins with APIC, and otherwise the first one in the entries of the last such table |
| Acpi.TellsNext | hal/hal-arm64/src/memory.rs:245-258 | each further table changes what is known as it should |
| UefiMap.Memory.FromUefiMemoryMap | hal/hal-x86_64/src/memory.rs:461-521 | the regions describe the first 64 descriptors, in order, field by field, all behind the IOMMU or none, as the tables that the trailing root pointer leads to say |
| UefiMap.Memory.Track | hal/hal-x86_64/src/memory.rs:475-491 | takes descriptors until there is no room or there are no more |
| Manifest.HardwareManifestRaw.PushMemoryRegion | hal/hal-manifest/src/raw.rs:435-443 | appends, or changes nothing when full |
| Manifest.HardwareManifestRaw.PushComputeDevice | hal/hal-manifest/src/raw.rs:447-460 | appends with the position as index, or changes nothing when full; every device's index is its position |
| Manifest.HardwareManifestRaw.PushPowerDomain | hal/hal-manifest/src/raw.rs:463-471 | appends, or changes nothing when full |
| Manifest.BuiltHardwareManifest | hal/hal-x86_64/src/memory.rs:634-692 | holds every tracked region, every device of the scan and the first 16 power domains, in order, the interrupt controller, the timer and the cores as found, and the IOMMU among the features exactly if there is one |
| Manifest.FromRaw | hal/hal-manifest/src/lib.rs:358-390 | keeps every record, field by field and in order; device i has index i |
| Manifest.TotalUsableMemoryBytes | hal/hal-manifest/src/lib.rs:396-402 | the loop computes the wrapping sum over usable regions |
| Manifest.UsableBytes | hal/hal-x86_64/src/memory.rs:134-173 | the total is 4096 times the pages of descriptors of types 1, 2, 3, 4 and 7, up to the wrap at 64 bits |
| Manifest.UsableBytesAreExact | hal/hal-manifest/src/lib.rs:396-402 | the total is exact if and only if there are less than 2^64 usable bytes |
| Manifest.UsableOfFirmware | hal/hal-x86_64/src/memory.rs:461-521 | on every valid map and every configuration space, through all functions: regions and total are those of the first 64 descriptors, device i is the i-th compute device of the bus with index i, and the IOMMU feature says whether the tables describe one |
| Manifest.UsableOfEncodedMap | hal/hal-manifest/src/lib.rs:358-402 | on every blob put together from its parts the manifest's regions describe the first 64 descriptors, and its total is 4096 times their free pages up to the wrap, exact if and only if that is below 2^64 |
| Manifest.SmallStride | hal/hal-x86_64/src/memory.rs:189-192 | a stride below 40 gives no regions and no memory |
| Madt.FindGicdInMadt | hal/hal-arm64/src/memory.rs:270-298 | for tables up to 0xFFFF_FF01 bytes the walk ends on any memory and returns what following the length bytes finds |
| Madt.WalkEndsExactly | hal/hal-arm64/src/memory.rs:278-295 | the walk ends on every memory exactly up to that length; beyond it the 32-bit offset can wrap and go round for ever |
| Madt.FindsFirstDistributor | hal/hal-arm64/src/memory.rs:270-298 | for every encoded table the result is the base of the first entry of type 0x0C, or nothing exactly when there is none before the end or an entry without length |
| Timer.ClockRunsForwards | hal/hal-core/src/timer.rs:89-99 | the reported time does not run backwards up to a tick exactly when it has not wrapped by then |
| Timer.ClockRunsBackwards | hal/hal-riscv64/src/timer.rs:183-186 | the 10 MHz clock reports 100 ns at tick 1 and 0 ns at tick 2^63 |
| Timer.TicksFit | hal/hal-arm64/src/timer.rs:156-158 | the conversion loses no bits exactly below 2^64 ticks |
| Timer.WithinATick | hal/hal-x86_64/src/timer.rs:286-292 | the two-sided bound: at the deadline's tick the time is at most the deadline and short of it by less than one tick and one nanosecond |
| Timer.FiresRightExactly | hal/hal-x86_64/src/timer.rs:301-339 | on every source the armed interrupt is up past the deadline and at most a tick before it, exactly when the deadline's tick fits the register and, on the time-stamp counter, is not zero |
| Timer.FiresOnTimeExactly | hal/hal-core/src/timer.rs:101-104 | it comes and is not early exactly when, besides, the deadline falls on a tick |
| Timer.DisarmedExactly | hal/hal-x86_64/src/timer.rs:301-345 | a deadline leaves the timer disarmed exactly on the time-stamp counter and when it falls less than a tick past a multiple of the register's span |
| Timer.NeverInThePastExactly | hal/hal-riscv64/src/timer.rs:177-214 | while the clock has not wrapped no accepted deadline is armed in the past, exactly when it fits the register or is cut to the last tick |
| Timer.PastAfterTheWrap | hal/hal-riscv64/src/timer.rs:188-214 | once the clock has wrapped every accepted deadline is armed in the past |
| Timer.EarlyDeadline | hal/hal-core/src/timer.rs:101-104 | an accepted deadline of 150 ns that comes at 100 ns |
| Timer.FarDeadlineIsCut | hal/hal-core/src/timer.rs:116-118 | an accepted deadline that is cut to tick 0: it fires at once, or disarms the time-stamp timer |
| Timer.ShortDeadlineDisarms | hal/hal-x86_64/src/timer.rs:301-339 | an accepted deadline of 1 ns that disarms the time-stamp timer |
| Timer.ShortDeadlineNeedsTickZero | hal/hal-x86_64/src/timer.rs:319-323 | before the wrap a deadline short of the first tick is accepted only at tick 0 and below 1 GHz |
| Timer.Timer.SetOneshot | hal/hal-riscv64/src/timer.rs:188-214 | a time-stamp counter without deadline mode and an SBI without the timer call refuse every deadline, the others exactly those that are not ahead; which tick is armed; a refused call changes nothing |
| Timer.Timer.CancelOneshot | hal/hal-arm64/src/timer.rs:196-209 | after it the interrupt is up at no tick before the counter's last value |
| Timer.Timer.SetTickless | hal/hal-x86_64/src/timer.rs:352-358 | enabled only where the hardware can arm deadlines |

## Left out

- PageTheorems.RegionEffect: is about regions within the span of the indices, where pages map to themselves; `PageTheorems.RegionAnywhere` is about all regions.
- PageTheorems.FreshRegionSucceeds: the count of blocks is for regions within the span; `PageTheorems.RegionSucceeds` is about all regions.
- BootTheorems.RegionsEffect: covered pages are those of regions within the span; `BootTheorems.RunMaps` is about all runs.
- BootTheorems.SameTranslation: compares architectures on regions within both spans; `BootTheorems.HardwareAfterRun` gives the translation of each for all runs.
- Addresses: the hardware walks are stated for canonical low addresses: below 2^47 on x86_64, 2^48 on AArch64 and 2^38 on Sv39.
- Table addresses: the root and the pool tables are assumed aligned to 4096, distinct, reachable at the physical addresses the entries hold, and below 2^52, 2^48 and 2^56 respectively. Where the linker puts them is not part of this model.
- PageBuilder.PageTableBuilder.Deref: stands for following a raw pointer to one of the 17 tables; the class has the address of each.
- Control registers: the walks take IA32_EFER.NXE, CR0.WP, SCTLR_EL1.WXN and the bound on physical addresses as parameters. The page attribute table of x86_64 is as at reset, MAIR_EL1 as the code programs it; protection keys are not modelled.
- Sv39 dirty and accessed bits are set in advance by the builder; the walk of the manual faults without them, and no update by hardware is modelled. On AArch64, hierarchical attributes and the access flag are modelled, shareability and the memory types behind the attribute index other than device and normal are not.
- Memory ordering, caches of translations, `activate_page_tables` and everything in assembly.
- Direct.VerifyToken: the signature scheme is a parameter, any predicate on tokens; the bytes of `with_signature` are part of the token's identity only. Only the MMIO operation of the four is modelled.
- FdtWalk.WalkDeviceTree: blobs with the magic number must hold a well-formed token list; unknown tokens, truncated blobs and offsets outside the blob are not modelled. The bytes of the header that the walker does not read are free.
- Interrupts during a handler and several harts: a dispatch is one step, and a line that goes up meanwhile counts as raised after it. Priorities other than the ones the drivers write, and the order in which a device prefers pending sources, are left open: any deliverable one may be claimed.
- Plic.PlicDriver.DispatchExternal: only the external-interrupt cause; the timer and software causes touch no controller state.
- Gic.GicDriver.DispatchCurrentIrq: interrupt numbers above 1023 (LPIs) do not occur in the device model, since nothing enables them. The bring-up of the CPU interface and the timer's own enable bit are whatever the device starts with.
- Gic.GicDriver.EndOfInterrupt: ends one interrupt in the model, whichever was acknowledged last; dropping the running priority out of order is not modelled.
- `send_ipi`, topology and detection accessors, and the x86_64 interrupt controller, whose mask and unmask do nothing.
- PciScan.BusScan: the three nested loops with a labelled break are three methods that hand `full` outwards. Capabilities, bridges and bandwidth are not read by the source either.
- PciConfig.HostBridge: reads have no side effects and registers do not change by themselves during a scan.
- Acpi.AcpiDmarPresent and Acpi.AcpiDiscover require the root table to be at least as long as its header; the checksums and the finding of the root pointer itself are the boot stub's.
- Madt.FindGicdInMadt: table lengths up to 0xFFFF_FF01; beyond, the walk need not end, and there is no method to state.
- Manifest.BuiltHardwareManifest: what the interrupt controller, the timer and the power manager report are parameters; core count and features come from a processor record.
- Manifest.FromRaw: names, capability tokens and bandwidths of devices are left out. The intended association of power domains with devices is not stated, because the code does not establish it.
- Timer.Timer.SetOneshot: the counter is read once per call; frequencies are positive. Calibration of the time-stamp counter and the timer callback cell are not modelled.
- hal/hal-riscv64/src/compute.rs, hal/hal-arm64/src/direct.rs, hal/hal-riscv64/src/direct.rs: copies of modelled code. The power managers are simple filters.
