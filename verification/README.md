# JOS memory, environments, text output: a Dafny model

This project models the parts of the JOS kernel and its library where state, arithmetic and several functions meet,
and proves what they keep over every input and every run.

* **Memory** (`Mmu`, `Phys`, `PhysInv`, `PageOps`, `FlatMap`, `FreeList`, `PhysMem`, `Boot`, `Partition`, `Supply`,
  `BootSupply`, `Overflow`). `Phys.State`
  is physical memory, the 16-bit reference counts and the free list as a value. `Phys.Consistent` is the one global
  invariant: each count equals the number of *sites* that refer to the frame (its reserved mark, counted directory
  entries, present user entries, its use as an environment's directory), and the free list is, with the frames a caller
  holds, exactly the frames of count zero. `PhysMem.Pages` is the same thing as `kern/pmap.c` runs it: `pages[]` with
  links and counts, and frames of 1024 words, updated in place. Each of its methods is proved equal to the function
  of `Phys` it stands for, and the lemmas prove what those functions do.
* **Address spaces and environments** (`AddrSpace`, `Regions`, `Loader`, `EnvIds`, `Envs`, `EnvTable`, `EnvLoad`,
  `LoadSupply`, `Start`, `Access`). Building, filling, loading and tearing down address spaces; the environment table; runs of any
  page and environment operations from boot on; what user code reaches through its tables.
* **TLB** (`Tlb`, `TlbLoad`, `TlbRuns`). A processor whose TLB may take up any present translation after every store.
* **Smaller algorithms**: the stab search (`Stabs`), overlapping copies (`Memory`), the text screen (`Console`), the
  formatter, its sinks and the number parser (`Format`, `Printf`, `Directives`, `Sinks`, `Strtol`, `Numerals`).

Code that mutates is imperative here too: classes `PhysMem.Pages`, `EnvTable.Table`, `Console.Cga`, `Sinks.Sprint`,
`Sinks.Print`, and methods with the loops of the source. A pointer to a `struct PageInfo` or `struct Env` is its index,
-1 for NULL. A directory is named by its frame; page `(p, q)` is entry `q` of the table at directory entry `p`. Ghost
state says what a frame is used for (`role`) and which frames a caller holds (`held`).

Where the code departs from its comments, the model follows the code:

* `region_alloc` rounds `len` and not `va + len` (`Regions.RegionCoversIff` says exactly when that is enough).
* `user_mem_check` accepts any bit of `perm`, and `va + len` may wrap (`Access.OneBitIff`, `Access.UserMemCheckIff`).
* `pp_ref` is 16 bits wide and `page_insert` does not look (`FlatMap.InsertKeepsIff`, `Overflow.OverflowHappens`).
* The null-link test of `page_free` misses exactly one frame on the list, its tail (`FreeList.TailLooksTaken`).
* The last mapping of `mem_init` has the size `(2^32) - KERNBASE`, where `^` is exclusive or (`Boot.LastSizePages`).
* `stab_binsearch` returns left > right only when the region holds no entry of the type at all. It ends past the right
  entry exactly when, at its first exact match, an entry at `addr + 1` still lies to the right in the interval
  (`Stabs.Drifting`, and the contract of `Stabs.StabBinsearch`); where it ends then is `Stabs.EndsAt`, and
  `Stabs.SmallestDrift` is the smallest table.
* `load_icode` stores into the directory it has loaded. Where a segment page was mapped before, its old translation is
  stale between the store and the `invlpg` of `page_remove`, and only then (`TlbLoad.LoadCoherent`).
* `envid2env` with checkperm reads through `curenv` when there is none (`Envs.Envid2EnvPermitted`).
* The header of `lib/printfmt.c` says that padding and width are for numbers only; strings take them too
  (`Format.StringWidth`). The `-` flag, which is meant to pad on the right, pads numbers with minus signs on the left
  (`Strtol.DashPadding`).
* The comment in `lib/printf.c` speaks of 256 characters at a time; chunks hold 255 (`Sinks.Vcprintf`).

## Model

| member | source | states |
|---|---|---|
| `PhysMem.Pages.constructor` | kern/pmap.c:143-167 | before `page_init`: zeroed counts, no free frame, a kernel directory that holds only its self map |
| `Boot.PageInit` | kern/pmap.c:271-313 | the loop leaves `Booted`: count 1 for exactly frame 0, the I/O hole and the boot heap, every other frame on the free list once |
| `Boot.BootedConsistent` | kern/pmap.c:271-313 | that state satisfies the global invariant |
| `Boot.FreeFramesNoDup` | kern/pmap.c:305-311 | the list that `page_init` threads has no duplicates |
| `Boot.FreeAtBoot` | kern/pmap.c:290-311 | in frame numbers: exactly 1 to 159, and what lies above frame 256 and the boot heap |
| `PhysMem.Pages.PageAlloc` | kern/pmap.c:327-345 | takes exactly the head of the list, zeroed if asked and else with its contents; NULL and no change when the list is empty |
| `PhysInv.AllocKeeps` | kern/pmap.c:327-345 | allocation keeps the invariant, and the frame handed out is referred to from nowhere |
| `PhysMem.Pages.PageFree` | kern/pmap.c:351-361 | pushes the frame; neither panic can happen to a frame of count 0 that is not on the list |
| `FreeList.TailLooksTaken` | kern/pmap.c:356 | the null-link test tells every free frame from the others, but for the tail of the list |
| `FreeList.DoubleFreeCycle` | kern/pmap.c:356-360 | and when the tail is freed again, the links spell out no list any more |
| `PhysInv.FreeKeeps` | kern/pmap.c:351-361 | returning a held frame keeps the invariant |
| `PhysMem.Pages.PageDecref` | kern/pmap.c:367-372 | one reference less; the frame is pushed exactly when that was the last |
| `PhysInv.DecrefKeeps` | kern/pmap.c:367-372 | giving up a reference keeps the invariant; the count was positive |
| `PhysMem.Pages.PgdirWalk` | kern/pmap.c:396-436 | points at the entry for `va`, makes the table on demand, NULL exactly when there is none to return; panics exactly when a present entry names a frame outside `pages[]` |
| `FlatMap.WalkRuns` | kern/pmap.h:41-46 | which no directory of a consistent state does |
| `PageOps.MakeTableKeeps` | kern/pmap.c:413-430 | hanging a fresh table off an entry keeps the invariant and moves one frame from free to referenced |
| `PageOps.WalkKeeps` | kern/pmap.c:396-436 | the walk keeps the invariant and ends at a table that belongs to that very entry |
| `FlatMap.MakeTableMap` | kern/pmap.c:413-430 | creating a table changes no translation of any directory |
| `PhysMem.Pages.PageLookup` | kern/pmap.c:518-530 | the frame mapped at `va` and where its entry is; panics exactly when that frame, or the table, is not in `pages[]` |
| `FlatMap.UserLookupRuns` | kern/pmap.h:75-81 | which no page below UTOP can bring about |
| `PhysMem.Pages.CheckVa2pa` | kern/pmap.c:847-859 | the physical address that the flat map gives the page of `va`, or ~0; panics where `pgdir_walk` does |
| `PhysMem.Pages.PageRemove` | kern/pmap.c:547-564 | keeps the invariant, never panics, and has the effect of `Phys.Remove` |
| `PageOps.RemoveKeeps` | kern/pmap.c:547-564 | exactly one reference goes: the entry that was cleared |
| `FlatMap.RemoveMap` | kern/pmap.c:547-564 | one key is deleted; every other key of every directory stays |
| `FlatMap.RemoveCounts` | kern/pmap.c:547-564 | one count drops by one, and the frame is freed exactly when it drops to 0 |
| `PhysMem.Pages.PageInsert` | kern/pmap.c:490-505 | 0 and the effect of `Phys.Insert`, or -E_NO_MEM and no change at all; keeps the invariant |
| `PageOps.InsertKeeps` | kern/pmap.c:490-505 | insertion keeps the invariant while the count stays below 65535 |
| `FlatMap.InsertMap` | kern/pmap.c:490-505 | one key is set to the frame and `perm` with PTE_P; every other key of every directory stays |
| `FlatMap.InsertCounts` | kern/pmap.c:490-505 | the new frame gains a reference, the old one loses one, a new table gets one, no other count changes |
| `FlatMap.ReinsertKeepsCounts` | kern/pmap.c:475-503 | re-inserting the mapped frame changes the permission bits and nothing else: it is never freed on the way |
| `FlatMap.InsertFrame` | kern/pmap.c:490-505 | data frames in use keep their contents |
| `FlatMap.InsertKeepsIff` | kern/pmap.c:497-503 | the invariant survives exactly when the 16-bit count does not wrap |
| `Supply.MapSameCounts` | kern/pmap.c:490-505 | n insertions of one frame at pages that are not mapped add n to its count, as long as frames for the missing tables last |
| `Overflow.FullCount` | kern/pmap.c:490-505 | so on a machine of 258 frames, after `page_init`, `page_alloc` and 65535 insertions, a count is 65535 with no reference in transit |
| `Overflow.OverflowHappens` | kern/pmap.c:497-503 | and there the next insertion breaks the invariant |
| `Boot.BootMapRegion` | kern/pmap.c:449-463 | for any permissions and any pages, the loop has the effect of `BootMap`, or stops where the source panics |
| `Boot.BootMapDone` | kern/pmap.c:449-463 | exactly its range is mapped, to consecutive frames, and no count of a frame in use changes |
| `BootSupply.BootMapIff` | kern/pmap.c:458-460 | it panics exactly when there are fewer free frames than page tables to make, and takes exactly those |
| `Boot.LastSizePages` | kern/pmap.c:232 | the size with the exclusive or truncates to the 65536 pages from KERNBASE to 2^32 |
| `Boot.OverlapsAgree` | kern/pmap.c:198-232 | any two of the six regions map a page that both contain to the same frame with the same permissions |
| `Boot.OverlayAnyOrder` | kern/pmap.c:198-232 | so the six calls give the same map in any order |
| `Boot.OverlayIsKernelMap` | kern/pmap.c:198-232 | which is the intended kernel map |
| `Boot.MapAllDone` | kern/pmap.c:198-232 | mapping any list of regions overlays them on what was there, last one first |
| `Boot.MemInitMap` | kern/pmap.c:198-232 | after the six calls the kernel's directory maps the intended kernel half, page by page, and nothing else there |
| `BootSupply.MapAllIff` | kern/pmap.c:198-232 | a sequence of static mappings panics exactly when there are fewer free frames than tables missing for all of it |
| `BootSupply.MemInitNeeds` | kern/pmap.c:198-232 | for `mem_init` these are 67 |
| `Partition.Walk` | kern/pmap.c:666-672 | one pass over the list visits every node, threading low and high frames through two tail pointers while it overwrites the links behind it |
| `Partition.LowFramesFirst` | kern/pmap.c:660-675 | in place, the list is relinked so that frames below 1024 come first, two frames on the same side of 1024 stay in their order, and none is lost |
| `Partition.LowFirstSplits` | kern/pmap.c:656-675 | the same of the list as a sequence, in frame numbers (`SplitAt4MB`) |
| `Partition.LowFirstMultiset` | kern/pmap.c:663-676 | no frame is lost or repeated |
| `Partition.KeepOrder` | kern/pmap.c:663-676 | the partition is stable |
| `Partition.LowFirstKeeps` | kern/pmap.c:663-676 | it keeps the global invariant |
| `Mmu.MemoryLayout` | inc/memlayout.h:92-128 | the constants stand to one another as the memory layout has them |
| `Access.SelfMapPte` | inc/memlayout.h:146-155 | `UVPT + 4 * PGNUM(a)` translates to the physical address of a's own page-table entry, for every address with a table |
| `Access.SelfMapPde` | inc/memlayout.h:157-162 | `UVPT + 4 * PGNUM(UVPT) + 4 * i` translates to directory entry i |
| `Access.UserWritesData` | inc/memlayout.h:106-123 | a user-mode store reaches only data frames mapped below UTOP: no table, no directory, no free frame |
| `Access.UserMemCheck` | kern/pmap.c:598-625 | succeeds exactly when the wrapped end is at most ULIM and every byte scanned is granted; else reports `va` or the least bad address, or panics there in `page_lookup` |
| `Access.ScanIsPerPage` | kern/pmap.c:581-586 | the byte scan agrees with one check per page that meets the range |
| `Access.BitsIff` | kern/pmap.c:618 | `*pte & perm` is non-zero exactly when some bit is set in both; the documented test asks that each bit of perm is set |
| `Access.BadIsBoundary` | kern/pmap.c:592-621 | a reported address is the start of the range or of a page |
| `Access.OneBitIff` | kern/pmap.c:618 | "some bit of perm", which is tested, and "all bits of perm", which is documented, judge all present entries alike for exactly the single-bit values of perm |
| `Access.UserBitSuffices` | kern/pmap.c:634-642 | so `user_mem_assert`, which adds PTE_U, accepts every user page whatever else was asked |
| `Access.GrantsIsUserReads` | kern/pmap.c:588-590 | with perm PTE_U the software test and the processor's test of a user-mode load agree at every address of every directory where `page_lookup` does not panic |
| `Access.UserMemCheckIff` | kern/pmap.c:588-625 | for a single-bit perm the check is right exactly when `va + len` does not wrap to an address at or below ULIM |
| `EnvTable.EnvSetupVm` | kern/env.c:164-206 | builds the directory with the loop of the source, or returns -E_NO_MEM and changes nothing |
| `AddrSpace.SetupVmKeeps` | kern/env.c:164-206 | keeps the invariant; the one new reference is the pin of the directory |
| `AddrSpace.SetupVmMap` | kern/env.c:176-204 | the new space is empty below UTOP and equals the kernel's above, but for its self map |
| `Regions.RegionCoversIff` | kern/env.c:284-292 | the loop covers `[va, va + len)` exactly when `va % PGSIZE + len <= ROUNDUP(len)` |
| `EnvLoad.RegionAlloc` | kern/env.c:278-300 | the loop of `page_alloc` and `page_insert`, or the panic |
| `Regions.MapRegionDone` | kern/env.c:278-300 | its pages, and only they, become mapped, each to a frame that nothing else refers to; other spaces keep their references |
| `Supply.MapRegionIff` | kern/env.c:293-298 | on pages that are not mapped it panics exactly when there are fewer free frames than pages and missing tables together, and takes exactly those |
| `Regions.ExclusiveAlone` | kern/env.c:292-298 | such a frame is mapped at no other user page of any directory, so writes never alias |
| `EnvLoad.LoadAll` | kern/env.c:364-377 | the segment loop, with its copies byte by byte through the environment's tables, or the panic |
| `Loader.LoadSegmentOk` | kern/env.c:369-376 | a loaded segment holds its image, the copies never fault, and no exclusive page outside it changes |
| `Loader.LoadIcodeImage` | kern/env.c:324-390 | in the end every loadable segment reads back, through the environment's own tables, as the file's bytes and then zeros |
| `Loader.Le32Is` | inc/elf.h:6-33 | numbers in the file are read lowest byte first |
| `Loader.WordIsBytes` | kern/env.c:373-375 | as are the words of memory that the copied bytes make up |
| `Loader.MagicIs` | inc/elf.h:4 | the magic test accepts exactly the images that begin with 7F and "ELF" |
| `Loader.HeaderIs` | kern/env.c:364-369 | the fields of header k are the numbers at 0, 4, 8, 16 and 20 of the 32 bytes at e_phoff + 32k, their count is e_phnum, and those of type 1 are loaded |
| `LoadSupply.LoadIcodeOthers` | kern/env.c:324-390 | every user page that is neither the stack's nor a loadable segment's is mapped as before |
| `LoadSupply.LoadIcodeIff` | kern/env.c:324-390 | in a space where its pages are not mapped yet, it panics exactly when the image does not begin with 7F and "ELF", or there are fewer free frames than segment pages, stack page and missing tables together |
| `Loader.LoadAndFree` | kern/env.c:324-465 | loading a program into a new space and freeing it restores every count and the free frames |
| `Envs.LoadIcodeOk` | kern/env.c:324-390 | loading keeps the invariant of the whole system |
| `EnvTable.Table.LoadIcode` | kern/env.c:324-390 | `load_icode` on the environment table: memory as above, the instruction pointer the four bytes at e_entry, the stack pointer behind a page of its own, the kernel's directory loaded again, no other slot changed |
| `EnvTable.DropSpaceOf` | kern/env.c:433-459 | the nested loops of `env_free` have the effect of `AddrSpace.DropSpace`, and no `page_decref` in them panics |
| `AddrSpace.DropSpaceSites` | kern/env.c:433-459 | exactly the references of that address space go; every frame outside it and every held frame stays |
| `AddrSpace.EnvFreeReclaims` | kern/env.c:417-465 | each count drops by the references the space held; a frame becomes free exactly when all its references came from there |
| `AddrSpace.EnvFreeMap` | kern/env.c:417-465 | no translation of any other directory changes, the kernel's included |
| `Regions.SpaceRestored` | kern/env.c:164-465 | whatever happens inside a new space without touching others' references, freeing it restores every count and the free frames |
| `Regions.BuildAndFree` | kern/env.c:164-465 | in particular `env_setup_vm`, any `region_alloc` calls, and `env_free` |
| `EnvIds.NextIdOk` | kern/env.c:230-234 | every id is positive, below 2^31, and carries its slot in ENVX |
| `EnvIds.IdAfterIsNth` | kern/env.c:230-234 | the k-th allocation of a slot has generation `((k - 1) mod (2^19 - 1)) + 1` |
| `EnvIds.IdRecurs` | kern/env.c:230-234 | an id comes back exactly at every (2^19 - 1)-th further allocation |
| `EnvTable.Table.EnvInit` | kern/env.c:114-125 | every slot on the free list, in index order, with id 0 |
| `EnvTable.Table.EnvAlloc` | kern/env.c:216-269 | the head slot, runnable, with its parent, its next generation and a new directory; each failure has its code and changes nothing; keeps the invariant |
| `EnvTable.Table.EnvRun` | kern/env.c:506-534 | the environment that was running is runnable, the new one runs, its own directory is loaded, its runs are counted modulo 2^32, nothing else changes; keeps the invariant |
| `EnvTable.Table.EnvFree` | kern/env.c:417-465 | memory reclaimed as above, the slot free and first on the list, the kernel's directory loaded if it was current, no other slot changed; keeps the invariant |
| `EnvTable.Table.Envid2env` | kern/env.c:72-106 | for any id and any `curenv`: 0 stands for `curenv`, anything else finds what `Envs.Envid2Env` says, with NULL on every error |
| `Envs.Envid2EnvFinds` | kern/env.c:83-92 | without checkperm a non-zero id finds slot e exactly when e is live and has that id |
| `Envs.Envid2EnvPermitted` | kern/env.c:94-102 | with checkperm, exactly when it is also the current environment or a child of it; reads through a NULL `curenv` exactly when there is none and the id is that of a live environment |
| `Envs.EnvAllocOk` | kern/env.c:216-269 | allocation keeps counts, free slots, directories and the loaded directory in order |
| `Envs.EnvFreeOk` | kern/env.c:417-465 | so does freeing, of the current environment too |
| `Envs.EnvRunOk` | kern/env.c:506-534 | so does a context switch |
| `Envs.RunSwitches` | kern/env.c:506-534 | in any run, each context switch loads the environment's own directory and changes only what `Switched` names |
| `Envs.RunKeeps` | kern/env.c:216-537 | every world of every run of page and environment operations, `load_icode` among them, satisfies the invariant |
| `Envs.OneRuns` | kern/env.c:527-534 | in any run at most one environment is ENV_RUNNING |
| `Envs.StaleIdRecurs` | kern/env.c:83-92 | over any run a freed id is accepted again exactly when its slot is in use and was reallocated a multiple of 2^19 - 1 times |
| `Envs.StaleIdRejected` | kern/env.c:83-92 | so it is rejected until the slot has been reallocated 2^19 - 1 times |
| `Start.MemInit` | kern/pmap.c:182-232 | `page_init`, the reordering of the free list and the six mappings: panics exactly when fewer than 67 frames are free |
| `Start.Startup` | kern/pmap.c:129-257 | with `env_init` behind it, it ends in a `Started` world whose kernel half is the intended map, page by page |
| `Start.StartedOk` | kern/pmap.c:129-257 | such a world satisfies the invariant, in whatever order the checks of `mem_init` left the free list |
| `Start.BootRunSafe` | kern/pmap.c:271-313 | from boot on, over any run, no frame reserved at boot is ever free or handed out |
| `Start.KernelFramesSafe` | kern/pmap.c:287-303 | in frame numbers: frame 0, the I/O hole, and the frames of pages[], envs[] and the boot stack, wherever they lie in the boot heap |
| `Tlb.RemoveCoherent` | kern/pmap.c:547-576 | after every event of `page_remove` every cached translation of the loaded directory is current, but between its store and its invalidation for the page removed: exactly when that page was mapped in the loaded directory |
| `Tlb.InvlpgNeeded` | kern/pmap.c:561-576 | without its invalidation that fails exactly when the edited directory is the loaded one |
| `Tlb.InvlpgExact` | kern/pmap.c:561-576 | and an invalidation repairs it exactly when it is of that page |
| `Tlb.InsertCoherent` | kern/pmap.c:490-505 | the same for `page_insert`, although nothing is invalidated after the new entry is written |
| `Tlb.DropSpaceCoherent` | kern/env.c:433-459 | tearing down a space that is not loaded, store by store, leaves no stale translation after any of its events |
| `TlbLoad.LoadLoop` | kern/env.c:358-377 | the segment loop of `load_icode` ends coherent with the environment's directory still loaded; on the way only a page about to be invalidated is ever stale, and none at all exactly when no segment page was mapped before |
| `TlbLoad.LoadCoherent` | kern/env.c:356-385 | the same for the whole of `load_icode`, with its two `lcr3` and the stack page |
| `TlbRuns.StepCoherent` | kern/pmap.c:490-576 | the events of each operation, each at most one word or one data frame, leave the TLB coherent, and on the way only a page that is invalidated next is stale |
| `TlbRuns.RunCoherent` | kern/pmap.c:490-576 | so it is at every event of every run, `load_icode` among the steps |
| `Stabs.StabBinsearch` | kern/kdebug.c:59-103 | terminates and stays inside the region; in an ordered table with an entry at or below `addr` it ends at the bracket of the address of its last exact match (`EndsAt`), and that is the bracket of `addr` exactly when it does not drift; exact results when no entry has the type and when all lie above |
| `Stabs.SmallestDrift` | kern/kdebug.c:84-90 | for every `addr`, the table of two entries at `addr` and `addr + 1`: it drifts, and `EndsAt` leaves only the second entry |
| `Stabs.NoDriftOfThree` | kern/kdebug.c:65-91 | with a third entry at `addr + 2` it does not, although `addr` and `addr + 1` are both there |
| `Stabs.LastHit` | kern/kdebug.c:68-71 | the backward scan stops at the last entry of the type, or below l |
| `Stabs.BracketUnique` | kern/kdebug.c:39-43 | the bracket is unique |
| `Memory.MoveUnits` | lib/string.c:187-205 | an overlapping copy in either direction equals a copy from a snapshot |
| `Memory.MoveWords` | lib/string.c:141-169 | so does the word copy, on aligned operands |
| `Console.Cga.constructor` | kern/console.c:132-158 | starts from whatever is on the screen and any cursor on it |
| `Console.Cga.ScrollUp` | kern/console.c:194-202 | the in-place move and the blank row amount to moving the window down one row |
| `Console.Cga.Putc` | kern/console.c:162-209 | for every character the screen and the cursor change as `Typed` says, and the screen stays the window of the terminal |
| `Console.PutTyped` | kern/console.c:162-209 | `Typed`, cell by cell: newline and carriage return go to column 0, backspace leaves a blank of its colour, a tab five blanks, anything else itself; beyond the last cell the screen moves up a row |
| `Console.Write` | kern/console.c:162-209 | after any text the buffer is the 25-row window, at the current scroll base, of a terminal that never moves text |
| `Console.WriteTyped` | kern/console.c:162-209 | and each character of the text has done to the screen it found what `Typed` says |
| `Console.VisibleText` | kern/console.c:189-202 | visible text stands, in order, where the cursor was; scrolling on the way does not matter |
| `Console.HistoryStays` | kern/console.c:194-202 | rows that have scrolled off never change, whatever text is written |
| `Printf.PutNum` | lib/printfmt.c:35-50 | the recursion and its padding loop put what `Format.PrintNum` says, into any sink |
| `Strtol.PrintNumIs` | lib/printfmt.c:35-50 | that is the digits behind the padding: max(width, digits) characters |
| `Strtol.HornerDigits` | lib/printfmt.c:35-50 | the digits evaluate to the number |
| `Printf.Strnlen` | lib/string.c:21-29 | the smaller of the length and the bound |
| `Printf.PutString` | lib/printfmt.c:174-188 | the three loops of %s put the truncated, padded string |
| `Format.StringWidth` | lib/printfmt.c:174-188 | max(width, printed) characters, where printed is the length cut to the precision |
| `Printf.PutError` | lib/printfmt.c:163-172 | the text of an error code of either sign, or its number |
| `Printf.ReadFlags` | lib/printfmt.c:104-156 | the `goto reswitch` loop stops at the conversion character with the flags and arguments that `Format.Escape` reads |
| `Printf.PutConversion` | lib/printfmt.c:158-233 | every conversion puts its text and takes its argument words; anything else is refused |
| `Printf.VPrintFmt` | lib/printfmt.c:82-243 | terminates although it rewinds, and puts the same text, a function of format and arguments, into any sink |
| `Directives.ReadDirective` | lib/printfmt.c:98-233 | any directive, with any of `#`, `0` and `-`, a width, a precision (numbers or stars), `l`s and a conversion, wherever it stands in a format, is read as what it spells and takes its arguments |
| `Directives.FormatPieces` | lib/printfmt.c:82-243 | so a format of text and directives prints the text and each directive in turn |
| `Directives.FormatString` | lib/printfmt.c:174-188 | %s by position: at most precision characters, each as a signed char or, under `#`, as '?' when it is not printable; padding on the left, or on the right under `-` |
| `Directives.FormatChar` | lib/printfmt.c:158-161 | %c prints its argument, %% a percent sign |
| `Directives.FormatNumber` | lib/printfmt.c:190-228 | %d, %u, %o, %x and %p by position: sign or 0x, padding up to the width, and each digit of the 32-bit or, under `ll`, 64-bit argument |
| `Directives.DigitAt` | lib/printfmt.c:49 | the digit of weight base^j is "0123456789abcdef"[num / base^j % base] |
| `Directives.FormatError` | lib/printfmt.c:163-172 | %e prints the text of a code of either sign, or "error" and its number |
| `Format.LiteralRun` | lib/printfmt.c:92-96 | text without '%' is copied |
| `Format.UnknownEscape` | lib/printfmt.c:235-240 | an escape it does not know is printed literally, flags included, though its stars have taken arguments |
| `Sinks.SprintRun` | lib/printfmt.c:261-267 | after any text the buffer holds as much of it as fits and all of it is counted |
| `Sinks.Sprint.Putch` | lib/printfmt.c:261-267 | the in-place struct takes the same step |
| `Sinks.Vsnprintf` | lib/printfmt.c:269-284 | the first min(length, n - 1) characters and a NUL are stored, no byte behind them changes, the whole length is returned; -E_INVAL without a buffer |
| `Sinks.Print.Putch` | lib/printf.c:26-35 | the in-place struct takes the same step, its index stays below 255 |
| `Sinks.Vcprintf` | lib/printf.c:37-48 | the system calls carry exactly the text, byte 255i + j in place j of call i, all but the last in full chunks of 255, and the count is its length |
| `Strtol.Strtol` | lib/string.c:239-284 | the loops compute `StrtolSpec`: value modulo 2^32 and end position |
| `Numerals.ReadNumeral` | lib/string.c:239-284 | any blanks and tabs, sign, prefix and digits in either case, for every base up to 36 and base 0: the value is that number modulo 2^32, the end is behind the last digit |
| `Strtol.PrintParse` | lib/string.c:263-283 | in every base from 2 to 16, padded with blanks or zeros to any width, what `printnum` prints reads back to its end |
| `Strtol.DecimalParse` | lib/printfmt.c:190-198 | %d reads back for every 32-bit integer exactly when it is not a minus sign followed by padding blanks |
| `Strtol.PointerParse` | lib/printfmt.c:213-220 | %p reads back in base 16 exactly when no blanks stand behind the 0x |
| `Strtol.DashPadding` | lib/printfmt.c:107-110 | with the '-' flag a number reads back exactly when there is no padding, or it is 0 behind one minus sign |
| `Strtol.ConvertParse` | lib/printfmt.c:190-228 | %d, %u, %o, %x and %p print any argument word so that `strtol` in their base returns it |
| `Strtol.FormatParse` | lib/printfmt.c:82-243 | the same for the formats "%d", "%u", "%o", "%x", "%p" through `vprintfmt` |

## Left out

- Port I/O, NVRAM, serial, parallel and keyboard drivers, descriptor tables, `env_pop_tf`, trap entry: hardware effects. `lcr3` and `invlpg` appear as updates of the loaded directory and the TLB.
- `boot_alloc`: where it puts things is a parameter (`Boot.Layout`, and the heap end of `page_init`), as is the linker's boot stack; a table of the boot mapping in kern/entrypgdir.c is not part of this model.
- Panics: a `false` or `None` result where running out of memory, or a frame outside `pages[]`, leads to one; otherwise a precondition that rules it out.
- PhysMem.Pages.PageFree: that the frame is not already free is a precondition; `FreeList.TailLooksTaken` and `FreeList.DoubleFreeCycle` say what the code does with one that is.
- PageOps.InsertKeeps: needs a count below 65535; `Overflow.OverflowHappens` shows that it is needed.
- PhysMem.Pages.PageInsert: below UTOP only, as `page_remove` and `EnvLoad.RegionAlloc`: the tables above are the kernel's, shared by all directories, and mappings there are not counted (kern/env.c:184-187).
- EnvLoad.RegionAlloc: ranges that end at or below UTOP, for the same reason.
- Boot.BootMapRegion: on the kernel's directory, the only one it is called with, and without wrap-around past 2^32.
- Start.MemInit: without `check_page_alloc` and `check_page`, which give back what they take but move frames about in the free list; `Start.StartedOk` and `Start.BootRunSafe` hold for any order of it.
- FlatMap.InsertMap: the flat map leaves out the self-map window at UVPT, where the directory serves as a table; `Access.SelfMapPte` and `Access.SelfMapPde` say what is seen there.
- EnvTable.Table.LoadIcode: headers are read from the file image, and a panic leaves no claim about the state.
- Loader.LoadIcodeImage: for images whose segments lie on disjoint pages below UTOP, off the stack page, satisfy the condition of `Regions.RegionCoversIff`, and have filesz at most memsz.
- LoadSupply.LoadIcodeIff: for spaces in which the pages of the image are not mapped; `Supply.MapRegionIff` alike. A frame that `page_insert` unmaps on the way would come back to the free list.
- Access.UserMemCheckIff: for perm of several bits, `Access.OneBitIff` says why the check cannot be right.
- Trap frames but for the two registers above, `env_type`, `env_create`, `env_destroy` and its endless loop; the syscall layer; the monitor, whose `mon_pgmod` edits an entry without a flush.
- `Envs.Step` lets memory change in one store of a whole data frame; tables change only through the modelled operations.
- Tlb.InsertCoherent: one processor, 4 KB pages, no global pages, no accessed and dirty bits, no paging-structure caches. The stores of `env_setup_vm` count as one event; no directory reaches the new one yet.
- Stabs.StabBinsearch: assumes that no entry of the type has the value 2^32 - 1, so that `addr` does not wrap.
- Console.Cga.Putc: the cursor registers are not modelled, nor the other devices that `cons_putc` feeds.
- Directives.ReadDirective: flags stand in front of the width; numbers in a format do not begin with 0, which is the flag (so "%.0s" is no precision).
- Directives.FormatString: for strings and precisions below 2^31.
- Printf.VPrintFmt: the sink is a state and a step function in place of a function pointer and an untyped pointer; the structs that `sprintputch` and the user-side `putch` update in place are proved to take the same steps. Widths, precisions and counts do not overflow, and `%e` of -2^31 is its negation: both are undefined in C.
- The count that the kernel's `cprintf` returns: its `putch` advances a pointer and counts nothing.
- The page-table arithmetic of inc/mmu.h is written as division, remainder and sum in place of shifts, masks and ORs.
- Simple string helpers, `readline`, `SETGATE`, user programs: they would only add easy members.
