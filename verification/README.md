# Verified model of the kernel's core algorithms

This project models the parts of a small x86-64 kernel whose correctness cannot be read off one
function, and proves what holds of them for every input, every run or every reachable state.
`dafny verify dfyconfig.toml` (Dafny 4.11) covers the whole project.

| files | what they model |
|---|---|
| `RbShape`, `RbHeap`, `RbTree`, `RbSearch` | the pointer-based red-black run queue of `kernel/scheduler/rb_tree.c` |
| `Threads`, `SchedSpec`, `Scheduler` | `kernel/scheduler/cfs.c` and `schedule` of `kernel/scheduler/scheduler.c`, with `run_proc` |
| `Spinlock` | spinlocks, nested interrupt disabling and the id counters, as interleaved atomic steps |
| `PageList`, `PhysAlloc` | the circular list and the page frame allocator |
| `VirtAddr`, `PageTables`, `Paging`, `Sharing` | four-level page tables, the functions that change them, and shared kernel tables |
| `Areas` | the memory areas of an address space |
| `Ownership`, `OwnershipRuns` | who owns which page frame, and which spaces share tables, over whole runs |
| `Heap`, `HeapBytes` | the kernel heap |
| `Words` | 64-bit arithmetic, the page size, `PAGE_START` and `PAGE_END` |

How the model is built.

* **Run queue.** `RbTree.SchedTree` is a class over linked `RbNode` objects with parent pointers.
  The fields of all nodes are read as one value (`RbHeap.Mem`), against which a pure tree with a hole
  (`RbShape.Tree` in a `RbShape.Ctx`) is checked link by link. Each method performs the C statements
  on the objects and is proved against that value; order, colours and black heights are then facts
  about pure trees. `Valid()` says: sorted in-order sequence, parent links, no red node with a red
  child, equal black heights, `leftmost` is the first node. As in the code, the root may be red.
* **Scheduler.** `SchedSpec` is a state machine over a stable sorted queue; `Scheduler.Cpu.Schedule`
  works on the linked tree and refines one step of it. Properties of runs are proved on the machine.
  Nothing in the kernel marks a thread as dead yet; such a mark is an event of its own (`Death`).
* **Spinlocks.** Every read or write of shared memory is one step of one CPU. Any number of CPUs
  and locks; all interleavings.
* **Page tables.** Physical memory is a map from frame numbers to tables of 512 entries. A ghost
  tree names the frame of every table; the hardware walk is shown to find what the tree names. Its
  result has the rights an access has: write and user at every level, no-execute at none.
* **Heap.** Memory is a map from addresses to block headers; the ghost block list must tile the arena
  and be spelled out by the `size`, `used` and `next` fields. Nothing is assumed of `prev`.

Where a property that one might expect is false of the code, the model keeps the code, exhibits an
input or a run, and states exactly when the property does hold:

* `rb_remove` goes right on equal keys although rotations can leave an equal key on the left. Run:
  `RbSearch.EqualKeysMiss`, and for a whole scheduler `Scheduler.MissedPick`. Exact: `RbSearch.FindsIff`,
  `RbSearch.ClearIff`, and in the contracts of `Scheduler.Cpu.Take` and `Scheduler.Cpu.Schedule`.
* `holding` is wrong for CPU 0. Run: `Spinlock.SpuriousPanic`. Exact: `Spinlock.HoldingExact`,
  `Spinlock.PanicExact`.
* `unmappages` frees descriptors that are not present. Runs: `OwnershipRuns.StaleRun`,
  `OwnershipRuns.UntouchedPage`. Exact: `Ownership.UnmapExact`, and `ok` of `Paging.Pager.UnmapPages`.
* A new root table is not cleared. Run: `OwnershipRuns.UnclearedRoot`. Exact: `Ownership.RootAlone`.
* The roll-back of `mappages` from page 0 ranges over the whole address space and never ends
  (`Paging.RollBackZero`). Run: `OwnershipRuns.PageZeroClash`. Exact: `stuck` of `Paging.Pager.MapPages`, and for
  all loops over ranges `Paging.LoopEnds`.
* A kernel slot filled after `map_higher_half` is not seen by older address spaces (`Sharing.LateSlotDiffers`).
  Run: `OwnershipRuns.LateSlot`. Exact: `Ownership.StepSharingExact`, and in the contract of `Ownership.Vm.Map`.
* `vmm_alloc_at` adds without regard for overflow. Input: `Areas.WrappingRequest`. Exact: `Areas.PlaceExact`.
* A heap split leaves the successor's `prev` stale. Exact: `Heap.CutBack`.
* After that, `prev` can come to name no block at all. Run: `Heap.DanglingPrev`. Exact, for every step:
  `Heap.AbsorbedKnown`, `Heap.ResizedKnown`, and in the contracts of `Heap.Arena.Alloc`, `MergeRight`, `MergeLeft`,
  `Free`, `Shrink` and `Resize`: what is lost is the start of an absorbed block that a block further on names.
* `free` follows a NULL `next` when it merges left at the end of the arena. Run: `Heap.FreeAtEnd`. Exact: `ok` of
  `Heap.Arena.Free`, and for `realloc` of `Heap.Arena.Realloc`.
* Growing in place overwrites fields still to be read. Inputs: the arenas in `HeapBytes.GrowExact`. Exact:
  `HeapBytes.GrowIff` for one arena, `HeapBytes.GrowExact` for all.

Where comments and code disagree the code is followed: `rb_remove` says that it swaps with the immediate
successor, but takes the rightmost node of the left subtree, which is the predecessor; `unmappages` is
documented to return -1 on error, but always returns 0.

## Model

| member | source | states |
|---|---|---|
| `RbShape.RotatedKeeps` | kernel/scheduler/rb_tree.c:6-22 | a rotation keeps the in-order sequence and the set of nodes |
| `RbTree.SchedTree.Turn` | kernel/scheduler/rb_tree.c:6-22 | the pointer writes of `rotate` change exactly the links a rotation should, parent links and root included |
| `RbTree.SchedTree.Rotate` | kernel/scheduler/rb_tree.c:6-22 | on linked nodes, `rotate` turns the tree in place below any context into its rotation and keeps all links |
| `RbShape.PlugOk` | kernel/scheduler/rb_tree.c:24-72 | a subtree that fits its context by colour and black height makes the whole tree a red-black tree |
| `RbShape.PushedUpOk` | kernel/scheduler/rb_tree.c:61-67 | recolouring parent, uncle and grandparent gives a red subtree of the same black height, one level up |
| `RbShape.LiftedOk` | kernel/scheduler/rb_tree.c:45-58 | the inner and outer insert rotations give a black subtree of the same black height |
| `RbTree.SchedTree.BalanceInsert` | kernel/scheduler/rb_tree.c:24-72 | the fix-up loop ends with a red-black tree over the same items, after at most two rotations and at most half the depth in rounds, rounded up |
| `RbTree.SchedTree.FindSlot` | kernel/scheduler/rb_tree.c:84-92 | the descent stops at the empty place behind every key not greater than the new one, and knows whether that place is the first |
| `RbTree.SchedTree.Insert` | kernel/scheduler/rb_tree.c:74-101 | keeps every red-black invariant and `leftmost`; the sequence becomes the old one with the entity just after the last key not greater; logarithmically many steps, at most two rotations |
| `RbShape.SortedInserted` | kernel/scheduler/rb_tree.c:84-92 | insertion at that place keeps the sequence sorted |
| `RbShape.HeightBound` | kernel/scheduler/rb_tree.c:84-92 | a tree of n items and height h satisfies 2^ceil(h/2) <= n + 1 |
| `RbShape.DepthLogarithmic` | kernel/scheduler/rb_tree.c:176-182 | any descent takes at most twice the binary logarithm of n + 1 steps |
| `RbShape.RaisedSibOk` | kernel/scheduler/rb_tree.c:116-125 | raising a red sibling gives a black sibling below a red parent, heights unchanged |
| `RbShape.NearNephewOk` | kernel/scheduler/rb_tree.c:140-145 | raising the near nephew leaves a black sibling with a red far nephew and the same black heights |
| `RbShape.FarNephewOk` | kernel/scheduler/rb_tree.c:149-154 | raising the sibling gives back the missing black height |
| `RbShape.ReddenedSibOk` | kernel/scheduler/rb_tree.c:128-138 | painting the sibling red takes one black off its side: the subtree is settled if the parent was red, else the loss moves up |
| `RbTree.SchedTree.RemoveRound` | kernel/scheduler/rb_tree.c:110-154 | one round either finishes with equal black heights or moves the missing black one level up, over the same items |
| `RbTree.SchedTree.BalanceRemove` | kernel/scheduler/rb_tree.c:103-160 | through all six cases the tree is a red-black tree once the doomed leaf is unlinked, with at most three rotations and as many rounds as the leaf is deep |
| `RbTree.SchedTree.Rightmost` | kernel/scheduler/rb_tree.c:167-170 | the result is the last node in order of the subtree and has no right child |
| `RbTree.SchedTree.SwapDown` | kernel/scheduler/rb_tree.c:187-193 | moving the predecessor's entity up leaves the same sequence once the predecessor's node is gone |
| `RbTree.SchedTree.RemoveNarrow` | kernel/scheduler/rb_tree.c:195-229 | removing a node with at most one child deletes exactly its entity and keeps all invariants and `leftmost` |
| `RbTree.SchedTree.Find` | kernel/scheduler/rb_tree.c:173-185 | the search is exact for the pure search, and ends at the entity in its place in the tree |
| `RbTree.SchedTree.Remove` | kernel/scheduler/rb_tree.c:172-230 | if the search finds the entity, exactly it leaves the sequence and every invariant is kept; if not, nothing changes; at most three rotations, search and fix-up logarithmic |
| `RbShape.SortedRemoved` | kernel/scheduler/rb_tree.c:172-230 | removal keeps the sequence sorted |
| `RbTree.SchedTree.Cached` | kernel/scheduler/cfs.c:46-49 | `leftmost` is the first node in order, and null exactly when the queue is empty |
| `RbSearch.FindsIff` | kernel/scheduler/rb_tree.c:176-182 | the search finds an entity exactly when it is queued and no node with an equal key has it in its left subtree |
| `RbSearch.ClearIff` | kernel/scheduler/rb_tree.c:176-182 | the search finds a queued entity, wherever it stands, exactly when the nearest node that has it on its left has a strictly greater key, or there is no such node |
| `RbSearch.LastNotShadowed` | kernel/scheduler/rb_tree.c:176-182 | the latest of several entities with one key is always found |
| `RbSearch.UniqueKeyFound` | kernel/scheduler/rb_tree.c:176-182 | an entity whose key is unique is always found |
| `RbSearch.PickFound` | kernel/scheduler/rb_tree.c:176-182 | on the linked nodes: the entity of `leftmost` is found exactly when its node is the root or the parent's key is strictly greater |
| `RbSearch.EqualKeysMiss` | kernel/scheduler/rb_tree.c:176-185 | after three insertions with one key, removing the head of the queue changes nothing |
| `Scheduler.Cfs.Enqueue` | kernel/scheduler/cfs.c:15-32 | the charge is added in 64-bit arithmetic, `running` grows by one, the thread goes behind every key not greater, and the tree is the one that insertion and its fix-up make of the old one |
| `Scheduler.Cfs.Dequeue` | kernel/scheduler/cfs.c:34-37 | `running` drops by one in any case; the thread leaves the queue exactly if the search finds it |
| `Scheduler.Cfs.PickNext` | kernel/scheduler/cfs.c:46-49 | the earliest-queued thread of least vruntime, or null exactly for an empty queue |
| `SchedSpec.ChargeGrows` | kernel/scheduler/cfs.c:15-26 | without wrap-around a charge is (now - start) * (1 + prio) and raises the key |
| `SchedSpec.ChargeModulo` | kernel/scheduler/cfs.c:15-26 | for all inputs a charge is that sum modulo 2^64, also with a clock behind the start time |
| `Scheduler.Cpu.Leave` | kernel/scheduler/scheduler.c:19-37 | the interrupted thread goes back, goes on or is dropped as the machine says, and the head of the old queue is next |
| `Scheduler.Cpu.PutBack` | kernel/scheduler/scheduler.c:30-33 | the interrupted thread is charged, queued stably and its frame saved; nothing else changes |
| `Scheduler.Cpu.Suspend` | kernel/scheduler/scheduler.c:31-33 | its record is the old one with the charge added, state waiting and the interrupted frame; it stands behind every key not greater |
| `Scheduler.Cpu.Take` | kernel/scheduler/scheduler.c:48-53 | the picked thread becomes current and active, with the frame it was saved with, and no other thread's state changes; it leaves the queue exactly when the nearest node that has it on its left has a strictly greater key |
| `Scheduler.Cpu.GoIdle` | kernel/scheduler/scheduler.c:39-45 | with nothing to run, the idle thread runs on the kernel stack in the kernel's address space |
| `Scheduler.Cpu.Switch` | kernel/scheduler/scheduler.c:39-59 | the idle thread, the same thread or the picked one goes on, each with its frame and address space |
| `Scheduler.Cpu.Schedule` | kernel/scheduler/scheduler.c:16-60 | one call on the linked tree is one step of the state machine, which counts the current thread as dead exactly if its record says so. A queued thread is switched in active with its saved frame and address space; or a lone thread goes on with its own frame and address space; or the idle thread runs. The interrupted thread becomes waiting, is charged and keeps its frame, and no other record changes. The invariant is kept exactly when the dequeue finds the pick, and that exactly when the pick is clear of equal keys above it in the tree that the requeue leaves, which is computed from the state before the call |
| `Scheduler.MissedPick` | kernel/scheduler/scheduler.c:48-51 | three threads with one key are admitted; the first call of schedule leaves its pick both current and queued |
| `Scheduler.Cpu.Admit` | kernel/process.c:182-188 | an admitted thread is charged from time zero and queued stably; the invariant of the scheduler is kept |
| `Scheduler.Cpu.RunProc` | kernel/process.c:182-188 | all threads of a process are queued once, each charged from time zero to its own reading of the clock, and nothing else changes in the queue or in their records |
| `SchedSpec.AdmittedWf` | kernel/process.c:182-188 | admission keeps the machine's invariant and adds one thread |
| `SchedSpec.StepWf` | kernel/scheduler/scheduler.c:16-60 | every call that finds its pick keeps the queue sorted, free of duplicates and without the current or idle thread |
| `SchedSpec.MissNotWf` | kernel/scheduler/scheduler.c:48-51 | a call that misses its pick leaves the current thread in the queue |
| `SchedSpec.Conserved` | kernel/scheduler/scheduler.c:16-60 | queued threads plus the current one change only by a dead current thread; if the dequeue misses, the picked thread is counted twice |
| `SchedSpec.RecordsAfter` | kernel/scheduler/scheduler.c:28-56 | the thread switched in is recorded active, the one that goes back waiting with its charge and frame, a dead one is forgotten, and no other record changes |
| `SchedSpec.DroppedExact` | kernel/scheduler/scheduler.c:26-37 | a call drops a thread exactly if it was on the CPU and marked dead |
| `SchedSpec.NeverDropped` | kernel/scheduler/scheduler.c:16-60 | over any history of calls, admissions and deaths, a thread that nobody marks dead while it is on the CPU stays queued or running |
| `SchedSpec.MarkedKept` | kernel/scheduler/scheduler.c:30-50 | the thread on the CPU is active and all queued ones wait, over every call that finds its pick and every admission of a waiting thread |
| `SchedSpec.ResumesWhatWasSaved` | kernel/scheduler/scheduler.c:33-58 | over any history of calls, admissions and deaths, a thread resumes with exactly the frame of its last switch-out, but for `registers.rsp` |
| `SchedSpec.StepLag` | kernel/scheduler/scheduler.c:16-60 | a call that does not pick a waiting thread strictly lowers its wait |
| `SchedSpec.NoStarvation` | kernel/scheduler/scheduler.c:16-60 | on a run without wrap-around, with charges of at least one and in which every pick is found, a queued thread is picked within a bound computed from the vruntimes |
| `Spinlock.StepInv` | kernel/synchronization/spinlock.c:14-51 | every atomic step of every CPU keeps the lock invariant |
| `Spinlock.RunInv` | kernel/synchronization/spinlock.c:14-51 | in every state of every interleaving the lock invariant holds, and interrupts are on for a CPU exactly when it has nothing pushed and they were on at boot or a pop_off turned them on |
| `Spinlock.MutualExclusion` | kernel/synchronization/spinlock.c:30-48 | at most one CPU is between test-and-set and clear of a lock, with interrupts off, and its push_off_count is its locks plus its explicit and pending push_offs |
| `Spinlock.IdsDistinct` | kernel/process.c:141-143 | the ids handed out under a lock are 0, 1, 2, ... in order, hence distinct |
| `Spinlock.PopOffSafe` | kernel/kernel.c:29-31 | a balanced pop_off never finds interrupts on |
| `Spinlock.InterruptsExact` | kernel/kernel.c:19-38 | on a CPU that boots with interrupts on they are on exactly when its push_off_count is 0; on any other, from the first pop_off to 0 on, and before that never |
| `Spinlock.HoldingExact` | kernel/synchronization/spinlock.c:10-12 | in every reachable state `holding` is right for every CPU but 0, and for CPU 0 exactly characterised |
| `Spinlock.CheckIsHolding` | kernel/synchronization/spinlock.c:20-30 | undisturbed, the two reads of acquire panic exactly if `holding` says so, and else lead to the test-and-set and change nothing |
| `Spinlock.PanicExact` | kernel/synchronization/spinlock.c:20-25 | acquire panics exactly when this CPU has the lock, or it is CPU 0 and no other CPU's id is in the lock |
| `Spinlock.SpuriousPanic` | kernel/synchronization/spinlock.c:20-40 | a run in which CPU 0 panics while it holds nothing |
| `Spinlock.AcquireFree` | kernel/synchronization/spinlock.c:14-41 | an undisturbed acquire of a free lock gets it, with its id in the lock word, one more push and interrupts off |
| `Spinlock.ReleaseUndoes` | kernel/synchronization/spinlock.c:43-51 | the release after it gives back exactly the state before, interrupts included |
| `PageList.List.Push` | kernel/list.c:11-19 | keeps the ring of links and puts the node first |
| `PageList.List.PushEnd` | kernel/list.c:21-29 | keeps the ring of links and puts the node last |
| `PageList.List.Pop` | kernel/list.c:31-41 | keeps the ring of links and takes the first node out |
| `PageList.List.PopEnd` | kernel/list.c:43-52 | keeps the ring of links and takes the last node out |
| `PageList.List.Empty` | kernel/list.c:9-9 | true exactly when the ring is the sentinel alone |
| `PhysAlloc.ByteBit` | kernel/arch/x86-64/memory/physical_allocator.c:65-74 | setting or clearing a bit of a byte changes what is read at that bit only |
| `PhysAlloc.PageIndexLaw` | kernel/arch/x86-64/memory/physical_allocator.c:57-63 | the page index of an address is the difference of page numbers, for any address in the page |
| `PhysAlloc.TruesUpdate` | kernel/arch/x86-64/memory/physical_allocator.c:70-74 | one bit written changes the number of allocated pages by one |
| `PhysAlloc.Allocator.constructor` | kernel/arch/x86-64/memory/physical_allocator.c:76-102 | exactly the pages behind the bitmap are free, and bits and list agree |
| `PhysAlloc.Allocator.Alloc` | kernel/arch/x86-64/memory/physical_allocator.c:106-116 | 0 exactly when nothing is free, else a free page that leaves the free set; bits and list agree, the list has no duplicates, free plus allocated is the page count |
| `PhysAlloc.Allocator.Release` | kernel/arch/x86-64/memory/physical_allocator.c:118-130 | the page of any address in it becomes free with the same invariant; freeing it again changes nothing |
| `VirtAddr.IndicesOfVa` | kernel/include/kernel/arch/x86-64/memory_layout.h:24-51 | four indices and an offset survive the way through `get_va`, and the address is canonical |
| `VirtAddr.VaOfIndices` | kernel/include/kernel/arch/x86-64/memory_layout.h:24-51 | `get_va` of an address's indices is the address exactly if it is canonical |
| `VirtAddr.IndicesAgree` | kernel/include/kernel/arch/x86-64/memory_layout.h:24-28 | VA2INDEX by shift and mask is, at every level, the digit of the page number that the page table model uses |
| `VirtAddr.MadeDescriptor` | kernel/arch/x86-64/memory/vm.c:167-169 | the descriptor word has the frame, the present bit and the requested write, user and no-execute bits, and is no large page |
| `VirtAddr.MadeIsDescriptor` | kernel/arch/x86-64/memory/vm.c:89-96 | that word decodes to the descriptor of the page table model, frame number included |
| `VirtAddr.ClearedIsEmpty` | kernel/arch/x86-64/memory/vm.c:123-123 | a word of a cleared table decodes to an empty descriptor that names frame 0 |
| `VirtAddr.LinkedIsLink` | kernel/arch/x86-64/memory/vm.c:118-121 | the word that links a new table decodes to the link of the page table model: present, writable, user, executable, with the frame of the table |
| `VirtAddr.UpdatedDescriptor` | kernel/arch/x86-64/memory/vm.c:186-187 | exactly the write, user and no-execute bits are replaced |
| `VirtAddr.UpdatedIsReflagged` | kernel/arch/x86-64/memory/vm.c:186-187 | the new word decodes to the reflagged descriptor of the page table model: write from flag bit 0, user from bit 1, no-execute from bit 2, presence, size bit and frame kept |
| `PageTables.SlotsDiffer` | kernel/include/kernel/arch/x86-64/memory_layout.h:24-28 | different canonical pages have different descriptor slots |
| `PageTables.TranslateIsLeaf` | kernel/arch/x86-64/memory/vm.c:101-127 | the hardware walk finds exactly the descriptor that the tree of tables names, with the rights that all links on the way leave of it |
| `PageTables.ThroughKept` | kernel/arch/x86-64/memory/vm.c:117-123 | when old links are kept and new ones are writable, user and executable, the links on the way to any page take away what they did before and no more |
| `PageTables.LinkKeeps` | kernel/arch/x86-64/memory/vm.c:117-123 | linking a cleared fresh table keeps the tree of distinct frames, all descriptors and all other links; the new link is present, writable, user and executable |
| `PageTables.DescriptorWrite` | kernel/arch/x86-64/memory/vm.c:167-169 | writing one descriptor changes the translation of that page only |
| `PageTables.ElsewhereSame` | kernel/arch/x86-64/memory/vm.c:101-127 | a page whose walk, below an unchanged root entry, keeps away from the changed frames is translated as before, with the same rights |
| `Paging.SeenSame` | kernel/arch/x86-64/memory/vm.c:101-127 | a page whose descriptor is kept, or whose tables a change does not concern, is translated as before and keeps its rights: below the slots in question and outside them |
| `Paging.Pager.NewTable` | kernel/arch/x86-64/memory/vm.c:117-123 | a new table comes off the free list and is cleared; its link, which is writable, user and executable, is the only entry that changes, and no descriptor changes; it fails exactly when nothing is free, and then changes nothing |
| `Paging.Pager.Walk` | kernel/arch/x86-64/memory/vm.c:101-127 | finds the page's own slot, keeps the tables a tree of distinct frames, and changes the translation and the rights of no address, below the given root slots or elsewhere; with alloc it succeeds exactly when there are as many free pages as missing tables, without it exactly when the table exists |
| `Paging.Pager.MapPages` | kernel/arch/x86-64/memory/vm.c:153-175 | all or nothing, for what the hardware walk sees: on success exactly the pages of the range map to consecutive frames, with exactly the rights asked for below links as walk makes them, and with what the links leave of them otherwise; on failure every translation is as before, and there was a clash or no memory; root entries change only where a new table is linked; the roll-back never ends exactly when page 0 is asked for and fails |
| `Paging.RangeTouched` | kernel/arch/x86-64/memory/vm.c:154-160 | the pages that the loops over a range visit are exactly those in which the range has a byte |
| `Paging.RollBackRange` | kernel/arch/x86-64/memory/vm.c:163-163 | the roll-back covers exactly the pages already mapped, in 64-bit arithmetic |
| `Paging.LoopEnds` | kernel/arch/x86-64/memory/vm.c:160-200 | the loops over a range end exactly when it stops short of the last page of the address space |
| `Paging.RollBackZero` | kernel/arch/x86-64/memory/vm.c:163-163 | from page 0 the roll-back covers the whole address space and the guard of its loop holds in every round |
| `Paging.Pager.UpdatePages` | kernel/arch/x86-64/memory/vm.c:177-191 | every descriptor up to the first missing table gets exactly the new write, user and no-execute bits and keeps presence, size bit and frame, and below links as walk makes them the page has those rights; success means the whole range; no other translation and no root entry changes |
| `Paging.Pager.UpdatePage` | kernel/arch/x86-64/memory/vm.c:183-187 | one round: it fails exactly when the page has no table; else its write, user and no-execute bits are the new ones, all else of it and every other descriptor is kept |
| `Paging.Pager.UnmapPages` | kernel/arch/x86-64/memory/vm.c:196-212 | no page of the range is translated any more, exactly the present bits there are cleared, and no other translation, right or root entry changes; with free, the frame of every descriptor in the range, present or not, becomes free, and kfree is given a page it does not manage exactly if one of those frames is none |
| `Paging.Pager.MapHigherHalf` | kernel/arch/x86-64/memory/vm.c:214-219 | the upper half of the root is the kernel's, the lower half is as before, and no other memory changes |
| `Sharing.CopyShares` | kernel/arch/x86-64/memory/vm.c:214-219 | a copied root entry shares the kernel's tables below it, with the same rights |
| `Sharing.SharedTranslates` | kernel/arch/x86-64/memory/vm.c:214-219 | under a shared slot both roots translate every page alike, rights included |
| `Sharing.ViaShape` | kernel/arch/x86-64/memory/vm.c:101-127 | seen through a copied root the shared tables are again a tree of distinct frames |
| `Sharing.UserChange` | kernel/arch/x86-64/memory/vm.c:153-219 | after any change through a copied root that fills no empty slot, the kernel's tables are still a tree and both roots translate alike |
| `Sharing.MergedFrame` | kernel/arch/x86-64/memory/vm.c:153-212 | to the kernel's own tables such a change is growth and writes in them, and nothing else |
| `Sharing.GrownIsChange` | kernel/arch/x86-64/memory/vm.c:153-175 | mappages through a copied root, below slots that were filled, is such a change |
| `Sharing.StoredIsChange` | kernel/arch/x86-64/memory/vm.c:177-212 | unmappages and updatepages through a copied root are such changes |
| `Sharing.LateSlotDiffers` | kernel/arch/x86-64/memory/vm.c:214-219 | a page that the kernel maps under a slot filled after the copy is not translated through the copied root |
| `Areas.PlaceExact` | kernel/memory/vmm.c:54-70 | the place chosen is page-aligned, in bounds, starts at the greater of the lowest free address and the page asked for, and is just large enough, exactly when the request is not empty and the sum does not wrap |
| `Areas.PlaceFits` | kernel/memory/vmm.c:66-70 | without wrap-around there is a place exactly if the bytes asked for fit below the end, from both the lowest free address and the page asked for |
| `Areas.WrappingRequest` | kernel/memory/vmm.c:54-70 | a request in a user address space that wraps and is granted nearly 2^64 bytes |
| `Areas.Vmm.constructor` | kernel/memory/vmm.c:17-32 | an empty space whose bounds are whole pages around the ones given and exclude page 0 |
| `Areas.Vmm.Lookup` | kernel/memory/vmm.c:35-47 | with its shortcut, agrees with a search of all live areas, although frees never lower `current_addr` |
| `Areas.Vmm.TakeSlot` | kernel/memory/vmm.c:115-135 | the slot was never given out before and is the next in order; a new container is chained exactly when the last is full or there is none |
| `Areas.Vmm.Alloc` | kernel/memory/vmm.c:53-156 | the start is the greater of the end of the last area ever placed, or the start of the space if it is empty, and the page of the base; null exactly when that plus the rounded length, in 64 bits, is beyond the end of the space; else one new area at the end, with the user bit set exactly if given or the space is a user one and all other flags kept, and all other areas untouched; the list stays doubly linked, and sorted, page-aligned, disjoint and in bounds exactly when the new area ends in bounds; it serves the request exactly when nothing wraps |
| `Areas.Vmm.FindContainer` | kernel/memory/vmm.c:162-173 | for a live area the walk ends in its container and never follows the unset `next` of the last one |
| `Areas.Vmm.Free` | kernel/memory/vmm.c:158-193 | exactly the given area leaves the list, which keeps all of that, and no slot becomes available again |
| `Areas.Vmm.FreeMmio` | kernel/memory/vmm.c:318-329 | an area leaves the list exactly when it has the address and is marked as MMIO |
| `Ownership.MapKeeps` | kernel/memory/vmm.c:242-246 | mapping frames that nobody uses keeps every managed frame with one owner: free list, table, container, or one page of one space |
| `Ownership.UnmapKeeps` | kernel/memory/vmm.c:187-188 | unmapping, and freeing what nobody uses any more, keeps it |
| `Ownership.UnmapExact` | kernel/arch/x86-64/memory/vm.c:204-206 | unmappages with free keeps it exactly when every descriptor of the range that is not present names a free page, or a frame that nobody outside the range uses |
| `Ownership.TakeKeeps` | kernel/arch/x86-64/memory/physical_allocator.c:106-116 | a page taken from the free list is used by nobody |
| `Ownership.RootAlone` | kernel/memory/vmm.c:255-263 | an uncleared page is an empty tree of tables exactly when none of its entries in use is present, and then it translates nothing |
| `Ownership.StepOpened` | kernel/arch/x86-64/memory/vm.c:117-123 | every operation on a space keeps all links of all spaces writable, user and executable, so that pages have the rights of their descriptors |
| `Ownership.StepKeepsSharing` | kernel/arch/x86-64/memory/vm.c:153-219 | an operation through a space's own root keeps every sharing between spaces, but for slots it fills that were empty when copied |
| `Ownership.StepSharingExact` | kernel/arch/x86-64/memory/vm.c:153-219 | once the slots in question have tables, a sharing has lasted exactly if those of them that it covers were filled before |
| `Ownership.SharedAlike` | kernel/arch/x86-64/memory/vm.c:214-219 | spaces that share a slot translate every page below it alike, rights included |
| `Ownership.Vm.Adopt` | kernel/arch/x86-64/memory/vm.c:35-85 | a blank root that does not come from kalloc, such as the kernel's own, becomes an address space; single ownership and sharing are kept |
| `Ownership.Vm.NewSpace` | kernel/memory/vmm.c:255-257 | the root of a new address space is a page nobody else uses, and single ownership and sharing are kept; the space is usable exactly when the page is blank |
| `Ownership.Vm.HigherHalf` | kernel/arch/x86-64/memory/vm.c:214-219 | the upper slots of the kernel are shared from then on; single ownership, what is mapped and all other sharing are kept |
| `Ownership.Vm.Map` | kernel/arch/x86-64/memory/vm.c:153-175 | through a space's own root: all or nothing, with single ownership kept when the frames are unused; on success the hardware grants exactly the rights asked for, and all other pages of the space keep theirs; after a success, exactly the sharings of slots that were empty and are filled are lost |
| `Ownership.Vm.Unmap` | kernel/arch/x86-64/memory/vm.c:196-212 | exactly the pages of the range are unmapped; with free, exactly the frames named there become free, and single ownership is kept exactly when the stale descriptors are harmless; sharing is kept |
| `Ownership.Vm.Update` | kernel/arch/x86-64/memory/vm.c:177-191 | every mapped page in the range gets exactly the new write, user and no-execute rights, as the hardware sees them, and nothing else changes; ownership, what is mapped and sharing are kept |
| `Ownership.Vm.MapVia` | kernel/arch/x86-64/memory/vm.c:153-175 | the same as Map for the pages of the kernel through a root that shares their slots, if these were filled when copied, seen through both roots; every sharing is kept |
| `Ownership.Vm.UnmapVia` | kernel/arch/x86-64/memory/vm.c:196-212 | the same as Unmap for the pages of the kernel through a root that shares their slots |
| `Ownership.Vm.UpdateVia` | kernel/arch/x86-64/memory/vm.c:177-191 | the same as Update for the pages of the kernel through a root that shares their slots, seen through both roots |
| `Ownership.Vm.OnDemand` | kernel/memory/vmm.c:242-247 | single ownership is kept; the page is mapped exactly when it was not and there is memory for its tables, to a frame that was free, or to frame 0 exactly when memory had run out, and with exactly the rights of its area; no other page changes |
| `Ownership.Vm.NewContainer` | kernel/memory/vmm.c:117-130 | a container is a page nobody else uses |
| `OwnershipRuns.StaleRun` | kernel/arch/x86-64/memory/vm.c:204-206 | a page is demanded, its area freed, the frame reused by other pages, and the first range freed once more: a frame in use is on the free list |
| `OwnershipRuns.UntouchedPage` | kernel/arch/x86-64/memory/vm.c:204-206 | freeing an area of two pages, the second never touched, hands page 0, which its cleared descriptor names, to kfree |
| `OwnershipRuns.UnclearedRoot` | kernel/memory/vmm.c:255-263 | from a memory that is not clear, the root of a new address space translates a user page to a frame on the free list |
| `OwnershipRuns.PageZeroClash` | kernel/arch/x86-64/memory/vm.c:162-164 | mapping page 0 twice leads into the roll-back of `Paging.RollBackZero` |
| `OwnershipRuns.LateSlot` | kernel/arch/x86-64/memory/vm.c:214-219 | a page that the kernel demands after map_higher_half is translated through its root and not through the user's |
| `Heap.LiveDisjoint` | kernel/memory/heap.c:51-66 | in a tiled arena two allocations in use never share a byte |
| `Heap.SpliceTiles` | kernel/memory/heap.c:54-82 | replacing blocks by others over the same stretch keeps the tiling |
| `Heap.CutBack` | kernel/memory/heap.c:54-62 | handing out a block keeps all `prev` links right exactly when it is not split in front of another block |
| `Heap.AbsorbedKnown` | kernel/memory/heap.c:70-82 | when a block is absorbed, every `prev` is NULL or an earlier block afterwards exactly if that held of all blocks but it and the one behind, and none of them named it |
| `Heap.ResizedKnown` | kernel/memory/heap.c:93-129 | the same for a block that is cut back or grows in place: only the start of the neighbour, if it moves, must not be named |
| `Heap.Arena.constructor` | kernel/memory/heap.c:10-16 | one free block tiles the arena |
| `Heap.Arena.FirstFit` | kernel/memory/heap.c:24-27 | the first free block that is large enough, or else the last block |
| `Heap.Arena.Alloc` | kernel/memory/heap.c:18-67 | NULL exactly when no free block is large enough; else the first that is, split exactly if more than a header is left; the arena stays tiled, the allocations gain exactly one of at least the size asked for and at most a header more, and every `prev` that names a block still does |
| `Heap.Arena.MergeRight` | kernel/memory/heap.c:69-82 | a free right neighbour is absorbed, tiling and allocations are kept, the block behind names this one, and every other `prev` is kept; exactly when all name blocks afterwards |
| `Heap.Arena.MergeLeft` | kernel/memory/heap.c:145-154 | the left neighbour absorbs the block exactly when it is free and `prev` names it; a stale `prev` that names another block never misleads it; what becomes of every `prev` |
| `Heap.Arena.Free` | kernel/memory/heap.c:132-157 | exactly the freed allocation goes and the arena stays tiled; it faults exactly when it merges left with nothing behind; freeing twice changes nothing; the `prev` of the block behind and of all others, and exactly when all of them name blocks afterwards |
| `Heap.FreedCoalesced` | kernel/memory/heap.c:142-154 | with right `prev` links no two free blocks are left side by side |
| `Heap.Arena.Shrink` | kernel/memory/heap.c:96-107 | the allocation keeps its start with the new size, the rest becomes free and merges, and tiling is kept; exactly when every `prev` still names a block |
| `Heap.Arena.Resize` | kernel/memory/heap.c:93-129 | resizes in place exactly when shrinking or when the free right neighbour has room; no other allocation changes; exactly when every `prev` still names a block |
| `Heap.Arena.Realloc` | kernel/memory/heap.c:84-130 | replaces the allocation by one of at least the new size, others unchanged; it faults exactly when it can neither stay in place nor find a block, or when the free after a move merges left with nothing behind |
| `Heap.DanglingPrev` | kernel/memory/heap.c:54-62 | a run of fitting allocs and frees after which an allocation's `prev` names no block |
| `Heap.FreeAtEnd` | kernel/memory/heap.c:145-152 | two allocations that fill the arena are freed in order, and the second free follows the NULL `next` |
| `HeapBytes.GrowRefines` | kernel/memory/heap.c:119-127 | byte by byte, unless a byte of the neighbour's `next` is changed before it is read, the writes leave in memory exactly the arena that `Heap.Arena.Resize` promises |
| `HeapBytes.GrowIff` | kernel/memory/heap.c:119-123 | in a given arena the new header's `next` leads to the block behind exactly if the bytes of the neighbour's `next` that the new size and status hit already have those values |
| `HeapBytes.GrowExact` | kernel/memory/heap.c:119-123 | so it is in every arena exactly when the growth is not by 16 to 31 bytes; for each of those an arena of three blocks is given in which it is not |

## Left out

- The growth path of `alloc` in `kernel/memory/heap.c` (lines 29-49) and the gap search of `vmm_alloc_at` (lines 70-99): neither completes what it is meant to do. Both count as returning NULL.
- Heap.Arena.Free: requires that `prev` of the block freed is NULL or an earlier block. `Heap.DanglingPrev` shows that a run can lose this, and the contracts say exactly when; what `free` then reads is old payload, which the model does not hold.
- Heap.Arena.Realloc: says nothing of the copied bytes, because payload contents are not modelled, nor of `prev` after a move; requires of growth in place what `HeapBytes.GrowIff` shows to be the exact condition for the headers to be those of an arena.
- Heap.Arena.Resize: the same requirement on growth in place, a condition on two numbers that the caller can compute.
- Heap.Arena.MergeLeft: the same requirement on `prev` as for `Heap.Arena.Free`.
- Heap.Arena.Alloc: the growth path counts as returning NULL.
- Heap.Arena.Shrink: block sizes are unbounded numbers; inside an arena of less than 2^64 bytes the code's sums do not wrap.
- Areas.Vmm.Alloc: requires that kalloc gives a page when a container is needed, which the code does not test.
- Areas.Vmm.FindContainer: requires a live area, as for `Areas.Vmm.Free`.
- Areas.Vmm.Free: requires a live area; for any other the walk may follow the unset `next` of the last container. The unmapping it ends with is `Ownership.Vm.Unmap`, with free exactly if the area is not marked as MMIO.
- Ownership.Vm.Map: requires that the frames are in nobody's use or not managed by the allocator, as its callers see to; when the roll-back does not end nothing is promised.
- Ownership.Vm.MapVia: requires that the slots of the range were filled when copied; what happens otherwise is `Sharing.LateSlotDiffers`.
- Ownership.Vm.OnDemand: the page is given, with the lookup of its area left to `Areas.Vmm.Lookup`; page 0 is excluded, because no address space has areas there.
- Ownership.Vm.NewSpace: the heap blocks of `vmm_create` and its error paths are not modelled; `vmm_destroy` is left out.
- Paging.Pager.Walk: no large pages below the root slots in question. Pages below other slots, such as 509 to 511 with the direct map, the recursive entry and the kernel image, are covered as far as their tables are none of those in question.
- Paging.Pager.MapPages: ranges are canonical and do not reach the last page of the address space, where by `Paging.LoopEnds` the loop never ends; memory is addressed by frame, without the direct-map offset.
- Paging.Pager.UpdatePages: the same of ranges.
- Paging.Pager.UnmapPages: the same of ranges. The words that kfree writes into a freed page for its list are kept apart from the contents of the page, so a table that is freed while in use still reads as a table; nothing is promised once kfree was given a page it does not manage.
- PhysAlloc.Allocator.Release: requires a page of the managed range; for any other the code indexes the bitmap unchecked, which `ok` of `Paging.Pager.UnmapPages` reports. The bitmap is kept bit by bit, justified by `PhysAlloc.ByteBit`; concurrent calls are not modelled.
- PhysAlloc.Allocator.constructor: does not say that the last page lies inside the RAM area, because the page count is taken from the full size while the base skips a page.
- RbTree.SchedTree.Insert: the allocation of a node always succeeds, as the code assumes; keys of queued entities do not change while queued.
- Scheduler.Cpu.Schedule: one CPU, because the run queue has no lock; calls after one that missed its pick are not covered.
- Scheduler.Cfs.Enqueue: requires a thread that is not queued; after a missed dequeue the code charges a queued thread, which changes a key inside the tree.
- Scheduler.Cpu.PutBack: the same requirement.
- SchedSpec.NoStarvation: assumes that every pick is found, no wrap-around and a clock past every start time; no admissions within the run, because each may come in front; proportional fairness is not claimed, since the start time is never updated after admission.
- Spinlock.RunInv: callers release and count only under locks they hold and pop what they pushed; a push count below 2^32; no interrupt handler runs inside a critical section; memory is sequentially consistent; counters do not wrap.
- `destroy_thread` beyond removing the thread from the scheduler, process and thread arrays, ELF loading.
- `get_timeslice` and `arm_timer`: a clamp and a device; the clock is a parameter.
- `freewalk`: never called, and it clears a copy of the entry.
- i386, boot and interrupt assembly, descriptor tables, APIC, IOAPIC, HPET, serial and PS/2 drivers, ACPI and multiboot parsing, terminal, libc helpers: hardware access, parsing of raw memory, or easy members only.
