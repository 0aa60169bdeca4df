# A verified model of the tuna-os kernel

tuna-os is a small x86-64 kernel. This project models its memory, loading and scheduling layers in Dafny and proves what they promise over all inputs and all runs. State that the kernel updates in place is modelled as classes whose methods follow the C code loop by loop; each method is proved against a function on values, and the theorems are about those functions.

| module | models |
|---|---|
| `Bits`, `Bytes`, `Folding` | machine words, `\|` on naturals; little-endian records; runs of steps, concatenation, permutations |
| `Frames`, `BootFrames`, `Multiboot` | the bitmap frame allocator, `pmm_init`, the boot information |
| `PageTables`, `Mapping`, `Vmm` | four-level page tables as the processor reads them, as a tree, and as a plain map |
| `Loading`, `Elf`, `Loader`, `ProgramImage`, `ElfFormat` | pages placed in fresh frames, ELF segments, what user mode then reads, and what that means for the bytes of a file |
| `Files`, `SyscallTrace`, `ExecCycle`, `Syscalls` | exec and exit: the saved frame, the address space, the frames they use |
| `HeapLayout`, `Kheap`, `HeapPages` | the kernel heap as a block list, in memory, and the pages behind it |
| `Ramfs` | the RAM filesystem on that heap |
| `Tasks`, `TaskRuns`, `TaskFates`, `TaskList`, `Reaping`, `Scheduler` | the ring of tasks on values, over all runs, what becomes of each task, and the ring as linked control blocks |
| `ContextSwitch`, `Contexts`, `TaskContexts`, `TaskMachine`, `SchedulerActs` | `switch_to`, tasks that share a processor, the scheduler's tasks as such, whole runs of them over memory, and the scheduler's methods as steps of those runs |

## Main results

- **Page tables are a map.** Every run of `vmm_map_page` and `vmm_unmap_page` that finds frames for its tables does to the page tables what it does to a plain map from pages to entries, takes exactly the frames it needs, and changes no other page (`Mapping.RunRefines`). A call that runs out of frames changes no translation (`Mapping.MapRefines`). In every sound state the rights the processor computes by combining four levels are those of the leaf (`Mapping.TranslateIsLeaf`), although `vmm_map_page` widens shared links; it widens them only above pages for user mode (`Mapping.MapOpens`).
- **A loaded program means what its file says.** For every file that holds the encoding of an ELF header and program headers in the gABI's order, user mode reads at each address the byte the headers give it and may write there exactly if they say so (`ElfFormat.ProgramLoaded`), and the loader accepts exactly the files it should (`ElfFormat.AcceptedIff`). For any image at all the same holds in terms of the segments the loader reads (`ProgramImage.LoadedByte`), whatever the order of disjoint segments (`ProgramImage.SegmentOrderIrrelevant`).
- **Exec then exit goes back to the shell.** A successful exec starts the child at its entry point, in user mode, with a stack it may write (`Syscalls.Kernel.HandleExec`) and its own file in memory (`ElfFormat.ChildReadsFile`). Whatever the child writes, the caller continues as if exec had returned 0, and user mode reads the shell's file image in the shell's pages again (`Syscalls.Kernel.ExecThenExit`, `ExecCycle.CycleRestoresShell`, `ElfFormat.CycleRestoresFile`). Pages that neither program is loaded to translate as before (`ExecCycle.CycleKeepsOthers`). What user mode reads through such a page survives every run of the child if and only if the child cannot write its frame, which can be told from the page tables before the exec (`ExecCycle.BytesSurviveIff`, `ExecCycle.WritableIffExposed`). A cycle costs an exact number of frames, which bounds the number of cycles (`ExecCycle.CycleCost`, `ExecCycle.CyclesBounded`). An exec that fails half way leaves everything that is on no page of the file it named or of the child's stack (`Syscalls.ExecLeavesRest`). Every exit that returns belongs to its own exec (`SyscallTrace.ExitsMatchedOnce`).
- **The heap is canonical.** After any run the block list is determined by where the heap ends and which blocks are live (`HeapLayout.Canonical`, `HeapLayout.RunsCanonical`), so the order of frees does not matter and freeing everything leaves one block. `kmalloc` splits the lowest-addressed block that fits and hands out less than 32 bytes more than asked for (`HeapLayout.MallocSplits`, `HeapLayout.MallocGrants`).
- **The scheduler is fair and leaks nothing.** A READY task with i others ahead of it runs after at most i + 1 calls of `schedule` plus one for each task created meanwhile (`TaskRuns.BoundedWaiting`); in every run the live heap blocks are exactly those of the tasks in the ring and those of other users (`TaskRuns.MemoryConserved`).
- **A task runs until it exits, and never after.** In every run from `task_init` the tasks in the ring that are not dead are exactly those that have not called `task_exit` (`TaskFates.AliveFromBoot`). One that exits while another can run never runs again, and the next call of `schedule` removes it and frees its blocks (`TaskFates.NeverRunsAgain`, `TaskFates.DeadGoes`).
- **Contexts survive switches.** In every run of the task system from `task_init`, interleaved with any other use of the heap, a task that stops running and runs again returns from `switch_to` with the registers, stack pointer and return address it had (`TaskMachine.TaskResumesAsItLeft`), and a new one starts in the trampoline (`TaskMachine.TaskStartsInTrampoline`). What `kmalloc`, `kfree` and the list operations write spares every sleeping stack, because headers are written only off live payloads (`Kheap.KernelHeap.Kmalloc`, `Kheap.KernelHeap.Kfree`, `TaskMachine.TouchedWrites`, `TaskMachine.NotWritable`). The methods that model `schedule`, `task_exit`, `task_create`, `kmalloc` and `kfree` are proved to be steps of such runs (`SchedulerActs.ScheduleActs` and the members after it).
- **After boot the free frames are the right ones**, from the bytes of the boot information on (`Multiboot.BootMemoryMeans`), when every available entry of the memory map meets a condition on its base and length (`BootFrames.InitialFreeMeans`), which is exact for each entry (`BootFrames.InitialFreeExactly`); `used_frames` is the number of set bits exactly when no two entries overlap (`BootFrames.UsedIsCounted`).

## Where the code falls short of a promise

- A memory map entry above 16 TiB can leave frames below 128 MiB free that are in no entry, because frame numbers are truncated to 32 bits. `BootFrames.HighRegionTruncated` gives such an entry for every frame it can happen to; `BootFrames.ExactOutside` is the condition on an entry, and `BootFrames.InitialFreeExactly` proves that it is exact for that entry.
- `used_frames` counts a frame once for each available entry that covers it. `BootFrames.UsedIsCounted` proves that the counter is right if and only if no two available entries share a frame, and `BootFrames.OverlapMiscounts` shows an entry that is listed twice.
- `pmm_get_free_count` subtracts a count of all frames below 128 MiB from a count of the available ones only. `Frames.FrameAllocator.FreeCount` states by how much the result is off, and that it is right if and only if `total_frames` is 32768.
- Three sums in `kmalloc` and `kheap_expand` can wrap around 64 bits: the block size, the page rounding, and the new end of the heap. `HeapLayout.DecidesRight` proves that `kmalloc` uses a block, grows the heap or refuses as it should if and only if `HeapLayout.Unwrapped` holds of the heap and the size; `HeapLayout.EndWraps` gives a size at which the limit test passes although nothing fits. A block that is handed out is large enough if and only if the first sum does not wrap (`HeapLayout.RoomIff`).
- The end of the program header table is computed modulo 2^64. `ElfFormat.AcceptedIff` proves that `elf_load` accepts a file as it is meant to if and only if that sum does not wrap around to a place within the image.
- An exit gives the shell back its file image, but not its stack: `usermode_exec_elf` maps the stack for user mode to write, and `handle_exit` loads the file's segments only. `ExecCycle.ShellStackOverwritten` shows that for any address in the stack, any byte, and any child and shell with no segment on that page, some run of the child leaves that byte there. `ExecCycle.BytesSurviveIff` is the exact condition under which a byte outside the loaded pages survives.
- A file created under a name of 64 or more characters cannot be found under that name: `ramfs_create` truncates it and `ramfs_find` does not (`Ramfs.FoundUnderItsName`, `Ramfs.FileSystem.Create`).
- `alloc_table` takes frame 0 for a failure but uses it up. Frame 0 is never free after `pmm_init`; `Vmm.AddressSpace.AllocTable` says what happens if it is.

Two comments in the source differ from its code, and the model follows the code: `kernel/src/ramfs.c:54` says that a file is appended to the list, but it becomes the head; `kernel/src/switch.S:8` lists the saved registers from RBX down to the return address, but in memory the return address follows RBX and R15 comes first.

## Premises

The code relies on the following without checking it, and the model takes it for granted.

- A physical frame can be written through its physical address at all times.
- A request to `kmalloc` does not make the new end of the heap wrap around 64 bits (`HeapLayout.InReach`), and heap addresses stay below the user addresses.
- There are frames for the pages behind the heap when it grows: `kheap_map_region` does not report failure.
- `p_offset + p_filesz` lies within an image, program headers are at least 56 bytes apart, and image bytes do not change. An image is what is read at each offset from its start.
- Operations are atomic: no timer interrupt arrives in the middle of one.
- Block headers, control blocks of tasks and nodes of files are read and written as records. That they do not get into each other's way is proved in both directions: clients write into payloads only, which changes no header (`Kheap.KernelHeap.ClientStore`), and headers are written off the payloads that stay live (`Kheap.NotWritten`, `Ramfs.HeadersSpare`, `TaskMachine.HeadersWritable`).
- A task writes to no other task's stack, and files are not written after they have been created.
- The words that `switch_to` and `task_create` put on stacks are aligned to 8 bytes, a task's stack has room for them, and the boot stack lies outside the heap.
- The walk over the boot information reaches an end tag. What it then records is stated for any tags, and for those that are well formed in the sense of section 3.6 of the Multiboot2 Specification it is the entries of their memory maps.
- Serial output has no effect.

## Model

| member | source | states |
|---|---|---|
| `Frames.SetBitUses` | kernel/src/pmm.c:12-14 | setting a bit takes exactly that frame out of the free set |
| `Frames.ClearBitFrees` | kernel/src/pmm.c:16-18 | clearing a bit adds exactly that frame to the free set |
| `Frames.FrameAllocator.FindFree` | kernel/src/pmm.c:88-106 | the scan that skips full bytes ends at the lowest free frame, or at the end if there is none |
| `Frames.FrameAllocator.AllocFrame` | kernel/src/pmm.c:88-107 | hands out the lowest free frame and takes exactly it; 0 and no change when none is free; a right counter stays right |
| `Frames.FrameAllocator.FreeFrame` | kernel/src/pmm.c:109-119 | gives back exactly the frame of the address, or nothing beyond the bitmap; a right counter stays right |
| `Frames.FrameAllocator.FreeCount` | kernel/src/pmm.c:121-123 | with a right counter, the reported count is the true one plus total_frames minus 32768, modulo 2^32, so it is the true one if and only if total_frames is 32768 |
| `BootFrames.Release` | kernel/src/pmm.c:46-50 | frees exactly the frames of the range and moves both counters by its size |
| `BootFrames.Reserve` | kernel/src/pmm.c:55-60 | takes exactly the range out of the free set and counts only frames that were free |
| `BootFrames.Init` | kernel/src/pmm.c:24-86 | the free frames are those of the available entries without low memory and the kernel; both counters, with what overlapping entries add |
| `BootFrames.TotalIsSize` | kernel/src/pmm.c:46-50 | sizes of ranges add up to the size of their union if and only if they are disjoint |
| `BootFrames.FramesTruncated` | kernel/src/pmm.c:37-44 | the computed frame numbers are the true ones modulo 2^32; the 64-bit wrap-around adds nothing |
| `BootFrames.TakenExactly` | kernel/src/pmm.c:37-44 | on any stretch of frames, those taken from an entry are those wholly inside it if and only if Exact holds of its base and length there |
| `BootFrames.LowRegionsExact` | kernel/src/pmm.c:37-44 | every entry that ends below 16 TiB is exact |
| `BootFrames.HighRegionTruncated` | kernel/src/pmm.c:40-50 | for every frame from 1 MiB to 128 MiB outside the kernel, a one-page entry above 16 TiB leaves it free after pmm_init though it is in no entry |
| `BootFrames.KernelFrames` | kernel/src/pmm.c:63-70 | the kernel's frames are exactly those that hold a byte of its image |
| `BootFrames.InitialFreeMeans` | kernel/src/pmm.c:24-86 | when every available entry is taken exactly between 1 MiB and 128 MiB outside the kernel, a frame is free after pmm_init if and only if it is there and wholly in an available entry |
| `BootFrames.InitialFreeExactly` | kernel/src/pmm.c:24-86 | for a memory map of one entry, the free frames are right if and only if that entry is taken exactly there |
| `BootFrames.UsedIsCounted` | kernel/src/pmm.c:29-60 | used_frames is the number of set bits if and only if no two available entries share a frame |
| `BootFrames.OverlapMiscounts` | kernel/src/pmm.c:46-50 | an available entry listed twice makes used_frames too small by the number of its frames |
| `Multiboot.BootMap.Parse` | kernel/src/multiboot2.c:9-39 | for any boot information in which the walk reaches an end tag, well formed or not, what is recorded is what the visited tags yield, up to 32 entries |
| `Multiboot.TagsVisited` | kernel/src/multiboot2.c:15-38 | in well-formed boot information, where each tag starts at the next multiple of 8, the walk visits every tag and ends |
| `Multiboot.TagsFound` | kernel/src/multiboot2.c:15-38 | there it finds the entries of all memory maps, base, length and type each at its own offset, in order, as many as there is room for |
| `Multiboot.WalkFinds` | kernel/src/multiboot2.c:9-39 | whatever walk over well-formed boot information ends, it has found its first 32 entries |
| `Multiboot.ReadsTags` | kernel/src/multiboot2.h:15-37 | boot information encoded byte by byte, little-endian in the order of the fields, is well formed as the kernel reads it |
| `Multiboot.BootMemoryMeans` | kernel/src/kernel.c:24-30 | from the bytes of the boot information to the free frames: where entries are taken exactly, a frame is free if and only if it is usable and wholly in one of the first 32 entries that is available |
| `Multiboot.BootMap.ReadMap` | kernel/src/multiboot2.c:21-35 | the entries of one map are appended until 32 are recorded |
| `Multiboot.InitMemory` | kernel/src/kernel.c:24-30 | parsing followed by pmm_init: the free frames as a function of the boot information, which if well formed are those of its first 32 entries, and when the counter is right |
| `PageTables.PathRoundTrip` | kernel/src/vmm.c:8-11 | the four 9-bit indices determine the page number modulo 2^36 |
| `PageTables.PageRoundTrip` | kernel/src/vmm.c:8-11 | every list of four indices is the path of one page number below 2^36 |
| `PageTables.AddressFields` | kernel/src/vmm.c:8-11 | the four indices are the address bits from 39, 30, 21 and 12 on |
| `PageTables.WalkFollows` | kernel/src/vmm.c:29-76 | the processor's walk ends at the page's leaf, with the user rights of the path combined |
| `PageTables.WalkIsLeaf` | kernel/src/vmm.c:29-76 | where links are at least as permissive as the leaves below them, the walk yields the leaf's own rights |
| `PageTables.LinkEffect` | kernel/src/vmm.c:37-71 | linking an empty table or widening a link changes no leaf |
| `Mapping.StepEvolves` | kernel/src/vmm.c:37-45 | one level of the walk keeps the tables sound, adds at most that table, and touches no other frame |
| `Mapping.BuildSucceeds` | kernel/src/vmm.c:37-71 | the page table is reached if and only if there are as many free frames as tables the page lacks |
| `Mapping.MapRefines` | kernel/src/vmm.c:29-76 | with enough frames the plain map is updated at that page alone; without, it is unchanged; the tables stay sound and no other frame is written |
| `Mapping.TranslateIsLeaf` | kernel/src/vmm.c:29-76 | in every sound state the processor's translation is the leaf's frame and rights |
| `Mapping.MapTranslates` | kernel/src/vmm.c:29-76 | as the processor sees it, one page changes, or none when frames run out |
| `Mapping.MapMeans` | kernel/src/vmm.c:29-76 | in addresses: the page of virt is mapped to the frame of phys, writable by bit 1 and open to user mode by bit 2 of the flags, and every other page translates as before |
| `Mapping.UnmapMeans` | kernel/src/vmm.c:78-97 | in addresses: the page of virt faults, and every other page translates as before |
| `Mapping.MapOpens` | kernel/src/vmm.c:32-71 | a link is opened to user mode only on the path of a page that is mapped for user mode |
| `Mapping.UnmapRefines` | kernel/src/vmm.c:78-97 | unmapping clears exactly that page and keeps the tables sound |
| `Mapping.DoRefines` | kernel/src/vmm.c:29-97 | one call updates the plain map and takes exactly as many frames as tables were missing |
| `Mapping.RunRefines` | kernel/src/vmm.c:29-97 | every run with frames for its tables refines the plain map and takes exactly those frames |
| `Mapping.BootMapsIdentity` | kernel/src/vmm.c:99-134 | after vmm_init with five free frames, the first 4 MiB are mapped to themselves for the kernel, nothing else is, and five frames are used |
| `Vmm.AddressSpace.AllocTable` | kernel/src/vmm.c:17-27 | a fresh table is the lowest free frame with 512 zero entries; none and no write when no frame is free; a free frame 0 is used up without becoming a table |
| `Vmm.AddressSpace.NextTable` | kernel/src/vmm.c:37-45 | one level of the walk is the step of the specification, in both the present and the absent case |
| `Vmm.AddressSpace.LeafTable` | kernel/src/vmm.c:32-71 | the three levels build the path down to the page table, or stop where frames run out |
| `Vmm.AddressSpace.MapPage` | kernel/src/vmm.c:29-76 | the new state is the specified one, for every address, frame and flags |
| `Vmm.AddressSpace.FindLeafTable` | kernel/src/vmm.c:78-93 | the read-only walk finds the page table if all levels are present |
| `Vmm.AddressSpace.UnmapPage` | kernel/src/vmm.c:78-97 | the new state is the specified one, also when a level is absent |
| `Vmm.AddressSpace.MapIdentity` | kernel/src/vmm.c:113-117 | the loop maps the pages in order |
| `Vmm.AddressSpace.Init` | kernel/src/vmm.c:99-134 | builds the boot address space of the specification, or none if no frame or frame 0 comes first |
| `Loading.PlaceRefines` | kernel/src/elf.c:65-101 | placing a page updates the plain map at that page alone and takes one frame and the missing tables |
| `Loading.PlaceFills` | kernel/src/elf.c:65-101 | the frame of a placed page holds its bytes, is no table and is out of the allocator |
| `Loading.PlaceFails` | kernel/src/elf.c:65-101 | a page that cannot be placed changes no mapping and leaves no free frame |
| `Loading.PlaceAllSucceeds` | kernel/src/elf.c:64-101 | a load with enough frames takes exactly what it needs |
| `Loading.PlaceAllFails` | kernel/src/elf.c:64-101 | a load without enough frames ends with none left |
| `Loading.PlaceAllShows` | kernel/src/elf.c:64-101 | afterwards every page shows the last load that went there, and other pages are mapped as before |
| `Loader.FillPage` | kernel/src/elf.c:72-97 | the zeroing and copying loops produce the page the segment prescribes, byte by byte |
| `Loader.LoadPage` | kernel/src/elf.c:65-101 | one round of the loop places the page of the specification |
| `Loader.LoadSegment` | kernel/src/elf.c:43-102 | the loop places the segment's pages in order, also when frames run out |
| `Loader.ElfLoad` | kernel/src/elf.c:104-147 | loads every PT_LOAD segment and returns the entry point, or rejects the image and changes nothing; ElfFormat says what that means in terms of the bytes of the file |
| `ProgramImage.LoadedByte` | kernel/src/elf.c:43-147 | user mode reads at every address of a loaded page the byte of the last segment that covers it: file data, or zero |
| `ProgramImage.LoadReads` | kernel/src/elf.c:64-101 | after a load of distinct pages, user mode reads the page loaded there, or what it read before |
| `ProgramImage.LoadKeepsBytes` | kernel/src/elf.c:64-101 | with enough frames or not, user mode reads outside the loaded pages what it read before |
| `ProgramImage.LoadOrderIrrelevant` | kernel/src/elf.c:64-101 | distinct pages can be placed in any order |
| `ProgramImage.SegmentOrderIrrelevant` | kernel/src/elf.c:124-140 | when no two segments share a page, the order of the program headers does not matter |
| `Bytes.Read64` | kernel/src/elf.h:5-33 | a 64-bit field holds the number whose little-endian encoding is there |
| `ElfFormat.HeaderDecoded` | kernel/src/elf.h:5-21 | in a file that starts with the encoding of a header, the loader finds that header's entry point and program header table |
| `ElfFormat.AcceptedIff` | kernel/src/elf.c:104-118 | it accepts the file if and only if it is an executable little-endian 64-bit file for x86-64 that holds its program header table, as far as a sum modulo 2^64 tells; that is right if and only if the sum does not wrap to within the image |
| `ElfFormat.SegmentsDecoded` | kernel/src/elf.h:23-33 | the segments are those of the encoded PT_LOAD headers, field by field and in order |
| `ElfFormat.ProgramLoaded` | kernel/src/elf.c:43-147 | user mode reads at each address of the program the byte the file's headers give it, file data or zero, and may write there if and only if the header has PF_W |
| `ElfFormat.ProgramElsewhere` | kernel/src/elf.c:43-147 | pages that no PT_LOAD header is on translate as before |
| `ElfFormat.ChildReadsFile` | kernel/src/syscall.c:136-154 | after a successful exec the child reads its file like that on every page outside its stack |
| `ElfFormat.CycleRestoresFile` | kernel/src/syscall.c:176-195 | after exec, any run of the child and exit, user mode reads the shell's file like that |
| `ExecCycle.ExecSucceedsIff` | kernel/src/syscall.c:136-151 | the stack pages get their frames if and only if there were frames for every page and table of the child |
| `ExecCycle.UserRunSafe` | kernel/src/syscall.c:136-171 | whatever user mode writes through its writable pages, the page tables stay as they are |
| `ExecCycle.ExecKeepsBytes` | kernel/src/syscall.c:126-154 | an exec, even one that runs out of frames, leaves user mode what is on no page of the child or its stack |
| `ExecCycle.CycleRestoresShell` | kernel/src/syscall.c:111-195 | after exec, any run of the child and exit, user mode reads the shell's file image in the shell's pages |
| `ExecCycle.CycleKeepsOthers` | kernel/src/syscall.c:111-195 | pages outside the child, its stack and the shell translate as before |
| `ExecCycle.WritableIffExposed` | kernel/src/syscall.c:136-154 | while the child runs, user mode can write a frame that was in use before if and only if a writable page that the exec does not replace leads to it |
| `ExecCycle.CycleKeepsBytes` | kernel/src/syscall.c:111-195 | what user mode reads outside the loaded pages, through a frame the child cannot write, is the same after the cycle |
| `ExecCycle.ChildOverwrites` | kernel/src/syscall.c:111-195 | through a frame the child can write, some run of it makes user mode read any byte at all after the cycle |
| `ExecCycle.BytesSurviveIff` | kernel/src/syscall.c:111-195 | a byte outside the loaded pages survives every run of the child if and only if its page is not open to user mode or its frame is not exposed |
| `ExecCycle.ShellStackOpen` | kernel/src/usermode.c:8-30 | both stack pages of the shell are open to user mode for writing after usermode_exec_elf |
| `ExecCycle.ShellStackOverwritten` | kernel/src/syscall.c:176-195 | the shell's stack is not restored: any byte can be anywhere in it after exec, a run of the child and exit, unless a segment covers the page |
| `ExecCycle.CycleHappens` | kernel/src/syscall.c:111-195 | with frames for both loads there is a cycle, whatever the child writes |
| `ExecCycle.BootOwned` | kernel/src/vmm.c:99-134 | after vmm_init the premises of a cycle hold: the tables are sound and user mode reaches nothing |
| `ExecCycle.LoadConserves` | kernel/src/elf.c:65-101 | free frames, tables and placed pages add up before and after a load |
| `ExecCycle.CycleCost` | kernel/src/syscall.c:136-195 | a cycle takes exactly the child's pages, two, the shell's pages, and the missing tables |
| `ExecCycle.CyclesBounded` | kernel/src/syscall.c:136-195 | all cycles together place no more pages than there were free frames, which bounds their number |
| `SyscallTrace.RunningHasExec` | kernel/src/syscall.c:136-195 | while a child runs, the saved frame is that of the latest successful exec |
| `SyscallTrace.ExitMatchesExec` | kernel/src/syscall.c:176-195 | every exit that returns goes back to the frame of the latest exec, with no exit in between |
| `SyscallTrace.ExitsMatchedOnce` | kernel/src/syscall.c:136-195 | two exits that return belong to two different execs, in the same order |
| `Syscalls.Kernel.MapChildStack` | kernel/src/syscall.c:144-154 | the loop maps two fresh pages, or reports that a frame was missing |
| `Syscalls.Kernel.CopyName` | kernel/src/syscall.c:112-124 | rejects bad arguments, else copies the name up to the first NUL |
| `Files.LookupFinds` | kernel/src/ramfs.c:67-75 | a lookup finds the first entry of that name, if there is one |
| `Syscalls.ExecFinds` | kernel/src/syscall.c:112-134 | exec looks for the name the caller points to if it has 1 to 127 characters, and otherwise for nothing |
| `Syscalls.Kernel.HandleExec` | kernel/src/syscall.c:111-171 | the address space, saved frame and returned frame in all cases: name rejected, file missing or not loadable, frames short, entry 0, or the child started at its entry point, at privilege level 3, with 8 KiB below its stack pointer that it may write, with the caller's other registers |
| `Syscalls.ExecCost` | kernel/src/syscall.c:136-154 | with frames for all of it an exec takes none for a file that is rejected, those of the image if its entry point is 0, and two more for the stack otherwise, besides missing tables |
| `Syscalls.ExecLeavesRest` | kernel/src/syscall.c:111-154 | whether it succeeds or fails, an exec leaves user mode what is on no page of the file it named or of the child's stack |
| `Syscalls.Kernel.HandleExit` | kernel/src/syscall.c:176-195 | halts without a child; otherwise reloads the shell and returns the saved frame with rax 0 |
| `Syscalls.Kernel.Dispatch` | kernel/src/syscall.c:197-224 | for every number the saved-frame state, the address space and the returned frame |
| `Syscalls.Kernel.ExecThenExit` | kernel/src/syscall.c:111-195 | an exec, any run of the child and its exit: the caller continues with its frame and rax 0, user mode reads the shell's image again, and what is sheltered from the child is as it was |
| `HeapLayout.ChainApart` | kernel/src/kheap.c:30-150 | two blocks of the list never overlap |
| `HeapLayout.Canonical` | kernel/src/kheap.c:51-150 | a valid block list is determined by its extent and its live blocks |
| `HeapLayout.BlockSizeFits` | kernel/src/kheap.c:94-98 | the block size has room for the request if and only if the sum at line 95 does not wrap around 64 bits |
| `HeapLayout.RoomIff` | kernel/src/kheap.c:90-127 | a block that is handed out has room for the request if and only if that sum does not wrap |
| `HeapLayout.DecidesRight` | kernel/src/kheap.c:51-59 | kmalloc uses a block, grows the heap or refuses as it would without wrap-around if and only if Unwrapped holds of the heap and the size |
| `HeapLayout.DecisionTaken` | kernel/src/kheap.c:90-127 | kmalloc acts on that decision: 0 and no change, the block found without growth, or growth by whole pages and a new search |
| `HeapLayout.EndWraps` | kernel/src/kheap.c:51-59 | at size 2^64 - 0x210010 on the initial heap nothing wraps at line 95, nothing fits, and yet the limit test passes |
| `HeapLayout.FirstFit` | kernel/src/kheap.c:100-105 | the block found is free and large enough, and no earlier one is |
| `HeapLayout.AllocateKeeps` | kernel/src/kheap.c:105-118 | splitting and marking keep the invariant and make exactly one block live |
| `HeapLayout.ExpandKeeps` | kernel/src/kheap.c:51-88 | growing keeps the invariant and the live blocks and leaves a large enough free block at the end |
| `HeapLayout.FirstFitAfterExpand` | kernel/src/kheap.c:120-126 | after one growth the request fits, so the retry happens at most once |
| `HeapLayout.ProvidedServes` | kernel/src/kheap.c:99-126 | where the request can be served, the search with its retries ends at a heap in which it fits |
| `HeapLayout.ProvidedRefuses` | kernel/src/kheap.c:99-126 | where it cannot, the live blocks stay, and nothing changes unless the page rounding wraps |
| `HeapLayout.MallocGrants` | kernel/src/kheap.c:90-127 | for every request whose new heap end does not wrap: kmalloc fails exactly for size zero or when nothing fits and the heap may not grow; otherwise it adds one new live block, of less than 32 bytes more than asked for |
| `HeapLayout.MallocFirstFit` | kernel/src/kheap.c:100-118 | the block handed out is the lowest-addressed one that fits, and the heap does not grow if one fits |
| `HeapLayout.MallocSplits` | kernel/src/kheap.c:105-118 | the lowest-addressed fit is replaced by a live block of the size asked for and a free one with the rest if that is at least 32 bytes, and by a live block otherwise; all other blocks stay |
| `HeapLayout.CoalesceKeeps` | kernel/src/kheap.c:136-149 | coalescing leaves no two free neighbours and changes neither extent nor live blocks |
| `HeapLayout.FreeKeeps` | kernel/src/kheap.c:129-150 | kfree takes away exactly one live block and keeps the invariant |
| `HeapLayout.MallocThenFree` | kernel/src/kheap.c:90-150 | kfree undoes kmalloc, block for block, when the heap did not grow |
| `HeapLayout.FreeOrderIrrelevant` | kernel/src/kheap.c:129-150 | freeing a set of blocks in any order gives the same heap |
| `HeapLayout.FreeEverything` | kernel/src/kheap.c:129-150 | a heap without live blocks is one free block |
| `HeapLayout.RunsCanonical` | kernel/src/kheap.c:30-150 | after any two runs, heaps of the same extent with the same live blocks are equal |
| `HeapLayout.PayloadApart` | kernel/src/kheap.c:30-150 | a live payload meets no header and no other block |
| `HeapLayout.InitialHeap` | kernel/src/kheap.c:30-49 | the heap kheap_init makes is valid |
| `HeapPages.MapRegion` | kernel/src/kheap.c:19-28 | places the pages of a region in order, until frames run out |
| `HeapPages.RegionMapped` | kernel/src/kheap.c:19-28 | with enough frames every page of the region is in a frame that is neither free nor a table, for the kernel only |
| `HeapPages.RegionElsewhere` | kernel/src/kheap.c:19-28 | pages outside the region translate as before, even if frames run out |
| `Kheap.KernelHeap.FindFit` | kernel/src/kheap.c:100-105 | the walk over headers in memory finds the first fit, or the end |
| `Kheap.KernelHeap.Grow` | kernel/src/kheap.c:51-88 | kheap_expand, with its limit test in 64 bits, grows the heap as specified or refuses exactly at the limit, and writes headers off all live payloads |
| `Kheap.KernelHeap.TakeBlock` | kernel/src/kheap.c:105-118 | the header writes split and mark the block as specified and stay off all live payloads |
| `Kheap.KernelHeap.Provide` | kernel/src/kheap.c:99-126 | the search with its retries ends in the heap of the specification, at its first fit or its end |
| `Kheap.KernelHeap.Kmalloc` | kernel/src/kheap.c:90-127 | new state and pointer are those of the specification, and every header written lies off the payloads that were live before |
| `Kheap.KernelHeap.Kfree` | kernel/src/kheap.c:129-150 | the new state is that of the specification, and every header written lies off the payloads that stay live |
| `Kheap.KernelHeap.CoalesceWalk` | kernel/src/kheap.c:136-149 | the nested loops over headers in memory coalesce every run of free blocks |
| `Kheap.KernelHeap.MergeRun` | kernel/src/kheap.c:139-146 | the inner loop merges a free block with all free blocks after it |
| `Kheap.KernelHeap.ClientStore` | kernel/src/kheap.c:105-118 | a client that writes into its payload changes no block |
| `Kheap.NotWritten` | kernel/src/kheap.c:105-150 | no byte of a live payload belongs to a header that kmalloc or kfree wrote |
| `Ramfs.StrEq` | kernel/src/ramfs.c:9-17 | true if and only if the two C strings are equal |
| `Files.CStringIs` | kernel/src/ramfs.c:9-17 | a C string is what comes before the first NUL |
| `Ramfs.CopyName` | kernel/src/ramfs.c:31-37 | the stored name is the given one cut to 63 characters |
| `Ramfs.FileSystem.Obtain` | kernel/src/ramfs.c:25-45 | two new blocks, or the same live blocks as before, also for sizes that kmalloc refuses after its sums have wrapped around |
| `Ramfs.FileSystem.Create` | kernel/src/ramfs.c:24-65 | prepends one entry to the association list, or fails exactly when kmalloc does and leaves files and live blocks as they were, whatever the heap puts into the headers it writes; the file is then found under its name exactly if that has at most 63 characters |
| `Ramfs.HeadersSpare` | kernel/src/ramfs.c:25-45 | what kmalloc and kfree write into memory as headers changes no byte of any file |
| `Ramfs.FileSystem.Find` | kernel/src/ramfs.c:67-75 | the node of the newest file of that name, with its bytes in memory, or 0 |
| `Ramfs.StillIntact` | kernel/src/ramfs.c:47-50 | writing a new file's data changes no other file's bytes |
| `Ramfs.NewestWins` | kernel/src/ramfs.c:24-75 | later files hide an older one if and only if one of them has its name |
| `Ramfs.FoundUnderItsName` | kernel/src/ramfs.c:31-37 | among files with stored names, a new one is found under the name it was created with if and only if that has at most 63 characters |
| `Ramfs.FindMirrors` | kernel/src/ramfs.c:67-75 | the list exec looks names up in finds the same files |
| `Tasks.FirstReady` | kernel/src/task.c:173-180 | the first READY task of a line, or its length |
| `Tasks.ReapSane` | kernel/src/task.c:162-171 | after reaping, everybody but the current task is READY, in creation order |
| `Tasks.SwitchSame` | kernel/src/task.c:186-194 | a switch moves no task in the ring |
| `Tasks.ScheduleSane` | kernel/src/task.c:158-195 | schedule keeps the ring sane and in order, picks the current task's successor after reaping, and puts the current task last in line |
| `TaskFates.ScheduleMeans` | kernel/src/task.c:158-195 | the first task in line that is not dead runs; the dead in line are gone; the caller waits with its stack pointer, READY unless it is dead; with nobody to run it keeps the processor |
| `TaskFates.SwitchedOutReady` | kernel/src/task.c:188-192 | a RUNNING task that is switched out is READY, and another one is RUNNING |
| `TaskFates.ExitDies` | kernel/src/task.c:143-151 | with somebody else to run, the task that exits is in the ring, dead, and another one runs |
| `TaskFates.ExitAlone` | kernel/src/task.c:143-156 | with nobody else to run it stays current, and dead |
| `TaskFates.DeadGoes` | kernel/src/task.c:162-171 | a dead task in line is out of the ring after the next call of schedule, and its blocks are free |
| `TaskFates.AliveFromBoot` | kernel/src/task.c:23-195 | in every run from task_init a task is in the ring and not dead if and only if it has not called task_exit |
| `TaskFates.NeverRunsAgain` | kernel/src/task.c:143-195 | a task that exits while somebody else can run never runs again, and leaves the ring with the next call of schedule |
| `TaskRuns.WithoutUnique` | kernel/src/task.c:138-140 | freeing a set of blocks in any order ends in the same heap |
| `TaskRuns.OneDeadAtMost` | kernel/src/task.c:158-195 | at most one dead task remains after schedule |
| `TaskRuns.CreateInv` | kernel/src/task.c:45-115 | task_create keeps the invariant; a failed one leaves ring and live blocks as they were |
| `TaskRuns.ScheduledInv` | kernel/src/task.c:158-195 | schedule keeps the invariant and frees only blocks of the tasks it removes |
| `TaskRuns.MarkDeadInv` | kernel/src/task.c:143-151 | task_exit's change of state keeps the invariant |
| `TaskRuns.After` | kernel/src/task.c:45-195 | the invariant holds after every run of create, schedule, exit and other heap calls |
| `TaskRuns.Boot` | kernel/src/task.c:23-43 | task_init establishes the invariant, also when it fails, and leaves other users' blocks alone |
| `TaskRuns.StepConserves` | kernel/src/task.c:45-195 | no call of the scheduler changes the blocks of other heap users |
| `TaskRuns.MemoryConserved` | kernel/src/task.c:23-195 | after every run the live blocks are those of the tasks in the ring and those of other users, and the current task's are among them |
| `TaskRuns.ScheduleAdvances` | kernel/src/task.c:158-195 | each call of schedule brings a READY task one place forward or lets it run |
| `TaskRuns.AppendDelays` | kernel/src/task.c:94-104 | a new task gets in before a waiting one at most once |
| `TaskRuns.CreatedWaits` | kernel/src/task.c:94-104 | a new task is READY and waits behind at most those already in line |
| `TaskRuns.BoundedWaiting` | kernel/src/task.c:45-195 | a READY task with i others ahead runs after at most i + 1 calls of schedule plus one for each task created |
| `TaskList.Unlinks` | kernel/src/task.c:125-132 | redirecting one link and the head removes exactly that task from the circle |
| `TaskList.Links` | kernel/src/task.c:94-104 | two writes insert a task before the head |
| `TaskList.Relabels` | kernel/src/task.c:188-192 | a change of state in place is a change of one task |
| `Reaping.KeepIsReap` | kernel/src/task.c:162-171 | what the walk keeps is what one pass over the ring keeps |
| `Reaping.WalkRemoved` | kernel/src/task.c:164-170 | removing a task during the walk leaves the walk where it was, with less ahead |
| `Reaping.WalkDone` | kernel/src/task.c:164-170 | when the walk is back at the current task, nothing else is dead |
| `Reaping.SwitchesRing` | kernel/src/task.c:186-192 | the two writes of state are a switch to the successor |
| `Scheduler.TaskScheduler.Init` | kernel/src/task.c:23-43 | the boot task alone in the ring, or no task when memory is short |
| `Scheduler.TaskScheduler.Create` | kernel/src/task.c:45-115 | the specified step; on success the first stack frame leads to the trampoline with the entry point; headers are written off the payloads that were live |
| `Scheduler.TaskScheduler.FindTail` | kernel/src/task.c:96-98 | the walk ends at the last task |
| `Scheduler.TaskScheduler.Insert` | kernel/src/task.c:94-104 | the circle with the new task at its end |
| `Scheduler.TaskScheduler.FindPrev` | kernel/src/task.c:126-128 | the walk ends at the predecessor |
| `Scheduler.TaskScheduler.Unlink` | kernel/src/task.c:121-132 | the circle without that task |
| `Scheduler.TaskScheduler.Destroy` | kernel/src/task.c:117-141 | removes exactly that task, frees exactly its blocks, and writes headers off the payloads that stay live |
| `Scheduler.TaskScheduler.ReapDead` | kernel/src/task.c:162-171 | the walk removes all dead tasks but the current one, with their blocks, and never reads a freed control block |
| `Scheduler.TaskScheduler.Pick` | kernel/src/task.c:173-180 | the search ends at the current task's successor |
| `Scheduler.TaskScheduler.Transition` | kernel/src/task.c:188-192 | the states of both tasks change as specified |
| `Scheduler.TaskScheduler.Schedule` | kernel/src/task.c:158-195 | the specified step, with the processor continuing in the context of the task picked and headers written off the payloads that stay live |
| `Scheduler.TaskScheduler.Exit` | kernel/src/task.c:143-151 | the specified step of an exiting task; the switch saves and loads the contexts of the two tasks, and the headers that were written lie off the payloads that stay live |
| `ContextSwitch.Cpu.SwitchTo` | kernel/src/switch.S:14-38 | the caller's context is in memory where the saved stack pointer leads, and the processor continues with the context at the new one |
| `ContextSwitch.Cpu.SaveRegisters` | kernel/src/switch.S:15-21 | six pushes put the caller's context on its stack and write nothing else |
| `ContextSwitch.Cpu.RestoreRegisters` | kernel/src/switch.S:29-38 | six pops and a return load the context that is there |
| `ContextSwitch.Cpu.FirstFrame` | kernel/src/task.c:82-92 | seven words written downwards are the context of a task about to start in the trampoline, entry point in R12 |
| `Contexts.StaysAsleep` | kernel/src/switch.S:14-38 | no step that writes off its stack, resumes it or ends it aside, changes what a sleeping task resumes with |
| `Contexts.RunInv` | kernel/src/switch.S:14-38 | in every run, saved frames lie in their own stacks and stacks do not overlap |
| `Contexts.ResumesAsItLeft` | kernel/src/switch.S:14-38 | a task that was switched out returns from switch_to with the registers, stack pointer and return address it had, whatever was written outside sleeping stacks meanwhile |
| `Contexts.StartsInTrampoline` | kernel/src/task.c:82-92 | a new task first runs in the trampoline with its entry point in R12 and an empty stack |
| `TaskContexts.StacksApart` | kernel/src/task.c:52-61 | in every reachable state the stacks of two tasks do not overlap |
| `TaskContexts.ReapMatches` | kernel/src/task.c:162-171 | reaping, with writes off the surviving stacks, is the end of those tasks on the processor |
| `TaskContexts.SwitchMatches` | kernel/src/task.c:186-194 | a switch on the ring is a switch on the processor |
| `TaskContexts.SpawnMatches` | kernel/src/task.c:82-104 | a new task on the ring is a new task on the processor, and its stack overlaps no other |
| `TaskContexts.ScheduleMatches` | kernel/src/task.c:158-195 | schedule on the ring is one step of the processor: the end of the dead tasks and a switch |
| `TaskMachine.HeadersWritable` | kernel/src/kheap.c:51-150 | the headers kmalloc and kfree write lie where a call may write: off the payloads that stay live and off the boot stack |
| `TaskMachine.NewPayloadWritable` | kernel/src/task.c:46-61 | so do a new control block and a new stack |
| `TaskMachine.TouchedWrites` | kernel/src/task.c:45-195 | memory that changed only in headers off live payloads, control blocks, new blocks and the current stack changed only where a call may write |
| `TaskMachine.NotWritable` | kernel/src/task.c:45-195 | no place a call may write is in the stack of a sleeping task that stays |
| `TaskMachine.ActStep` | kernel/src/task.c:45-195 | every act, a computation or a call of task_create, schedule, task_exit, kmalloc or kfree, is a step of tasks that share the processor |
| `TaskMachine.RunShared` | kernel/src/task.c:45-195 | every run of the task system on the processor is a run of tasks that share it, with ring and processor in agreement throughout |
| `TaskMachine.BootJoint` | kernel/src/task.c:23-43 | after task_init ring and processor agree |
| `TaskMachine.ThereAllAlong` | kernel/src/task.c:45-195 | a task that is in the ring later was there all the time since it was created |
| `TaskMachine.TaskResumesAsItLeft` | kernel/src/task.c:158-195 | in every run from task_init, a task that stops running and runs again returns from switch_to with RBX, RBP, R12 to R15 as they were, the stack pointer above the return address, and at that address |
| `TaskMachine.TaskStartsInTrampoline` | kernel/src/task.c:45-115 | in every run from task_init, a task that is created first runs in the trampoline with its entry point in R12 and an empty stack |
| `SchedulerActs.ScheduleActs` | kernel/src/task.c:158-195 | whatever bytes are put into headers and control blocks, what schedule does to registers and memory is an act of the machine |
| `SchedulerActs.ExitActs` | kernel/src/task.c:143-151 | so is task_exit |
| `SchedulerActs.CreateActs` | kernel/src/task.c:45-115 | so is task_create, whether it succeeds or fails |
| `SchedulerActs.KmallocActs` | kernel/src/kheap.c:90-127 | so is kmalloc for another user of the heap |
| `SchedulerActs.KfreeActs` | kernel/src/kheap.c:129-150 | so is kfree of a block that is no task's |
| `SchedulerActs.SomethingFollows` | kernel/src/task.c:158-195 | there is always memory that the records of schedule describe, so these claims are about something |

## Left out

- Serial, interrupt controller, timer and port I/O: device plumbing.
- GDT, TSS, IDT and boot assembly: fixed constants.
- `interrupts.S`: taken to present and restore the register frame that `Syscalls` works on.
- Privileged instructions and the TLB: a mapping takes effect at once, and halting is a final state.
- Timer interrupts in the middle of an operation: the code has no locking to reason about.
- `sys_read`, `sys_write`, `sys_listfiles` and the user programs: I/O; `Syscalls.Kernel.Dispatch` takes what those handlers return as a parameter.
- Nested exec as a call stack: the code has one saved frame, and the traces claim what one slot supports.
- The page tables and the heap as one machine: `HeapPages` maps the pages behind the heap and `Kheap` works on their addresses; that mapping succeeded is a premise, because the code does not report its failure.
- `ramfs_list` and the `multiboot2_print_mmap` output: printing only.
- Kheap.KernelHeap.Kmalloc: does not say what happens when the new end of the heap wraps around 64 bits, because the code then maps pages from the heap's end on until frames run out and sets the end to a low address; `HeapLayout.InReach` is every other request, and `HeapLayout.EndWraps` is one that is shut out.
- Kheap.KernelHeap.Grow: does not say what happens then either.
- Kheap.KernelHeap.Provide: does not say what happens then either.
- Ramfs.FileSystem.Create: does not cover a file so large that the block size or the new end of the heap wraps around 64 bits, unless kmalloc refuses it; `Ramfs.Reaches` is every other size, and no image in memory is that large.
- Ramfs.FileSystem.Obtain: does not cover those sizes.
- SchedulerActs.KmallocActs: does not cover requests that make the new end of the heap wrap around 64 bits.
- HeapLayout.MallocGrants: does not cover those requests, for the same reason; `HeapLayout.DecidesRight` covers them.
- HeapLayout.MallocFirstFit: does not cover those requests.
- HeapLayout.MallocThenFree: does not cover those requests.
- Multiboot.BootMap.Parse: does not say what happens when the walk never reaches an end tag, because the code then runs forever.
- Multiboot.InitMemory: does not say what happens then either.
- BootFrames.InitialFreeMeans: the condition is exact for each entry by itself (`BootFrames.InitialFreeExactly`) and sufficient for a memory map, because one entry can make up for what another lacks.
- Multiboot.BootMemoryMeans: the condition on the entries is sufficient for a memory map, for the same reason.
- ElfFormat.ProgramLoaded: is about programs whose memory lies in the 48-bit address space and whose file data lies in the image and in that memory; `ProgramImage.LoadedByte` is about all others too, in terms of what the loader reads.
- ElfFormat.ProgramElsewhere: is about those programs only.
- ElfFormat.ChildReadsFile: is about those programs only.
- ElfFormat.CycleRestoresFile: is about those programs only.
- Scheduler.TaskScheduler.Destroy: does not say what becomes of `current_task` when the current task itself is destroyed, because the code leaves it pointing at freed memory; schedule never does that.
