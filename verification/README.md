# Turnstone, modelled in Dafny

This project models eight parts of the Turnstone operating system and proves what they keep over whole runs.

- **Nested page tables of the hypervisor** (`Words`, `Radix`, `Translation`, `VmInvariant`, `NestedPaging`, `VmSetup`,
  `PageSequences`, `Access`, `PageFault`, `FaultRuns`). Host memory is a map from frame number to 512 words. Two
  four-level trees lie in it: the extended page tables (EPT), and the guest's own page tables, whose tables are
  guest-physical pages and so are read through the EPT. `Radix` ties a tree of any kind to two finite maps, from position to table
  and from page to leaf entry. A ghost role per frame says that no table is shared. `Vm` is the virtual machine with
  its fields changed in place; its ghost `v` holds both trees flattened, and its ghost `starved` says whether an
  allocation has failed. `Access` is the processor's own walk, which stops at every entry that lacks the permission, and
  proves what a guest can read, write and execute. `PageFault` is the copy-on-write fault on top, `FaultRuns` any sequence of such faults.
- **Locks and semaphores** (`Locks`, `Semaphores`): any number of threads, one memory access per step. The semaphore
  uses the lock's own steps, so its claims rest on no assumption about the lock.
- **The scheduler of one CPU** (`SchedulerSpec`, `SchedulerRuns`, `Scheduler`): the operations as functions on
  values, runs of them, and the class that changes queues and task states in place.
- **PNG** (`Bytes`, `PngFilter`, `PngChunks`, `PngDecoder`, `Png`): filters, chunk streams, saving and loading.
- **PCI enumeration** (`Pci`), **the linker database** (`LinkerDb`), **run-length TGA** (`Tga`).

## What the proofs show about the code

- **Copy-on-write is not confined to the section's own virtual pages.** A page outside the section that maps to one of
  the section's guest-physical pages moves to the private copy too. `PageFault.CopyOnWriteReach` gives the exact
  condition, `PageFault.AliasMoves` builds such a machine and lets the fault happen.
- **The read-only section lookup counts both ends as inside** (`cc/hypervisor/hypervisor_vm.64.c:42-61`), so a fault on
  the first byte of a section can match the section before it. `PageFault.MatchIsContainer` says when it cannot.
- **Distinct (CPU, task) pairs are not enough for the lock.** `Locks.ExclusiveIff` gives the exact condition: each
  thread that shares its CPU has a task id that is not zero and that no other thread has.
- **The semaphore's count equation holds modulo 2^64 always**, and exactly in every run if and only if every count that
  is released fits above the initial count (`Semaphores.ExactIff`); `Semaphores.Wraps` is the run that fails otherwise.
- **Killing a sleeping task can lose another one.** The sleep queue is searched with its ordering comparator, so the
  first sleeper with the same wake tick is taken out (`cc/lib/list_linked.64.c:520-545`). `SchedulerRuns.KillIff` gives
  the exact condition, `SchedulerRuns.KillLosesSleeper` the general failure, `SchedulerRuns.SleeperLost` an instance.
- **A killed idle task is freed while it is the current task** if and only if nothing else is ready at the next switch
  (`SchedulerRuns.KilledIdleIff`), so runs exclude that kill.
- **A killed running task that sleeps or waits before its next switch lives on**: both calls overwrite the ENDED state.
  `SchedulerRuns.StepEnded` says exactly which operations do so, `SchedulerRuns.KilledRunsAgain` gives the run.
- **Among message-ready waiters the last one wins**, because the inner loop's break does not leave the outer one.
- **The last bus of a segment group is searched for the first item but never afterwards**, so a function there is
  found only when nothing is present before it. From such a last bus the search goes on in the next group behind the
  old device and function, not from the first device. `Pci.Enumerate` says exactly what is missed, for any number of
  groups, and `Pci.JumpMisses` gives an instance.
- **A second import does not remove all of the first.** A relocation of a section that is not kept is stored with
  section id 0 (`utils/generatelinkerdb.c:1353`), and clearing goes by section. `LinkerDb.LeftBehind` says exactly what stays,
  `LinkerDb.Reimport` follows two imports.
- **A TGA packet that goes on after the last pixel is written outside the image**, because the loop counts pixels only
  between packets. `Tga.OverrunIff` is the exact condition, `Tga.RunPasses` an instance.
- **Unknown PNG chunk types are errors**, although a comment calls them skipped; `should_plte_exist` is never set.
- **Three PNG chunk types are misspelt** (`cc/graphics/image_png.64.c:108-114`), so a tRNS, iTXt or zTXt chunk is
  unknown. `PngChunks.NamesIff` says for which types the number spells the name, `PngChunks.Misnamed` what follows.
- **A failed PNG parse can return success.** The chunk loop returns `errno` (`cc/graphics/image_png.64.c:473-480`), which
  starts as 0 and which two failures do not set: an unknown chunk that reaches past the end, and a file that ends within
  the checksum of a chunk whose checksum should be 0. `PngDecoder.Decoder.ParseChunks` gives the exact condition,
  `PngChunks.UnreportedIff` the files, `PngChunks.HugeUnknownChunk` one of them, and `Png.MissingIff` says when a load
  goes on without an image.

## Model

| member | source | states |
|---|---|---|
| Translation.GuestToHostIsFlat | cc/hypervisor/hypervisor_ept.64.c:403-491 | The walk, with its branch for 2 MiB pages, is a flat map from guest page to host frame with the offset kept. |
| Translation.EptLink | cc/hypervisor/hypervisor_ept.64.c:44-69 | Linking a new zeroed table changes no translation, shares no table, and the new table is recorded. |
| Translation.EptStore | cc/hypervisor/hypervisor_ept.64.c:137-149 | Rewriting a leaf changes the translation of that one page. |
| NestedPaging.Vm.constructor | cc/hypervisor/hypervisor_ept.64.c:329-334 | A root table alone translates nothing, is the only recorded table, and satisfies the invariant. |
| VmSetup.MapRun | cc/hypervisor/hypervisor_ept.64.c:341-346 | A run of guest pages leads to a run of frames in order, with write-back memory type, and every other page leads where it led. |
| VmSetup.Setup | cc/hypervisor/hypervisor_ept.64.c:336-398 | The guest-physical memory of a new machine is exactly five descriptor pages, heap and stack at their own frame numbers, and the APIC page; all frames are new, and the invariant holds. |
| NestedPaging.Vm.EptChild | cc/hypervisor/hypervisor_ept.64.c:44-69 | The table behind an entry, allocated when absent and linked with every permission; no translation changes, allocated or failed; it fails if and only if its allocation does. |
| NestedPaging.Vm.AddEptPage | cc/hypervisor/hypervisor_ept.64.c:34-149 | Overrides exactly one page, which grants read, write and execute in both modes with the given memory type; every entry above it grants the same; a failed allocation at any level leaves every translation; linked tables are recorded; it fails if and only if an allocation does. |
| NestedPaging.Vm.DelEptPage | cc/hypervisor/hypervisor_ept.64.c:151-213 | Clears exactly one page, and only when it maps to the named frame. |
| NestedPaging.Vm.Ensured | cc/hypervisor/hypervisor_ept.64.c:493-516 | The frame of a mapped page with nothing changed, else a new zeroed frame, of write-back type, that becomes the page's frame; it fails if and only if an allocation does. |
| NestedPaging.Vm.NextTablePage | cc/hypervisor/hypervisor_ept.64.c:518-530 | The first released number, or else the next new one, which is then used up; it is not in use as a guest page or a guest table. |
| NestedPaging.Vm.GuestChild | cc/hypervisor/hypervisor_ept.64.c:550-574 | The guest table behind an entry, linked on a new page when absent; no guest translation changes and at most one page number is used; it fails if and only if an allocation does. |
| NestedPaging.Vm.GuestLeafTable | cc/hypervisor/hypervisor_ept.64.c:536-626 | All tables on a page's path exist afterwards, and no more page numbers are used than tables were missing; it fails if and only if an allocation does. |
| NestedPaging.Vm.PagingAddPage | cc/hypervisor/hypervisor_ept.64.c:536-649 | Fills only an absent page: present, writable unless read-only was asked for, executable unless no-execute was, at the given address. Entries above it are writable and executable. Data frames and existing guest-physical pages are untouched; it fails if and only if an allocation does. |
| NestedPaging.Vm.IsEmpty | cc/hypervisor/hypervisor_ept.64.c:722-729 | Whether a table has no present entry. |
| NestedPaging.Vm.PruneLevel | cc/hypervisor/hypervisor_ept.64.c:722-738 | A table is unlinked and its frame number released exactly when it is empty; no translation changes. |
| NestedPaging.Vm.Prune | cc/hypervisor/hypervisor_ept.64.c:720-771 | Afterwards no table below the root on the path is empty, and only tables of the path went. |
| NestedPaging.Vm.PagingDelPage | cc/hypervisor/hypervisor_ept.64.c:651-774 | Removes only a page that maps to the named address; pruning changes no other translation and leaves no empty table on the path. |
| NestedPaging.Vm.GetGuestPhysical | cc/hypervisor/hypervisor_ept.64.c:776-843 | The walk as coded is the flat map, offset kept, 0 for an unmapped page. |
| NestedPaging.MissingNext | cc/hypervisor/hypervisor_ept.64.c:1018-1021 | The page after one with a complete path lacks only tables it is the first page of. |
| NestedPaging.Vm.MapTables | cc/hypervisor/hypervisor_ept.64.c:1018-1021 | The loop ends although its bound grows, and the bound grows by at most three and one for each table that the pages up to it pass into; then, unless an allocation failed, every page from the root table to the last table page is mapped, to itself, writable and not executable, where the slot was free, and nothing else changed. |
| PageSequences.RunGuest | cc/hypervisor/hypervisor_ept.64.c:536-774 | Any sequence of guest adds and deletes, however long, runs to its end unless an allocation fails, and the tables hold the flat map it builds; page numbers are needed only for the tables its pages can have at once, since deletes release theirs. |
| PageSequences.BudgetAfter | cc/hypervisor/hypervisor_ept.64.c:518-530 | Adds and deletes keep the sum of tables in use and released page numbers in step with the next new number, so there is always room again. |
| PageSequences.RunEpt | cc/hypervisor/hypervisor_ept.64.c:34-213 | Any sequence of EPT adds and deletes runs to its end unless an allocation fails, and the walk equals the flat map it builds. |
| Access.EptAccessIs | cc/hypervisor/hypervisor_ept.64.c:34-149 | The processor's walk of the EPT, with a permission test at all four levels, lets every access to a mapped page through, to its frame, and no other. |
| Access.GuestAccessIs | cc/hypervisor/hypervisor_ept.64.c:536-649 | The processor's nested walk for a read, write or fetch, in which the EPT is walked for every guest table, ends at the frame of the flat maps if and only if the leaf entry allows it; no entry above takes a permission away. |
| Words.FromValue | cc/hypervisor/hypervisor_ept.64.c:1251-1253 | Every 64-bit number is the value of a word, so frames of words hold any bytes. |
| Words.CopyFrameBytes | cc/hypervisor/hypervisor_ept.64.c:1251-1253 | Copying n bytes into a frame takes those bytes from the source frame and leaves the rest. |
| PageFault.CopiedBytes | cc/hypervisor/hypervisor_ept.64.c:1251-1253 | The copy of a section's frames holds the section's bytes. |
| PageFault.FindSection | cc/hypervisor/hypervisor_ept.64.c:1209-1217 | The first section that the comparator matches, if any. |
| PageFault.MatchIsContainer | cc/hypervisor/hypervisor_vm.64.c:42-61 | The first match is the containing section for every address if and only if no earlier section touches it. |
| PageFault.UnmapSection | cc/hypervisor/hypervisor_ept.64.c:1230-1243 | Both flat maps lose exactly the section's pages; data frames keep their words. |
| PageFault.CopySection | cc/hypervisor/hypervisor_ept.64.c:1245-1257 | New frames, not in use before, with the section's bytes; everything else is kept; it fails if and only if the allocation does. |
| PageFault.RemapSection | cc/hypervisor/hypervisor_ept.64.c:1259-1276 | The section's pages lead to the copy in order and are mapped writable; other mappings are kept; it fails if and only if an allocation does. |
| PageFault.CopyOnWrite | cc/hypervisor/hypervisor_ept.64.c:1225-1280 | The whole replacement: same guest-physical pages, private new frames that no other page leads to, same bytes, no new table page number; afterwards the processor lets the guest read and write every page of the section. When memory runs out, a prefix of the section is on the copy and the rest unmapped; either way all other mappings stay. It fails if and only if an allocation does. |
| PageFault.HandlePageFault | cc/hypervisor/hypervisor_ept.64.c:1204-1306 | Which faults are handled, which section is taken off the list, what a handled and an interrupted one leave, and that every other fault changes nothing; after a handled one the processor lets the write through; a fault that hits a section fails if and only if an allocation does. |
| PageFault.CopyOnWriteReach | cc/hypervisor/hypervisor_ept.64.c:1204-1282 | A page reaches the same host frame as before if and only if its guest-physical page is not the section's; the section's pages reach the copy and are writable. |
| PageFault.CopyOnWriteAccess | cc/hypervisor/hypervisor_ept.64.c:1204-1282 | What the processor lets through: a write to the section was stopped if and only if its page was read-only; now reads and writes reach the copy and fetches are stopped. Every access outside that went through still does, to the same frame or, through an alias, to the copy. |
| PageFault.AliasMoves | cc/hypervisor/hypervisor_ept.64.c:1259-1276 | In a machine built for it, and unless an allocation fails, a page outside the section moves with it. |
| FaultRuns.StillReplaceable | cc/hypervisor/hypervisor_ept.64.c:1225-1280 | Replacing a section leaves every section without a common page ready to be replaced. |
| FaultRuns.HandleFaults | cc/hypervisor/hypervisor_ept.64.c:1204-1306 | Over any sequence of handled faults each section hit has a private copy of its original bytes and is replaced once, the others can still be replaced, and pages that map to none of the sections hit reach what they reached. The sequence stops at a fault that hits no section, which changes nothing, or for which an allocation failed, which leaves its section partly mapped. |
| Locks.StepInv | cc/cpu/sync.64.c:90-157 | Every single access keeps the invariant that ties the value and owner fields to the thread that owns the lock. |
| Locks.MutualExclusion | cc/cpu/sync.64.c:90-157 | In every run at most one thread is between a completed acquire and its next release, a holder that acquires again included, and that one never spins. |
| Locks.FastPath | cc/cpu/sync.64.c:113-115 | The re-entrant return is taken by a thread if and only if it holds the lock already. |
| Locks.CanAcquire | cc/cpu/sync.64.c:90-157 | No deadlock: every run, wherever it has got to, can go on so that any given thread has the lock. |
| Locks.TwoHolders | cc/cpu/sync.64.c:90-157 | For any threads that break the condition on task ids, a run in which two of them hold the lock. |
| Locks.ExclusiveIff | cc/cpu/sync.64.c:90-157 | Mutual exclusion in every run if and only if threads that share a CPU have task ids of their own. |
| Semaphores.StepInv | cc/cpu/sync.64.c:187-235 | Every step keeps the count equation and what each thread knows; only the lock's holder changes the count. |
| Semaphores.CountHolds | cc/cpu/sync.64.c:187-235 | In every run the count is in range, obeys the equation modulo 2^64, and exactly if and only if nothing wrapped. |
| Semaphores.Grant | cc/cpu/sync.64.c:187-215 | From any state reached with the lock free, an acquire for a count that is there can run to its end; it then lowers the count by just that and leaves the lock free. |
| Semaphores.Accept | cc/cpu/sync.64.c:217-235 | So can a release that does not pass the initial count, modulo 2^64, which raises it. |
| Semaphores.TakeAndGive | cc/cpu/sync.64.c:187-235 | For any count up to the initial one, a run that takes it all and then gives it back. |
| Semaphores.CallStep | cc/cpu/sync.64.c:187-235 | A call that acquires goes on, is granted its count, or is refused because it asks for more than the initial count; a release is refused if and only if the sum passes the initial count. |
| Semaphores.NeverRefused | cc/cpu/sync.64.c:187-215 | In every run, an acquire for at most the initial count that has returned was granted that count on the way. |
| Semaphores.Wraps | cc/cpu/sync.64.c:217-235 | A release for a count that does not fit above the initial count is accepted and wraps. |
| Semaphores.ExactIff | cc/cpu/sync.64.c:187-235 | The count is the initial count minus grants plus returns in every run whose releases are for certain counts, if and only if each of these fits above the initial count in 64 bits. |
| SchedulerSpec.ScanPicks | cc/cpu/task.64.c:684-723 | The scan yields the first waiter ready without a message, else the last with one, else none; never one that waits for a future or an empty queue. |
| SchedulerRuns.InsertSortedAt | cc/cpu/task.64.c:99-110 | A sleeper goes behind those that are due before it and in front of the first that is not. |
| SchedulerRuns.InsertSortedKeeps | cc/cpu/task.64.c:99-110 | Inserting a sleeper keeps the queue sorted and adds just that task. |
| SchedulerRuns.SwitchKeeps | cc/cpu/task.64.c:755-845 | A switch loses and doubles no task, keeps sleepers sorted, never runs an ENDED task, and frees only from the idle task. |
| SchedulerRuns.WhereItGoes | cc/cpu/task.64.c:785-808 | The task that a switch takes the CPU from is afterwards in the queue its state names, unless it is chosen again; an ended or blocked one, and a sleeper that is not due, is never chosen again. |
| SchedulerRuns.Dispatched | cc/cpu/task.64.c:810-823 | The new current task runs, or starts if it was created, from the given tick on. |
| SchedulerRuns.SliceIff | cc/cpu/task.64.c:755-766 | A running task keeps the CPU, with nothing changed, if and only if the tick is after its last one by less than the limit. |
| SchedulerRuns.RoundRobin | cc/cpu/task.64.c:721-808 | While no sleeper is due and no waiter is ready, any number of switches after expired slices serves the tasks in a circle: each of n runnable tasks runs once in n switches, in queue order. |
| SchedulerRuns.KillIff | cc/cpu/task.64.c:906-945 | A kill keeps every task in one place if and only if the task is in the queue its state names, before all sleepers with its wake tick. |
| SchedulerRuns.KillValid | cc/cpu/task.64.c:906-945 | A kill keeps the whole invariant if and only if it is not of the idle task and meets that condition. |
| SchedulerRuns.KillLosesSleeper | cc/cpu/task.64.c:931-933 | Otherwise a sleeper is lost and the killed task is in two queues. |
| SchedulerRuns.SleeperLost | cc/cpu/task.64.c:931-933 | An instance with two sleepers due at the same tick. |
| SchedulerRuns.StepKeeps | cc/cpu/task.64.c:666-945 | Every operation keeps every created task in exactly one of current, run, sleep, wait, cleanup and freed. |
| SchedulerRuns.RunKeeps | cc/cpu/task.64.c:666-945 | So does every run. |
| SchedulerRuns.StepEnded | cc/cpu/task.64.c:860-945 | A task that has ended stays so if and only if the operation is not one that revives it; no switch makes it current. |
| SchedulerRuns.EndedForGood | cc/cpu/task.64.c:734-737 | Over every run that does not revive it, a task that has ended stays so and is never dispatched again. |
| SchedulerRuns.KilledRunsAgain | cc/cpu/task_utils.64.c:53-61 | A running task that is killed, sleeps and wakes runs again. |
| SchedulerRuns.SleepsThrough | cc/cpu/task.64.c:676-682 | Over every run without a switch after its wake tick and without a kill of it, a sleeper stays in the sleep queue and never runs, whatever wake-ups are aimed at it. |
| SchedulerRuns.FutureHolds | cc/cpu/task.64.c:684-719 | Over every run in which nothing is aimed at it, a task that waits for a future stays in the wait queue and never runs. |
| SchedulerRuns.Effects | cc/cpu/task_utils.64.c:63-105 | What the calls mean for the scan: an interrupt or an ended wait makes a task ready, a task that waits for messages is ready if and only if a queue of it has one, ending and killing end it, a created task is first in the run queue. |
| SchedulerRuns.InterruptServed | cc/cpu/task.64.c:684-719 | A waiter that gets an interrupt is the next task after idle, if no waiter before it is ready without a message and no sleeper is due. |
| SchedulerRuns.FreedFromIdle | cc/cpu/task.64.c:810-812 | A task is freed only by a switch that starts on the idle task, and is neither the old nor the new current task. |
| SchedulerRuns.DueAtHead | cc/cpu/task.64.c:676-682 | Some sleeper is due if and only if the head of the sleep queue is. |
| SchedulerRuns.TakeOrder | cc/cpu/task.64.c:673-731 | The order of choice: a due sleeper with the least wake tick, a ready waiter, the head of the run queue, none. |
| SchedulerRuns.KilledIdleIff | cc/cpu/task.64.c:725-737 | Of the two switches after a kill of the running idle task, the second frees it, while it is current, if and only if nothing else is ready at the first. |
| Scheduler.Cpu.Cleanup | cc/cpu/task.64.c:666-671 | Frees the cleanup queue once each and takes the tasks off the task map. |
| Scheduler.Cpu.FindWaiter | cc/cpu/task.64.c:684-719 | The scan loop yields what the scan function does. |
| Scheduler.Cpu.FindNextTask | cc/cpu/task.64.c:673-740 | The choice, and the queues after it; an ENDED choice goes to the cleanup queue. |
| Scheduler.Cpu.StopCurrent | cc/cpu/task.64.c:785-808 | Afterwards every task, the current one included, is in exactly one queue or freed, the sleepers are sorted, and the other queues grew only at their ends; the current task is in the queue its state names: run when it was running, suspended or starting, cleanup when it had ended, sleep when it sleeps, else wait. |
| Scheduler.Cpu.SwitchTask | cc/cpu/task.64.c:755-845 | The whole new state; the invariant is kept, the new current task had not ended, and tasks are freed only from the idle task, never the new current one; the old current task is in the queue its state names unless it was chosen again, which an ended, blocked or sleeping one that is not due never is. |
| Scheduler.Cpu.SleepUntil | cc/cpu/task_utils.64.c:53-61 | The invariant is kept, and any switch that does not come after the wake tick puts the task into the sleep queue. |
| Scheduler.Cpu.ToggleFuture | cc/cpu/task_utils.64.c:414-431 | The invariant is kept, and the scan can pick the task if and only if it waited for a future before. |
| Scheduler.Cpu.KillTask | cc/cpu/task.64.c:906-945 | The invariant is kept if and only if the task is not the idle task and is where its state says, before all sleepers with its wake tick. |
| PngFilter.PaethNearest | cc/graphics/image_png.64.c:579-594 | The predictor is one of its inputs, nearest to a + b - c, and the first such in the order left, above, above left. |
| PngFilter.DecodedBytes | cc/graphics/image_png.64.c:517-685 | Every decoded byte is the raw byte plus, modulo 256, what the filter number of its row names: nothing, the byte to the left, the one above, the mean of both rounded down, or the Paeth choice, with zeros outside the image. |
| PngFilter.Undone | cc/graphics/image_png.64.c:517-685 | Defiltering undoes filtering for every image and every choice of filters by row. |
| PngFilter.Defilter | cc/graphics/image_png.64.c:639-685 | The loops write what the defiltering function says, for any data of the right length, and each byte written is the raw byte plus the prediction of its row's filter. |
| PngFilter.ChooseFilter | cc/graphics/image_png.64.c:934-960 | The chosen filter has the least sum of absolute residuals, and of those the least number. |
| PngFilter.ApplyFilters | cc/graphics/image_png.64.c:892-973 | The whole filtered image, with a best filter on every row. |
| PngChunks.NextSound | cc/graphics/image_png.64.c:332-422 | A chunk that is read is a frame with the right length, type and checksum. |
| PngChunks.NextComplete | cc/graphics/image_png.64.c:332-422 | A frame is read back. |
| PngChunks.FrameMeans | cc/graphics/image_png.64.c:332-422 | A frame is big-endian length, type name, payload and big-endian checksum of type and payload. |
| PngChunks.NamesIff | cc/graphics/image_png.64.c:96-115 | The number of a chunk type spells its name if and only if it is not tRNS, iTXt or zTXt. |
| PngChunks.Misnamed | cc/graphics/image_png.64.c:108-114 | A file's tRNS, iTXt or zTXt chunk has no known type. |
| PngChunks.GrammarIff | cc/graphics/image_png.64.c:152-198 | The checks with counters, one chunk at a time, accept exactly the grammar: header first and once, end last and once, every pair in a permitted order. |
| PngChunks.GrammarMeans | cc/graphics/image_png.64.c:152-198 | What the grammar permits after a header, a palette and image data, and which types may come again. |
| PngChunks.GrammarOf | cc/graphics/image_png.64.c:152-198 | It demands no more than that. |
| PngChunks.ParseIff | cc/graphics/image_png.64.c:332-502 | The files that parse are exactly the signature and the frames of a chunk sequence of the grammar, and that sequence is what is read. |
| PngChunks.UnreportedIff | cc/graphics/image_png.64.c:332-480 | The files at which the parse fails without setting errno are exactly the signature, the frames of an orderly chunk sequence without an end, and a rest that is cut in one of two ways. |
| PngChunks.UnreportedNotParsed | cc/graphics/image_png.64.c:356-366 | None of them parses. |
| PngChunks.HugeUnknownChunk | cc/graphics/image_png.64.c:356-366 | One of them: a good header, then an unknown chunk that claims nearly four gigabytes. |
| PngDecoder.Decoder.Init | cc/graphics/image_png.64.c:448-466 | Returns 0 for the signature and, when the low byte of errno is 0, for a file of less than 8 bytes. |
| PngDecoder.Decoder.ParseChunk | cc/graphics/image_png.64.c:332-446 | One chunk is taken exactly when it is framed right and allowed, or cut within a checksum that should be 0; exactly which failures set errno; reads past the end included. |
| PngDecoder.Decoder.ParseChunks | cc/graphics/image_png.64.c:468-502 | Returns 0 if and only if the chunks parse with an end among them, or the low byte of errno is 0 and the parse fails without setting it; the compressed data, the IDAT payloads in order, is there only in the first case. |
| Png.ZipBack | cc/graphics/image_png.64.c:975-1031 | Unwrapping undoes the zlib wrapping, given that unpack inverts pack. |
| Png.UnzipIff | cc/graphics/image_png.64.c:687-766 | Compressed data unwraps to given bytes if and only if it is one of three zlib headers, something that unpacks to them, and their big-endian Adler-32 checksum. |
| Png.PiecesTogether | cc/graphics/image_png.64.c:1115-1150 | The IDAT pieces of at most 32768 bytes concatenate to the data. |
| Png.PieceSizes | cc/graphics/image_png.64.c:1115-1150 | Every piece has 32768 bytes but the last, which has one to 32768. |
| Png.SwapBytes | cc/graphics/image_png.64.c:1199-1210 | The first and the third byte of a pixel change places, the others stay. |
| Png.SwappedTwice | cc/graphics/image_png.64.c:1199-1210 | The red and blue swap of saving cancels that of loading. |
| Png.GetImage | cc/graphics/image_png.64.c:687-800 | The image in the compressed data, or failure, as the specification function says. |
| Png.ImageMeans | cc/graphics/image_png.64.c:687-854 | The image has the header's size, and pixel i is made of four decoded bytes, 4i to 4i + 3, red and blue swapped. |
| Png.Load | cc/graphics/image_png.64.c:802-854 | Loading is the specification function of the file and of errno: an image, the null pointer, or going on without an image. |
| Png.MissingIff | cc/graphics/image_png.64.c:802-854 | It goes on without an image if and only if errno's low byte is 0 and the file is cut as above, or the file is well formed and its image data is not that of an image of its size. |
| Png.BuildPng | cc/graphics/image_png.64.c:1033-1179 | The file is the signature and the frames of header, pieces and end. |
| Png.Save | cc/graphics/image_png.64.c:1184-1239 | The file for the image, with a best filter on every row. |
| Png.RoundTrip | cc/graphics/image_png.64.c:802-1239 | Loading what was saved gives the same width, height and pixels, whatever errno is. |
| Pci.Iterator.constructor | cc/hw/pci.64.c:208-299 | The first present function of any bus, or the end if there is none. |
| Pci.Iterator.ScanDevice | cc/hw/pci.64.c:328-395 | The next eligible function of one device, or none. |
| Pci.Iterator.Next | cc/hw/pci.64.c:310-424 | Moves strictly upward to an eligible function; all that is eligible and passed over lies in the jump from the last bus of a group, and the new position does not. |
| Pci.Enumerate | cc/hw/pci.64.c:208-424 | The walk ends and ascends strictly, so it visits nothing twice; an eligible function is visited if and only if no jump from the first position passes over it, so with one segment group always. |
| Pci.JumpMisses | cc/hw/pci.64.c:310-424 | Two segment groups where the jump passes over an eligible function. |
| LinkerDb.WithoutSectionKeeps | utils/generatelinkerdb.c:509-747 | Clearing a section and deleting it keeps the database whole. |
| LinkerDb.Database.ClearSymbols | utils/generatelinkerdb.c:662-747 | Exactly the symbols of the section go. |
| LinkerDb.Database.ClearRelocations | utils/generatelinkerdb.c:509-660 | The section's relocations go, and those that lead to it become unresolved; all others stay. |
| LinkerDb.Database.ClearImplementation | utils/generatelinkerdb.c:749-829 | Every trace of the sections of one import goes, and only that. |
| LinkerDb.Database.CreateImplementation | utils/generatelinkerdb.c:832-913 | A file imported before is cleared and gets a new id; no section is left without a current file. |
| LinkerDb.Database.ImportSections | utils/generatelinkerdb.c:1113-1219 | Every kept section gets an id of its own that was not in use. |
| LinkerDb.Database.ImportSymbols | utils/generatelinkerdb.c:1234-1317 | Succeeds if and only if every symbol looked at is named and in a kept section, or in a group; then exactly the symbols in kept sections are added, with their sections and names, under ids of their own that were not in use. |
| LinkerDb.Database.ImportRelocations | utils/generatelinkerdb.c:1325-1516 | Succeeds if and only if every relocation is named and of a known type; then each has a record, and no other was added; it leads to a symbol if and only if the file defines that symbol, and then to that one. |
| LinkerDb.Database.Import | utils/generatelinkerdb.c:917-1537 | Succeeds if and only if the file is importable; keeps the database whole even when it stops with an error, and keeps what other sections own; on success the sections, symbols and relocations of the file are in the tables. |
| LinkerDb.Database.Fix | utils/generatelinkerdb.c:1539-1790 | A relocation is resolved exactly when it was unresolved and one symbol has its name; what is left unresolved has no such symbol or several; integrity is kept. |
| LinkerDb.Run | utils/generatelinkerdb.c:832-1790 | Any sequence of imports, re-imports and passes runs up to the first file that is not importable; the database is whole, and the latest import of every other name is in the tables with all it defines. |
| LinkerDb.LeftBehind | utils/generatelinkerdb.c:509-829 | Of an import that is cleared all sections and symbols go, and a relocation goes if and only if its section was kept. |
| LinkerDb.Reimport | utils/generatelinkerdb.c:832-1537 | After a second import under the same name exactly the relocations of sections that were not kept are left of the first. |
| Tga.Place | cc/graphics/image_tga.64.c:159-162 | The test on the index finds the starts of rows, and the next pixel goes to its own cell. |
| Tga.ExpandMeans | cc/graphics/image_tga.64.c:139-190 | Pixel j has its channels from the bytes of its own entry in the packets: blue, green, red, and alpha, which is 255 in 24 bits. |
| Tga.ExpandIff | cc/graphics/image_tga.64.c:151-190 | A stream is expanded if and only if no packet passes the last pixel of the image and none is cut off by the end of the file. |
| Tga.Decoder.Put | cc/graphics/image_tga.64.c:159-167 | One pixel is written to its own cell, and all earlier ones stay right. |
| Tga.Decoder.Decode | cc/graphics/image_tga.64.c:139-190 | For a stream of which no packet is cut off or passes the end, the pixels come in row order, rows reversed when y_origin is zero, each with the channels at its place in the file, and no cell is written twice; with as many pixels as the image has, each is written once. |
| Tga.InsideIff | cc/graphics/image_tga.64.c:158-167 | With 32-bit indices, the first n writes stay inside the image if and only if n is at most its number of pixels. |
| Tga.OverrunIff | cc/graphics/image_tga.64.c:151-190 | All writes of the packet loop stay inside the image if and only if no packet goes on after its last pixel. |
| Tga.RunPasses | cc/graphics/image_tga.64.c:154-170 | A run of two pixels for an image of one writes outside it. |

## Assumptions of the model

- The allocator hands out frames that nobody uses and whose numbers are not guest-physical pages in use. The released
  list holds host frame numbers that are later used as guest-physical page numbers, and the code relies on the same.
- Guest-physical pages below `window` are kept for descriptor and page-table pages. Adding a guest page asks for page
  numbers for the tables it lacks, released ones or new ones below `window`; a sequence asks for the tables its pages can
  have at once. Copy-on-write asks nothing: unmapping releases as many numbers as mapping takes.
- A fault replaces a section that is page-aligned, mapped, and identity-mapped by the EPT to frames that hold data.
- The sections of a machine that takes a sequence of faults have no page in common.
- Nothing else writes `errno` while a PNG file is loaded.
- A thread's CPU does not change inside `lock_acquire`, and only a holder calls `lock_release`.
- Task ids are not used again. Kills aim at tasks of the same CPU, without force.
- Relocations of an object file refer to symbols of the file.

## Left out

- Inline assembly, model-specific registers, VMX and SVM instructions, and invalidation of cached translations.
- Internals of lists, hashmaps, buffers, heaps, the frame allocator, the database engine, deflate and the checksums: sorted insertion, deletion by comparison, lookup and packing are modelled by what they do.
- VmSetup.Setup: the frame of the local APIC's page number is taken to be no free memory.
- NestedPaging.Vm.AllocateRegion: a failed allocation ends the operation; the code tests for -1 where the allocator returns 0.
- Scheduler.Cpu.SwitchTask: does not model register save and restore, nor a failed VMCS clear or load, which returns early.
- Scheduler: creation picks among the CPUs' queues, and the kernel's wake-ups send inter-processor interrupts; here one CPU's operations are functions of its state.
- Forced kills, removal after a fault, and the flag that disables all locks.
- Locks: locks made for futures, whose owner is set at creation.
- Png.Load: empty images and sizes whose 32-bit products would wrap are set apart as a size the model leaves out, what the code does with a missing image is not modelled, and an interlaced file is decoded as if it were not, as in the code.
- Pci.Iterator.Next: does not model the mapping of configuration space, nor the recorded physical address, which for functions above 0 is that of function 0.
- LinkerDb.Database.Import: section contents, alignment, symbol values and relocation addends, and the module table.
- Tga.Decoder.Decode: reads past the end of a file that cuts a packet off, and the other TGA encodings.
- EFI boot, device drivers, host tools and logging.
