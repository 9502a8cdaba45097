# IKAROS kernel model

IKAROS is a single-processor i386 kernel with its own small C library.  This project models its
stateful core in Dafny and proves what that core relies on:

- the cooperative scheduler and its wait queues, as a step machine in which task steps and interrupt
  handlers interleave, together with the routines themselves over the kernel's variables;
- the physical page allocator (bitmaps edited as bytes and as words behind a roving hint), the
  recursively mapped page tables, the early paging set-up, the device windows and the kernel heap,
  stacked on each other and composed from the memory map to whole runs of requests;
- the key ring, and which keys reach a reader;
- the printf engine, `atoi` and the relation between them;
- the console driver: wrapping, scrolling and the escape-sequence parser;
- the delay-loop calibration.

| file | contents |
|---|---|
| `WaitProtocol.dfy` | state, steps and invariant of the scheduler and wait queues |
| `WaitInvariant.dfy` | every step keeps the invariant |
| `WaitTheorems.dfy` | what follows for every reachable state and every run |
| `WaitTimes.dfy` | how long waits last, counted in the interrupts of a run |
| `Scheduler.dfy` | the scheduler and wait-queue routines, proved to perform those steps, and whole runs of them |
| `Bitmap.dfy`, `Regions.dfy` | bitmaps and region lists as sets of pages |
| `PageAllocator.dfy`, `PageRuns.dfy` | the page allocator, and whole runs of it |
| `PageTables.dfy`, `AddressSpace.dfy`, `PagingBoot.dfy` | the MMU walk, the kernel's edits through the self-map, the boot set-up |
| `Mmio.dfy` | device windows |
| `HeapModel.dfy`, `KernelHeap.dfy` | `malloc` and `free` |
| `KernelMemory.dfy` | heap and device windows over one address space |
| `Boot.dfy` | from the memory map to that address space |
| `Keyboard.dfy` | the key ring and what its readers get |
| `Options.dfy` | values that may be missing |
| `Numbers.dfy` | numerals and `atoi` |
| `FormatModel.dfy`, `Printf.dfy` | what the code makes of a format, and the engine that prints it |
| `StandardFormat.dfy` | the field of an integer as section 7.19.6.1 of ISO/IEC 9899:1999 asks for it, and where the code prints it |
| `StandardOutput.dfy` | the same for specifications of integers, strings and characters, and for whole formats |
| `ConsoleModel.dfy`, `ConsoleLayout.dfy`, `Console.dfy` | characters on the screen, the layout of a text, the driver over its cell array |
| `Calibration.dfy` | the delay-loop calibration |

Queue entries and tasks are named by identifiers, with explicit `next` pointers in maps, so that a
cyclic queue or a broken ring is an expressible state.  A pointer-chasing loop that would run for ever
is a step that is not enabled, and the theorems show that such states are not reached.  Page tables are
the words of the frames that hold them; every edit is a store at a virtual address that goes through the
modelled MMU walk, which asks for the write bit of both entries, as CR0.WP makes the processor do.

## Where the code does less than it means to

The model follows the code.  Each of the following comes with a lemma that states the exact condition,
and, where the condition does not show one plainly, with an input on which it fails.

- A sleeper returns from its own yield still queued when no other task is RUNNING.  It then queues its
  entry a second time, and no handler gets through the queue any more (`YieldThenPrepareIff`,
  `LoneSleeperFails`).  The idle task is what prevents it.
- `scheduler_exit` switches to its ring successor whatever its state; a sleeping one queues its entry
  twice (`ExitThenPrepareIff`, `SleepingSuccessorFails`).
- A sleep that is in progress when the 32-bit tick counter wraps ends at once, because the difference is
  taken in 64 bits (`TimerRangeExactIff`).
- `memory_region_early_init` clamps to 65536 pages but the bitmap has 16384 bits: pages above index the
  memory behind it (`ClampCoversIff`, `ClampFails`).
- `memory_region_getbit` has a strict lower bound and does not see the first page of a region (`GetBit`).
- `memory_region_find_and_set` never hands out the last `length % 32` pages of a region (`TailLostIff`,
  and `AllocPage` through the definition of a free page; `ShortRegionFails`).
- The boot code does not reserve the last page of the kernel image unless the image ends on a page
  boundary (`ImageCoveredIff`).  That page is then handed out like any other (`ImageSafeIff`,
  `BootImageSafeIff`), and where the image starts the region it is the first one handed out: the page
  directory is built in it (`BootMemory`, `TailIsFirst`).
- The limit check of `mmio_map` is made in 32 bits and admits requests whose end wraps (`AcceptsIff`,
  `AcceptsFails`).
- `malloc` reuses a free entry soundly exactly when the entry fits exactly and is not the head of the
  list (`ReuseSoundIff`, `ReuseHeadFails`, `ReuseSplitFails`), and takes new memory soundly exactly when
  the rounded size with its header fits in 32 bits (`BumpSoundIff`, `BumpFails`).
- `%p` prints addresses of the upper half of memory as negative numbers (`PointerPlainIff`).
- `kb_getkey` notes the ring index afresh on each call and returns the newest key only, so a reader gets
  every key once exactly when one key arrives during each call and none between two (`DeliveryIff`,
  `KeyBetweenCallsLost`); and it goes on waiting when a multiple of 128 keys has arrived (`EndsIff`).
- A width larger than the precision of `%s` overrides the precision, a lone point takes the whole string
  instead of nothing, a negative width is not read as left justification, and a negative precision other
  than -1 leaves nothing (`StringIff`).  A null pointer prints only as much of `<NULL>` as the string at
  address 0 is long (`NullPrintsIff`).  `%c` does not pad (`CharIff`).
- 0 with precision 0 prints a digit; a 0 flag prevails over a `-` flag and over a precision; a negative
  width is not read as left justification; the `#` flag puts no `0x` and no octal 0 in front
  (`IntFieldIff`, `RenderIntIff`, `LeftZeroFails`, `AlternateFails`).
- The modifier `h` does not narrow the argument to a short, `ll` takes one argument word of the two, and
  `hh`, `j`, `z` and `t` are not known (`LengthIff`, `RenderIntIff`, `UnknownPrints`, `ShortFails`,
  `LongLongFails`).
- The SGR code 0 does not reset the attributes: only 1, 22, 30 to 37 and 40 to 47 can change anything
  (`CodeActsIff`).
- The calibration is meaningless for thresholds up to 4096 loops and above 2^31 (`CalibrationIff`).

## Model

| member | source | states |
|---|---|---|
| WaitTheorems.ReachableInv | kernel/include/kernel/scheduler/wait.h:61-84 | The protocol invariant (one task ring, queues without repetition, asleep exactly when queued, fresh entry at the head between preparing and finishing) holds in every state that any interleaving of task steps and interrupts reaches from boot |
| WaitTheorems.QueuesSound | kernel/kernel/scheduler/wait.c:43-94 | In every reachable state the tasks form one cycle through the running task, each queue ends and repeats no entry, a task is INTERRUPTIBLE exactly when its entry is on a queue, it is on one queue only, and every queued entry belongs to a task inside its wait loop |
| WaitTheorems.NoLostWakeUp | kernel/include/kernel/scheduler/wait.h:65-72 | Outside a handler no task that is asleep past its check has a true wait condition |
| WaitTheorems.FinishCompletes | kernel/kernel/scheduler/wait.c:51-82 | Whenever a task is about to call `wait_finish`, its queue is empty or headed by its own entry, so the removal loop that never advances completes |
| WaitTheorems.TimerCompletes | kernel/arch/i386/kernel/irq/timer.c:60-68 | In every reachable state the timer handler terminates, empties its queue and leaves everyone in a wait loop on it RUNNING |
| WaitTheorems.KeyCompletes | kernel/kernel/input/keyboard.c:189-192 | The same for the keyboard handler and the key queue |
| WaitTheorems.PushEndsIff | kernel/kernel/scheduler/wait.c:59-62 | Pushing an entry onto a queue leaves a queue that ends if and only if the entry was not queued already |
| WaitTheorems.YieldInLoopSafeIff | kernel/include/kernel/scheduler/wait.h:69-72 | The yield inside the wait loop keeps the invariant if and only if the caller or some other task of the ring is RUNNING |
| WaitTheorems.YieldThenPrepareIff | kernel/include/kernel/scheduler/wait.h:65-72 | After an in-loop yield and the next preparation the wake-up of that queue comes to an end if and only if some task was RUNNING at the yield |
| WaitTheorems.LoneSleeperFails | kernel/include/kernel/scheduler/wait.h:65-72 | A single sleeping task is a state in which it does not |
| WaitTheorems.ExitSafeIff | kernel/kernel/scheduler/scheduler.c:139-154 | An exit keeps the invariant if and only if the ring successor is RUNNING |
| WaitTheorems.ExitThenPrepareIff | kernel/kernel/scheduler/scheduler.c:148-153 | After an exit and a preparation of the task switched to, the wake-up of that queue comes to an end if and only if the successor was RUNNING |
| WaitTheorems.SleepingSuccessorFails | kernel/kernel/scheduler/scheduler.c:148-153 | Two tasks of which the second sleeps are a state in which it does not |
| WaitTheorems.PreparedWakeableIff | kernel/kernel/scheduler/wait.c:43-49 | After a preparation the next wake-up of the queue comes to an end if and only if the entry was not on it |
| WaitTheorems.YieldCloser | kernel/kernel/scheduler/scheduler.c:57-79 | A switching yield strictly lowers the ring distance to every RUNNING task that it does not pick |
| WaitTheorems.BoundedWait | kernel/kernel/scheduler/scheduler.c:67-79 | In every run without new threads the processor is switched fewer times than the ring distance to a RUNNING task before that task runs |
| WaitTheorems.TimerRangeExactIff | kernel/arch/i386/kernel/irq/timer.c:43-49 | The interval is 5 ms for each tick that has passed if and only if the tick counter has not wrapped since the start; otherwise it is astronomically long |
| WaitTimes.SleepTestIff | kernel/kernel/scheduler/scheduler.c:81-84 | As long as the tick counter has not wrapped since the start, the test of a sleep succeeds if and only if 5 ms for each tick that has passed amount to the time asked for |
| WaitTimes.KeyTestIff | kernel/kernel/input/keyboard.c:110-114 | The test of the wait for a key succeeds if and only if the number of keys since the start is not a multiple of 128 |
| WaitTimes.Counters | kernel/arch/i386/kernel/irq/timer.c:60-62 | In every run from boot on the tick counter and the ring index are the numbers of timer and key interrupts among its steps, modulo 2^32 and 128 |
| WaitTimes.SleepLasts | kernel/kernel/scheduler/scheduler.c:81-84 | In every run from boot on in which the counter does not wrap, a task returns from a sleep only after so many timer interrupts since its call that they amount to the time asked for at 5 ms each, and a task asleep past its check has seen fewer |
| WaitTimes.KeyWaitLasts | kernel/kernel/input/keyboard.c:110-114 | In every run a task returns from the wait for a key only after a look at which the number of key interrupts since its call was not a multiple of 128, and a task asleep past its check has seen a multiple of 128 |
| WaitInvariant.StepKeeps | kernel/kernel/scheduler/scheduler.c:43-167 | Every step (handlers, wait-loop steps, yield, create, exit) keeps the invariant; a create appends its task to the ring and leaves the running task, an exit takes the running task out and switches to its successor, every other step leaves the ring and switches at most to the task that the scan picks, and no RUNNING task but the running one stops being RUNNING |
| WaitInvariant.PickedRuns | kernel/kernel/scheduler/scheduler.c:57-65 | Whoever the scan picks is on the ring and RUNNING, unless it is the caller |
| WaitInvariant.ScanInRing | kernel/kernel/scheduler/scheduler.c:57-65 | The scan stops within one turn of the ring and passes only tasks that are not RUNNING |
| WaitInvariant.PicksAnother | kernel/kernel/scheduler/scheduler.c:57-65 | While some other task is RUNNING the scan does not come back to the caller |
| WaitInvariant.YieldInLoopKeeps | kernel/include/kernel/scheduler/wait.h:69-72 | The yield inside the wait loop keeps the invariant while some task of the ring is RUNNING |
| WaitInvariant.CreateKeeps | kernel/kernel/scheduler/scheduler.c:156-167 | Creating a thread keeps the invariant and appends it to the ring |
| WaitInvariant.EnterKeeps | kernel/include/kernel/scheduler/wait.h:78-82 | So does entering the wait loop with a fresh entry |
| WaitInvariant.CheckKeeps | kernel/include/kernel/scheduler/wait.h:67-68 | So does the test inside the loop, after which a sleeper has a false condition |
| WaitInvariant.InsertedRing | kernel/kernel/scheduler/scheduler.c:86-90 | `tasks_insert` appends at the tail and leaves one cycle |
| WaitInvariant.RemovedRing | kernel/kernel/scheduler/scheduler.c:91-115 | `tasks_remove` leaves the old order minus exactly the removed task, also at head and tail |
| WaitInvariant.ExitKeeps | kernel/kernel/scheduler/scheduler.c:139-154 | An exit whose successor is RUNNING keeps the invariant on the shortened ring |
| WaitInvariant.PrepareKeeps | kernel/kernel/scheduler/wait.c:43-49 | Preparing puts the entry at the head of its queue, also after a wake-up, and never builds a cycle |
| WaitInvariant.FinishKeeps | kernel/kernel/scheduler/wait.c:51-57 | After finishing no queue refers to the entry of the caller |
| WaitInvariant.WakeUpKeeps | kernel/kernel/scheduler/wait.c:84-94 | A wake-up after a change of one condition empties exactly that condition's queue and keeps the invariant |
| WaitInvariant.RingUnique | kernel/kernel/scheduler/scheduler.c:43-50 | The links of a state spell out one ring only |
| WaitInvariant.BootedInv | kernel/kernel/kernel.c:70-73 | The state with the boot thread and the idle thread satisfies the invariant |
| Scheduler.SchedulerState.constructor | kernel/kernel/scheduler/scheduler.c:43-50 | `scheduler_initialize` builds the one-task ring and empty queues of the initial protocol state |
| Scheduler.SchedulerState.TasksInsert | kernel/kernel/scheduler/scheduler.c:86-90 | The new task stands at the tail of the ring |
| Scheduler.SchedulerState.CreateThread | kernel/kernel/scheduler/scheduler.c:156-167 | Takes the create step of the protocol, appends to the ring and keeps the invariant |
| Scheduler.SchedulerState.NextRunningTask | kernel/kernel/scheduler/scheduler.c:57-65 | Terminates on every ring and returns the first RUNNING successor, or the caller |
| Scheduler.SchedulerState.YieldRunning | kernel/kernel/scheduler/scheduler.c:67-79 | Takes the yield step of the protocol, outside a wait loop or inside one; keeps the invariant, inside a loop when somebody can run |
| Scheduler.SchedulerState.TasksRemove | kernel/kernel/scheduler/scheduler.c:91-115 | Leaves the ring minus the task, wherever the task stands |
| Scheduler.SchedulerState.FindPredecessor | kernel/kernel/scheduler/scheduler.c:101-107 | The search loop finds the task and the one before it on the ring |
| Scheduler.SchedulerState.ExitRunning | kernel/kernel/scheduler/scheduler.c:139-154 | Shuts down exactly when the caller is alone; otherwise performs the exit step, and keeps the invariant when the successor runs |
| Scheduler.SchedulerState.CallSleep | kernel/kernel/scheduler/scheduler.c:81-83 | Takes the step that notes the time and enters the wait for it |
| Scheduler.SchedulerState.CallGetKey | kernel/kernel/input/keyboard.c:110-113 | Takes the step that notes the ring index and enters the wait for a change of it |
| Scheduler.SchedulerState.EnterWait | kernel/include/kernel/scheduler/wait.h:63-82 | Takes the step of the test in front of the loop: out if the condition holds, else on to the loop with a fresh entry |
| Scheduler.SchedulerState.PrepareToWait | kernel/kernel/scheduler/wait.c:43-62 | Takes the prepare step (INTERRUPTIBLE, at the head of the queue, on to the test) and keeps the invariant |
| Scheduler.SchedulerState.CheckCondition | kernel/include/kernel/scheduler/wait.h:67-72 | Takes the step of the test inside the loop |
| Scheduler.SchedulerState.RemoveFromQueue | kernel/kernel/scheduler/wait.c:64-82 | From a queue headed by the entry, or empty, exactly that entry is gone |
| Scheduler.SchedulerState.FinishWait | kernel/kernel/scheduler/wait.c:51-57 | Takes the finish step, after which no queue refers to the caller, and keeps the invariant |
| Scheduler.SchedulerState.WakeUpInterruptible | kernel/kernel/scheduler/wait.c:84-94 | Terminates on every queue that ends; drains it and makes exactly its owners RUNNING |
| Scheduler.SchedulerState.TimerHandler | kernel/arch/i386/kernel/irq/timer.c:60-68 | Takes the timer step of the protocol and keeps the invariant; the timer queue is empty |
| Scheduler.SchedulerState.EmitKeycode | kernel/kernel/input/keyboard.c:189-192 | Takes the keyboard step of the protocol and keeps the invariant; the key queue is empty |
| Scheduler.Handle | kernel/include/kernel/scheduler/wait.h:61-84 | Whatever event comes, the routine entered for it takes one step of the protocol and keeps the invariant; the step is a timer or a key interrupt exactly when the event is |
| Scheduler.Drive | kernel/kernel/kernel.c:70-73 | From boot on, any events in any order make the routines perform a run of the protocol, one step for each event, whose interrupts are those among the events |
| Keyboard.KeyRing.Emit | kernel/kernel/input/keyboard.c:189-190 | The ring holds the last 128 of the keys that have arrived, the newest at the index |
| Keyboard.KeyRing.KeyAt | kernel/kernel/input/keyboard.c:110-115 | What is returned is the newest key at the last look, as long as fewer than 128 arrive before it is read |
| Keyboard.EndsIff | kernel/kernel/input/keyboard.c:110-114 | The wait of a call ends if and only if the number of keys that have arrived since it began is not a multiple of 128 |
| Keyboard.DeliveryIff | kernel/kernel/input/keyboard.c:110-115 | Whatever is typed, a reader gets every key once and in order over a series of calls if and only if exactly one key arrives during each call and none between two calls |
| Keyboard.KeyBetweenCallsLost | kernel/kernel/input/keyboard.c:110-115 | Three keys and two calls are a case in which it does not |
| Bitmap.WordViewAgrees | kernel/include/kernel/memory/memory_region.h:100-103 | Bit y of little-endian word i is the bit that the byte view holds for page 32i+y |
| Bitmap.StoreWordBit | kernel/include/kernel/memory/memory_region.h:103-107 | Setting bit y of word i is setting the one byte-view bit of page 32i+y |
| Bitmap.WithBitEffect | kernel/include/kernel/memory/memory_region.h:62-71 | The byte edit changes the bit of one page only |
| Bitmap.Ffs | libc/include/strings.h:34-43 | For a non-zero word the loop ends at one more than the lowest set bit |
| Regions.LocateFinds | kernel/include/kernel/memory/memory_region.h:58-61 | On a sorted disjoint list the walk finds a region exactly for the pages that have one |
| Regions.SetInEffect | kernel/include/kernel/memory/memory_region.h:55-73 | Setting or clearing a page of the list changes that page's mark and no other; the free set loses exactly it, or gains it if it is tracked |
| Regions.PutOnlyMarks | kernel/include/kernel/memory/memory_region.h:103-108 | Marking a page removes exactly that page from the free set; unmarking a tracked page adds exactly it |
| Regions.FreeAtMost | kernel/include/kernel/memory/memory_region.h:95-114 | A single region has at most as many free pages as its length |
| Regions.TailLostIff | kernel/include/kernel/memory/memory_region.h:100-103 | Every page of a region is in a word that the search looks at if and only if the length is a multiple of 32 |
| Regions.ShortRegionFails | kernel/include/kernel/memory/memory_region.h:100-103 | A region of 31 clear pages has no page to hand out |
| PageAllocator.Allocator.EarlyInit | kernel/kernel/memory/memory_region.c:52-63 | One clear region, the bitmap of which has a byte for every page, as the other routines need it, if and only if the given length is at most 16384 |
| PageAllocator.ClampCoversIff | kernel/kernel/memory/memory_region.c:53-58 | The clamp leaves at most 65536 pages, and the clamped region indexes its bitmap within its 2048 bytes for every page if and only if the length is at most 16384 |
| PageAllocator.ClampFails | kernel/kernel/memory/memory_region.c:53-58 | A region of 16385 pages passes the clamp, and its last page indexes the byte behind the bitmap |
| PageAllocator.Allocator.SetBit | kernel/include/kernel/memory/memory_region.h:55-73 | The whole new list, from any starting region |
| PageAllocator.Allocator.GetBit | kernel/include/kernel/memory/memory_region.h:75-93 | The mark of every page except the first of a region, for which, as for pages outside, it returns -1 |
| PageAllocator.Allocator.FindInRegion | kernel/include/kernel/memory/memory_region.h:100-110 | Fails only when the region has no free tracked page; otherwise marks and returns the lowest |
| PageAllocator.Allocator.FindAndSet | kernel/include/kernel/memory/memory_region.h:95-114 | The same over a stretch of the region list |
| PageAllocator.Allocator.AllocPage | kernel/kernel/memory/memory_region.c:69-83 | Fails if and only if no tracked page of any region is free, despite the roving hint; otherwise takes exactly the returned page out of the free set and marks nothing else; the page is the lowest free one of the first region that has one, in the order that starts at the hint and wraps, and that region becomes the hint.  This is the allocation step of the runs in `PageRuns` |
| PageAllocator.Allocator.DeallocPage | kernel/kernel/memory/memory_region.c:85-89 | Clears the mark of exactly the given page, if any region has it: the deallocation step of the runs in `PageRuns`; a tracked page is free again, and nothing else becomes free |
| PageAllocator.Allocator.ReserveImage | kernel/arch/i386/kernel/boot/main.c:180-203 | After the boot loop no page of the range is clear in any region, and no other mark changed |
| PageAllocator.Allocator.ReserveInRegion | kernel/arch/i386/kernel/boot/main.c:184-201 | One round of it, clipped to the region |
| PageRuns.MarkedUntilDeallocated | kernel/kernel/memory/memory_region.c:69-89 | In every run a marked page stays marked and is not handed out until it is deallocated |
| PageRuns.NoDoubleAllocation | kernel/kernel/memory/memory_region.c:69-89 | In every run two allocations of one page have a deallocation of it between them |
| PageRuns.ReservedNeverAllocated | kernel/arch/i386/kernel/boot/main.c:180-203 | In every run that deallocates only what it was given, a reserved page is never handed out |
| PageRuns.NotFreeNeverAllocated | kernel/kernel/memory/memory_region.c:69-89 | In every such run a page that is not free at the start, untracked pages included, is never handed out |
| PageRuns.ImageCoveredIff | kernel/arch/i386/kernel/boot/main.c:175-178 | The reserved page numbers cover every byte of the image if and only if it ends on a page boundary |
| PageRuns.ImageSafeIff | kernel/arch/i386/kernel/boot/main.c:175-203 | No run hands out a page that holds a byte of the image if and only if the image ends on a page boundary or the page of its end was not free before |
| PageTables.DirectoryWindow | kernel/arch/i386/include/kernel/memory/memory_manager.h:63-66 | A store at 0xFFFFF000 + 4i is let through and reaches entry i of the directory |
| PageTables.TableWindow | kernel/arch/i386/include/kernel/memory/memory_manager.h:52-55 | A store at 0xFFC00000 + 4096pd + 4pt is let through and reaches exactly the entry that the MMU walk uses |
| PageTables.SetPte | kernel/arch/i386/include/kernel/memory/memory_manager.h:81 | Changing a table entry keeps the recursive mapping and the directory |
| PageTables.SetPteWalk | kernel/arch/i386/include/kernel/memory/memory_manager.h:81 | It changes the walk of that one page and of no other address |
| PageTables.Install | kernel/arch/i386/include/kernel/memory/memory_manager.h:66-75 | Entering a fresh frame into an empty slot keeps tables distinct and the self-map in place |
| PageTables.InstallWalk | kernel/arch/i386/include/kernel/memory/memory_manager.h:66-75 | It changes the walk only below that slot and of the window page of the new table |
| AddressSpaces.AddressSpace.GetPhysAddr | kernel/arch/i386/include/kernel/memory/memory_manager.h:46-56 | Reading through the self-map gives the frame field of the entry for the address, and so what the MMU translates a mapped address to |
| AddressSpaces.AddressSpace.MapPage | kernel/arch/i386/include/kernel/memory/memory_manager.h:58-83 | Maps the page, to be written exactly when bit 1 of the flags is set, leaves every other page and directory slot as before, keeps the self-map, and takes a page from the allocator only when the slot had no table; the entry is present and holds the frame of the physical address and the low twelve bits of the flags |
| AddressSpaces.AddressSpace.EnsureSlot | kernel/arch/i386/include/kernel/memory/memory_manager.h:66-75 | A missing table is made from a page that was free, is empty, and changes no other translation but that of its window page |
| AddressSpaces.PageTranslates | kernel/arch/i386/include/kernel/memory/memory_manager.h:58-83 | After mapping p at v, v+k translates to p+k for all k below 4096 and every other address below the window as before |
| AddressSpaces.AddressSpace.ClearTable | kernel/arch/i386/include/kernel/memory/memory_manager.h:74 | Zeroing through the window empties exactly the new table |
| AddressSpaces.AddressSpace.InitKernelSpace | kernel/arch/i386/kernel/memory/paging.c:49-74 | Every slot of the kernel half gets a table, new ones in frames that were free, and nothing mapped before moves; it fails only when no page is free |
| AddressSpaces.AddressSpace.EnsureTable | kernel/arch/i386/kernel/memory/paging.c:57-73 | One round of it; it fails only when no page is free |
| AddressSpaces.KernelTablesDistinct | kernel/arch/i386/kernel/memory/paging.c:49-74 | The tables of slots 768 to 1023 lie in pairwise different frames |
| AddressSpaces.StaysReady | kernel/arch/i386/include/kernel/memory/memory_manager.h:66-75 | Mapping a page keeps every slot of the kernel half present, so no kernel mapping allocates a table |
| PagingBoot.AimedStore | kernel/arch/i386/kernel/memory/paging.c:102-123 | With the boot table hung in at slot 1023, stores at 0xFFFFF000 and 0xFFFFE000 are let through, reach the new directory and the new table, and keep it so |
| PagingBoot.AimWindow | kernel/arch/i386/kernel/memory/paging.c:102-114 | The three stores of the boot code bring that arrangement about |
| PagingBoot.FillKernelTable | kernel/arch/i386/kernel/memory/paging.c:133-163 | The new table maps the first pages one to one and nothing else |
| PagingBoot.BuildSpace | kernel/arch/i386/kernel/memory/paging.c:122-167 | The new directory holds itself at 1023, the new table at 768 and nothing else |
| PagingBoot.PointDirectory | kernel/arch/i386/kernel/memory/paging.c:125-131 | The two stores leave a directory that holds itself and the new table |
| PagingBoot.NewSpaceTables | kernel/arch/i386/kernel/memory/paging.c:125-131 | Such a directory satisfies the self-map invariant, write bits included |
| PagingBoot.NewSpaceMaps | kernel/arch/i386/kernel/memory/paging.c:133-167 | It maps exactly the image, one to one from 0xC0000000, to be written but for the page of the boot directory |
| PagingBoot.PagingEarlyInit | kernel/arch/i386/kernel/memory/paging.c:76-182 | From the boot tables to a self-mapped address space with a full kernel half and the image mapped; the directory lies in the first page that the allocator hands out, it and every table of the kernel half in frames that were free; it fails only when no page is free |
| Mmio.AcceptsIff | kernel/arch/i386/kernel/memory/mmio.c:59-73 | The 32-bit limit check is right if and only if the true end of the window lies within 32 bits, or wraps to an address above the limit |
| Mmio.AcceptsFails | kernel/arch/i386/kernel/memory/mmio.c:70-73 | The first request after boot for 512 MB is admitted though it crosses the limit |
| Mmio.RoomAfterBoot | kernel/arch/i386/kernel/memory/mmio.c:41-48 | After boot there is room for 504 MB of devices and for no byte more |
| Mmio.MmioWindows.constructor | kernel/arch/i386/kernel/memory/mmio.c:41-48 | No windows, the pointer at the start of the range |
| Mmio.MmioWindows.Map | kernel/arch/i386/kernel/memory/mmio.c:52-87 | Fails exactly when the window would cross the limit; otherwise appends a page-granular window disjoint from all earlier ones, which all stay mapped, changes no other translation, and every byte of the window, unaligned start included, translates to its device address and may be written; the window is the whole request and less than a page more, unless the span itself wraps |
| Mmio.MmioWindows.MapWindow | kernel/arch/i386/kernel/memory/mmio.c:78-82 | The mapping loop maps the whole window to be written, changes no translation outside it and takes no page from the allocator |
| Mmio.WindowSurvives | kernel/arch/i386/kernel/memory/mmio.c:78-82 | Mapping a page outside a window leaves the window's translation alone |
| HeapModel.TilesDisjoint | libc/stdlib/malloc.c:175-192 | Two blocks of a tiled heap do not overlap |
| HeapModel.TilesConserve | libc/stdlib/malloc.c:175-192 | Headers and payloads account for every byte between the start and the top of the heap |
| HeapModel.TilesMerge | libc/stdlib/malloc.c:229-245 | Merging two neighbours keeps the tiling, the merged block taking both payloads and a header |
| HeapModel.AbsorbNextKeeps | libc/stdlib/malloc.c:229-240 | Coalescing with the free block behind keeps the heap invariant, at the head and inside the list |
| HeapModel.AbsorbPrevKeeps | libc/stdlib/malloc.c:241-245 | So does coalescing with the free block in front |
| HeapModel.PushedKeeps | libc/stdlib/malloc.c:251-252 | So does pushing onto the free list |
| HeapModel.FreedKeeps | libc/stdlib/malloc.c:225-252 | Whichever of the three ways a block is freed in, it leaves the allocated set, the heap stays tiled, and the free list changes as `Free` says |
| HeapModel.FitsIff | libc/stdlib/malloc.c:136-137 | The test with `^ 0xF` accepts exactly the entries that are large enough |
| HeapModel.ReuseSoundIff | libc/stdlib/malloc.c:138-168 | Reuse leaves a sound heap if and only if the entry fits exactly and is not the head of the list |
| HeapModel.ReuseHeadFails | libc/stdlib/malloc.c:158-161 | 16 bytes asked of a single free block of 16 leave an unsound heap |
| HeapModel.ReuseSplitFails | libc/stdlib/malloc.c:139-157 | 32 bytes asked of a free block of 80 behind the head of the list leave an unsound heap |
| HeapModel.ReuseLeaves | libc/stdlib/malloc.c:138-168 | An exact fit at the head of the list changes nothing; of a larger entry the block keeps what was asked for, and a remainder of one byte too few, at an address 15 bytes behind the payload, takes its place in the list |
| HeapModel.BumpSoundIff | libc/stdlib/malloc.c:128-131 | New memory is sound and large enough if and only if the rounded size with its header does not wrap |
| HeapModel.BumpFails | libc/stdlib/malloc.c:128-131 | A request of 2^32 - 1 bytes is answered with a block without payload |
| HeapModel.BumpSound | libc/stdlib/malloc.c:175-192 | Bumping the top keeps the heap invariant and adds exactly one block |
| KernelHeap.HeapState.constructor | libc/stdlib/malloc.c:61-73 | An empty heap with nothing allocated, from the first page boundary at or behind the end of the image on |
| KernelHeap.BootHeapFits | kernel/arch/i386/kernel/boot/main.c:164-171 | With the one region of the boot code and an image in the first 4 MB of the kernel half, the heap cannot reach the device windows |
| KernelHeap.HeapState.HeapGrow | libc/stdlib/malloc.c:80-91 | Fails exactly when no page is free; otherwise maps one more page, from a frame of its own and to be written, behind the heap |
| KernelHeap.HeapState.BlockMapped | libc/stdlib/malloc.c:80-91 | Every byte of every block, header included, is mapped to a frame of the heap and may be written |
| KernelHeap.HeapState.Malloc | libc/stdlib/malloc.c:111-193 | What both paths write; on a clean request the result is aligned, new, large enough by less than 16 bytes more, and blocks and free entries still tile the mapped heap; the heap grows by no page more than needed; failure changes nothing that was allocated; no translation outside the new pages of the heap changes |
| KernelHeap.HeapState.IsClean | libc/stdlib/malloc.c:128-137 | Decides, before the call, whether a request is one that leaves the heap sound |
| KernelHeap.HeapState.MallocReuse | libc/stdlib/malloc.c:133-173 | First fit over the free list, and when an exact fit inside the list is reused the heap stays sound |
| KernelHeap.HeapState.FindFit | libc/stdlib/malloc.c:135-172 | The search stops at the first entry that fits, with its predecessor |
| KernelHeap.HeapState.WriteReuse | libc/stdlib/malloc.c:138-168 | The writes of the split and of the exact path |
| KernelHeap.HeapState.EnsureRoom | libc/stdlib/malloc.c:175-183 | Grows until the request fits, or fails when no page is free |
| KernelHeap.HeapState.TakeTop | libc/stdlib/malloc.c:184-192 | The block at the top; it is new, aligned and large enough, by less than 16 bytes more, unless the rounded size wraps |
| KernelHeap.HeapState.Free | libc/stdlib/malloc.c:199-254 | Exactly the given block leaves the allocated set, the others keep their sizes, and the heap is still tiled; if entries of the free list lie next to the block, the first of them and the block become one entry that covers the bytes of both, at its place in the list, and every other entry keeps its place and size; otherwise the block is put in front of the list |
| KernelHeap.HeapState.WriteFree | libc/stdlib/malloc.c:225-252 | The writes of the three ways to free a block |
| KernelHeap.HeapState.FindNeighbour | libc/stdlib/malloc.c:225-249 | Stops at the first free entry that touches the block, with its predecessor |
| KernelMemory.KernelSpace.Malloc | libc/stdlib/malloc.c:111-193 | A clean request keeps the heap and every device window |
| KernelMemory.KernelSpace.Free | libc/stdlib/malloc.c:199-254 | A release keeps the heap and every device window |
| KernelMemory.KernelSpace.Map | kernel/arch/i386/kernel/memory/mmio.c:52-87 | A device window keeps the heap and every other window |
| KernelMemory.Run | libc/stdlib/malloc.c:111-254 | Any clean requests, releases and window requests in any order keep the heap tiled and mapped and the windows mapped, and callers hold exactly the allocated blocks, each once |
| Boot.SetUpPages | kernel/arch/i386/kernel/boot/main.c:161-203 | One region of at most 16384 pages in which exactly the pages of the image range are no longer clear |
| Boot.BootPaging | kernel/arch/i386/kernel/memory/paging.c:76-182 | From the memory map to a kernel address space; the page directory lies in the page of the end of the image when the image starts the region |
| Boot.BootMemory | kernel/arch/i386/kernel/boot/main.c:161-208 | The boot sequence leads from the memory map to an empty heap and empty device windows over one address space that maps the image, or the source panics |
| Boot.BootAndRun | kernel/arch/i386/kernel/boot/main.c:161-208 | Whatever requests follow, heap and windows stay as `Run` promises, from the boot tables on |
| Boot.TailIsFirst | kernel/kernel/memory/memory_region.c:69-83 | After the reservation of an image that starts the region, the first page handed out is the page of the end of the image |
| Boot.BootImageSafeIff | kernel/arch/i386/kernel/boot/main.c:175-203 | After boot no run of allocations hands out a page of the image if and only if the image ends on a page boundary or its last page is not in a whole word of the region |
| Numbers.Atoi | libc/stdlib/atoi.c:32-50 | Reads up to the NUL in wrapping 32-bit arithmetic, with an optional minus sign |
| Numbers.EvalDigits | libc/stdio/snprintf.c:488-493 | Digits in bases 2 to 16 evaluate back to the number |
| Numbers.DigitsFit | libc/stdio/snprintf.c:463-495 | In bases 8 to 16 a 32-bit number has at most 11 digits, so the 20 scratch characters never fill |
| Numbers.AtoiDecimal | libc/stdlib/atoi.c:32-50 | `atoi` inverts the decimal numeral of every int but the least |
| Numbers.AtoiHighByte | libc/stdlib/atoi.c:41-47 | Bytes from 128 on count as negative characters |
| FormatModel.AtoiInvertsPrint | libc/stdio/snprintf.c:260-271 | `atoi` of the output of `%d` is the argument |
| FormatModel.MagnitudeDigits | libc/stdio/snprintf.c:472-495 | The digits of every integer conversion evaluate back to its unsigned 32-bit value and fit the scratch array |
| StandardOutput.PointerPlainIff | libc/stdio/snprintf.c:367-370 | `%p` prints the hexadecimal address if and only if it lies below 2^31 |
| StandardOutput.StringIff | libc/stdio/snprintf.c:358-366 | A `%s` specification without a length modifier, with numerals or asterisks, prints every string as the standard asks, cut to the precision and then padded, if and only if the width is not negative and there is no precision, or -1, or one that the width does not exceed |
| StandardOutput.NullPrintsIff | libc/stdio/snprintf.c:358-366 | `%s` of a null pointer prints as much of `<NULL>` as the string at address 0 is long, and so all of it if and only if that has at least six characters |
| StandardOutput.CharIff | libc/stdio/snprintf.c:355-357 | `%c` prints what the standard asks for if and only if the width is at most 1 |
| StandardOutput.PercentPrints | libc/stdio/snprintf.c:390-392 | `%%` prints a percent sign and takes no argument |
| StandardOutput.DoublesTakeTwo | libc/stdio/snprintf.c:321-354 | Conversions of doubles take two argument words, and only `%f` prints |
| StandardFormat.DigitsAreNumeral | libc/stdio/snprintf.c:488-493 | The digits that the code prints are the numeral of the standard, in lower and in upper case |
| StandardFormat.FieldLetters | libc/stdio/snprintf.c:456-535 | Every character of a printed integer is a space, a sign or a digit of its base, in the case that the conversion asks for |
| StandardFormat.IntFieldIff | libc/stdio/snprintf.c:456-535 | For every value and all flags: where no padding overflows, an integer is printed as the standard asks, character for character, if and only if a `#` flag asks for no `0x` and for no octal 0 that the padding does not show, it is not 0 with precision 0, and no padding is wanted by a negative width or by a 0 flag beside a `-` flag or a precision |
| StandardOutput.LengthIff | libc/stdio/snprintf.c:236-271 | Without a modifier and with `h`, `l` and `ll` the code takes the argument for the value that the standard gives it if and only if the value fits a short with `h`, and the high word only extends the low one with `ll` |
| StandardOutput.RenderIntIff | libc/stdio/snprintf.c:174-320 | A specification of `%d`, `%i`, `%o`, `%u`, `%x` or `%X`, with any flags, any width and precision, asterisks included, and any length modifier that the standard has for integers, prints the text that the standard asks for, with digits and signs of its own definition, if and only if neither the modifier nor the field departs as these two lemmas say, a lone point being precision 0 |
| StandardOutput.RenderLetters | libc/stdio/snprintf.c:295-320 | What an integer conversion prints are spaces, a sign and the digits 0 to 9, with a to f for `%x` and A to F for `%X` |
| StandardOutput.FormatConforms | libc/stdio/snprintf.c:157-412 | A whole format of text, percent signs and conversions of integers, strings and characters prints what the standard asks for, piece by piece and argument by argument, where no piece departs and nothing follows a long long |
| StandardFormat.PrintedReads | libc/stdio/snprintf.c:456-535 | What the code prints for an integer reads back, in every field, as the value it takes the argument for |
| StandardFormat.StandardReads | libc/stdio/snprintf.c:456-535 | So does the text of the standard as the value that the standard gives it |
| StandardOutput.UnknownPrints | libc/stdio/snprintf.c:236-257 | With `hh`, `j`, `z` or `t` nothing is printed but the conversion letter |
| StandardOutput.LeftZeroFails | libc/stdio/snprintf.c:501-506 | `%-05d` of 7 prints 00007 |
| StandardOutput.ShortFails | libc/stdio/snprintf.c:262-271 | `%hd` of 70000 prints 70000 where the standard asks for 4464 |
| StandardOutput.LongLongFails | libc/stdio/snprintf.c:262-271 | `%lld%d` prints the two words of its first argument |
| StandardOutput.AlternateFails | libc/stdio/snprintf.c:456-535 | `%#x` of 1 prints 1 where the standard asks for 0x1 |
| StandardOutput.AlternateIgnored | libc/stdio/snprintf.c:258-405 | No conversion but that of a double prints anything else with the `#` flag than without |
| FormatModel.LiteralText | libc/stdio/snprintf.c:167-173 | Text without conversions is copied |
| FormatModel.SpecRoundTrip | libc/stdio/snprintf.c:174-257 | The parser reads back every specification from its text: any flags in any order, width and precision as numerals or asterisks, any length modifier |
| FormatModel.RenderSpec | libc/stdio/snprintf.c:258-405 | A specification in a format prints its conversion, takes its argument words, and the rest of the format follows |
| Printf.ReadSpec | libc/stdio/snprintf.c:174-257 | Each state of the machine inside a specification reads on without changing what remains to be printed, and makes progress |
| Printf.Output.OutCh | libc/stdio/snprintf.c:756-762 | The character is counted, and stored if it lies within the bound |
| Printf.Output.FmtStr | libc/stdio/snprintf.c:423-454 | Sends the padded string cut to `max` |
| Printf.Output.FmtInt | libc/stdio/snprintf.c:458-535 | Sends the sign, paddings and digits of the number in the order of the format |
| Printf.Convert | libc/stdio/snprintf.c:488-495 | The scratch array holds the numeral backwards, NUL terminated, within its 20 characters |
| Printf.Padding | libc/stdio/snprintf.c:497-506 | The zero and space paddings of an integer field |
| Printf.Output.Conversion | libc/stdio/snprintf.c:258-400 | Each conversion character sends the text of its conversion |
| Printf.Output.Run | libc/stdio/snprintf.c:157-412 | For every format the state machine terminates and sends exactly what the grammar says the format means |
| Printf.Output.Dopr | libc/stdio/snprintf.c:144-421 | The returned length does not depend on the bound, and the buffer holds the first characters up to the bound and their NUL |
| Printf.ReadBack | libc/stdio/snprintf.c:413-418 | A reader of the buffer sees the output cut to one less than the bound |
| Printf.BoundedKeeps | libc/stdio/snprintf.c:413-418 | The buffer behind the NUL is left alone, and the whole buffer for a bound of 0 |
| Printf.Vsnprintf | libc/stdio/snprintf.c:791-794 | The same from an empty count, the length returned as an `int` |
| Printf.Vasprintf | libc/stdio/snprintf.c:807-818 | Measuring and writing agree: the allocated text is the whole output and its NUL; an empty output allocates nothing |
| ConsoleModel.WriteSplit | kernel/kernel/console/console.c:322-331 | Splitting a text over several writes changes nothing |
| ConsoleModel.CodeNibbles | kernel/kernel/console/console.c:117-170 | Codes 40 to 47 keep the foreground, 1, 22 and 30 to 37 keep the background, 1 adds the bright bit to the foreground and 22 takes it away, and attributes stay a byte |
| ConsoleModel.CodeColours | kernel/kernel/console/console.c:93-115 | Codes 30 to 37 set the foreground, and 40 to 47 the background, to the VGA number with the red, green and blue components of the ANSI number |
| ConsoleModel.ColourSequences | kernel/kernel/console/console.c:206-273 | `ESC [ 3 X m` leaves a foreground, and `ESC [ 4 X m` a background, with the components of X, and changes nothing else |
| ConsoleModel.BrightSequences | kernel/kernel/console/console.c:154-169 | `ESC [ 1 m` makes the foreground bright, `ESC [ 22 m` takes that back, and neither changes anything else |
| ConsoleModel.ControlSequence | kernel/kernel/console/console.c:206-273 | A sequence with any parameters and a final byte from `@` to `~` other than `m` clears to the end of the line for `K` and does nothing otherwise |
| ConsoleModel.CodeActsIff | kernel/kernel/console/console.c:154-169 | A code changes some attribute byte if and only if it is 1, 22, 30 to 37 or 40 to 47 |
| ConsoleModel.SgrIsFold | kernel/kernel/console/console.c:189-194 | The scanning loop equals the left fold of the single-code meaning over the parameters between semicolons |
| ConsoleModel.SgrSequence | kernel/kernel/console/console.c:206-273 | A whole `ESC [ ... m` sequence changes the attributes by that fold and nothing else |
| ConsoleLayout.PutchShows | kernel/kernel/console/console.c:196-312 | Every character, escape sequences included, keeps the screen a window on an endless terminal |
| ConsoleLayout.WriteShows | kernel/kernel/console/console.c:322-331 | For every byte sequence from initialisation on the screen is the window on the terminal that received the same bytes |
| ConsoleModel.InitialOk | kernel/kernel/console/console.c:63-82 | At first the screen is blank, in plain white on black |
| ConsoleLayout.ScreenIsLayout | kernel/kernel/console/console.c:275-312 | For every plain text the screen shows the last rows of its eagerly wrapped layout and the cursor stands behind it, with the pending scroll accounted for |
| ConsoleDriver.Console.constructor | kernel/kernel/console/console.c:63-82 | A blank buffer with the cursor at the origin |
| ConsoleDriver.Console.Scroll | kernel/kernel/console/console.c:276-289 | In place, every line moves up and the last is blanked with the current attributes |
| ConsoleDriver.Console.MoveRows | kernel/kernel/console/console.c:276-281 | The copying loops move every cell one line up |
| ConsoleDriver.Console.BlankRow | kernel/kernel/console/console.c:282-286 | The last line is blank and no other cell changed |
| ConsoleDriver.Console.PutPlain | kernel/kernel/console/console.c:275-311 | The flat buffer and cursor follow the screen of lines for every plain character and newline, all indices in bounds |
| ConsoleDriver.Console.ClearToEndOfLine | kernel/kernel/console/console.c:174-187 | Blanks from the cursor to the end of the line and moves to the next line, unless a scroll is pending |
| ConsoleDriver.Console.FindTerminator | kernel/kernel/console/console.c:84-91 | The first semicolon or `m` from a position on, or -1 |
| ConsoleDriver.Console.ConsumeParameter | kernel/kernel/console/console.c:141-171 | Applies the meaning of the parameter at a position and returns its end |
| ConsoleDriver.Console.Sgr | kernel/kernel/console/console.c:189-194 | The loop terminates and applies all parameters |
| ConsoleDriver.Console.PutChar | kernel/kernel/console/console.c:196-312 | The driver over its arrays does to the screen what the model does |
| ConsoleDriver.Console.WriteText | kernel/kernel/console/console.c:322-331 | So for whole texts in which only an escape follows 32 bytes of an open sequence |
| ConsoleDriver.PlainTextFits | kernel/kernel/console/console.c:196-312 | Text without escape characters always fits |
| ConsoleDriver.SequenceFitsIff | kernel/kernel/console/console.c:206-273 | A whole sequence fits the escape buffer if and only if it has at most 29 parameter bytes |
| ConsoleDriver.FlatUpdate | kernel/kernel/console/console.c:304-305 | The cell at row * columns + column is that cell of that line |
| Calibration.Calibrate | kernel/arch/i386/kernel/boot/initx86.c:112-137 | The two loops terminate and find the largest multiple of 2^(k-9) below the threshold, 2^k being the first doubling that spans a tick; 4096 or 0 outside the range |
| Calibration.Refine | kernel/arch/i386/kernel/boot/initx86.c:126-137 | The eight refining steps, as a search by successive approximation |
| Calibration.CalibrationIff | kernel/arch/i386/kernel/boot/initx86.c:112-137 | The result is below the threshold by less than one part in 256 of it if and only if 4096 < threshold <= 2^31 |
| Calibration.CalibrationExact | kernel/arch/i386/kernel/boot/initx86.c:112-137 | For a threshold behind 2^(k-1) and up to 2^k it is the multiple of 2^(k-9) right below the threshold |
| Calibration.CalibrationOutside | kernel/arch/i386/kernel/boot/initx86.c:112-137 | It is 4096 for every threshold up to 4096, and 0 for every one above 2^31 |

## Left out

- Preemption inside a scheduler scan: `scheduler_yield` and the parts of the wait loop between
  interrupt-enabled points are atomic steps; handlers run between them, never inside.
- Signals: `task_signal_pending` is the constant 0 that kernel/arch/i386/kernel/scheduler/task.c:83 makes
  it, so the loop never goes round without yielding.
- The idle task is one RUNNING task that only yields, as kernel/kernel/kernel.c:71-73 demands, and a task
  exits only when its successor is RUNNING; `YieldInLoopSafeIff` and `ExitSafeIff` state what happens
  otherwise.
- Addresses of tasks and of queue entries on stacks: both are identifiers, one entry for each task, and
  links are maps; a stack that is reused while a queue still points into it is excluded by `FinishKeeps`.
- Stack and structure allocation in `scheduler_create_thread`: the new identifier has not been used before.
- Key modifiers and key maps; the wait for a key sees only the ring index, and `Keyboard.dfy` takes the
  counts of keys at the looks of a reader as given.
- Keyboard.KeyRing.KeyAt: requires fewer than 128 keys between the last look and the reading of the slot,
  which a later key overwrites otherwise.
- `scheduler_remove_task`, which nothing calls.
- The `next` pointers of memory regions: the region list is a sequence of regions and the roving hint a
  position in it; `PAGE_LIMIT` bounds page numbers by the physical address space.
- PageAllocator.Allocator.EarlyInit: covers any length, but the memory behind the bitmap that a longer
  region runs into is not modelled; the other routines require a bitmap that covers its region.
- AddressSpaces.AddressSpace.GetPhysAddr: requires a table for the address; without one the source faults.
- AddressSpaces.AddressSpace.EnsureSlot: requires a free page when the table is missing, for the same
  reason as `MapPage`.
- AddressSpaces.AddressSpace.MapPage: requires a free page when a table is missing, because the source
  goes on with an unset page number when the allocation fails, and an address below the window.
- TLB contents, `invlpg` and CR3 reloads: the walk always sees current memory.  The message printed when
  a page is mapped over is not modelled.
- Mmio.MmioWindows.Map: does not cover a request whose window runs over the end of the address space, which
  the source maps across the page-table window; `AcceptsIff` says which those are.
- KernelMemory.KernelSpace.Map: does not cover those either.
- KernelMemory.KernelSpace.Malloc: requires a clean request, one that the routine leaves a sound heap for;
  `HeapState.Malloc` says what the others write, `ReuseSoundIff` and `BumpSoundIff` which they are, and
  `KernelMemory.Run` passes over them.
- Boot.BootMemory: takes one stretch of available memory, the last candidate, for which the boot code's
  region stands; the boot directory and its table lie in image pages that are wholly reserved, and the
  image in the first 4 MB of the kernel half.
- KernelHeap.HeapState.constructor: requires that the heap, grown by every free page, ends below the
  device windows; the source has no check for it, and `BootHeapFits` says why it needs none at boot.
- Heap memory other than block headers; headers are a map from addresses.  The debug checksum is left out.
- KernelHeap.HeapState.Free: `mem` is memory that `malloc` returned and that is still allocated.
- Printf.Output.Conversion: the text of `%f` is a parameter of the model, `%e` and `%g` print nothing
  but take their argument, and the store of `%n` is not modelled.
- StandardOutput.RenderIntIff: requires, for a width given as an asterisk, that the padding does not overflow
  an `int`, for which C has no meaning.  `#` beside `%d`, `%i` and `%u` is undefined in the standard and taken to
  ask for nothing; the modifier `L`, which the standard has for floating point only, is not covered.
- StandardOutput.StringIff: `%ls` is not covered, since the standard takes wide characters there.
- Printf.Output.Run: behind the end of a format there is only NUL, so a trailing `%w` stops the machine
  where the source would read on; `%s` of address 0 reads the bytes there like any other address.
- Signed overflow in widths and precisions wraps in 32 bits in the model; C leaves it undefined.
- `printf` itself: the 256-character buffer and `puts`.
- ConsoleDriver.Console.PutChar: requires room in the 32 bytes of the escape buffer for anything but a new
  escape, since the source does not check for more; `SequenceFitsIff` says which sequences fit.
- ConsoleDriver.Console.WriteText: requires the same of every byte of the text.
- Drawing, the dirty flag, the serial copy of the output and the reading of keys from the console.
- The waiting for the start of a clock tick in the calibration; a delay spans a tick exactly when it has
  at least as many loops as a threshold.
- Port input and output, descriptor tables, context-switch assembly, ACPI, PCI, block devices, tty and
  file-system headers: registers and tables without a property to state.
