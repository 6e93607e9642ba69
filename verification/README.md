# NovaOS kernel: a verified model

This project models the four stateful subsystems of the NovaOS kernel in Dafny and proves how they behave over whole
runs, alone and together. Nothing was executed; every statement below is checked by the verifier.

| part | files |
|---|---|
| physical pages | `Bits`, `PageSets`, `Pmm` (bitmap and counters), `PageRuns` (whole runs) |
| kernel heap | `Blocks` (block lists), `HeapRuns` (whole runs), `HeapMemory` (header bytes), `Heap` (the allocator on bytes) |
| boot | `Boot` (claiming the pool), `Startup` (memory map to first created task) |
| tasks | `Cpu`, `Sched` (decisions, fairness), `Tasking` (the system as a state machine), `Preemption` (theorems over runs), `Kernel` (assembly routines and scheduler, step by step) |
| console | `Terminal` (abstract screen), `Layout` (wrapped lines, no cursor), `Console` (pixels), `Digits` (number printers) |
| input | `Keyboard` (scancodes, ring, interrupts between the reader's steps), `Shell` (edit loop, keyboard to screen) |

Code that changes state in place is a class or a method over arrays (`Pmm.PageAllocator`, `Heap.KernelHeap`,
`Kernel.Machine`, `Console.Framebuffer`, `Keyboard.Driver`, `Shell.Task`), each tied by its postconditions to a value
model. The properties are proved on the value models, mostly for every run.

How the parts meet:

- The bitmap refines a set of free pages. `heap_init` owns all bytes of its 256 KB pool exactly when they lie in free
  pages, and then no later allocation can return a page with a byte in the pool unless a client gave it away.
- The heap is bytes: headers are encoded little-endian inside the pool, and `kmalloc` and `kfree` are proved on those
  bytes. The list of blocks is a function of what clients hold, so freeing everything in any order restores the initial
  heap.
- Live payloads are disjoint, therefore task stacks are, therefore a preempted task finds its registers, flags and stack
  as they were. What the compiled `sched_tick` pushes around its call of `context_switch` is a parameter, constrained
  only by section 3.2.1 of the System V AMD64 ABI.
- What a scancode types is stated in terms of all scancodes before it, and what a character looks like in terms of the
  font's bytes.
- Characters delivered by the keyboard ring are a prefix of those accepted, the shell's buffer is a fold over them, the
  cursor's row shows that buffer, and pixels show the screen.

What the proofs show about the code that its documentation does not say:

- `s_free_pages` is exact if and only if no page lies wholly in two usable entries (`Pmm.PageAllocator.Init`).
- The pool of the heap may contain pages nobody allocated (`Boot.PoolGapExample`); `Boot.PoolOwnership` gives the
  exact condition.
- `kmalloc` of more than 2^64 - 8 bytes wraps to a request for 0 bytes and can succeed; `HeapRuns.RunLedger` states that
  a granted block is smaller than its request exactly then.
- A new task is entered by `ret` inside an interrupt gate, so with interrupts off. Contrary to the "preemptive
  multitasking" of the repository's `README.md`, a created task whose code never turns interrupts on is never preempted
  (`Preemption.StuckUntilSti`, `Preemption.NeverYields`). Fairness (`Sched.ReadyTaskRuns`) is therefore counted in
  ticks that arrive.
- The shell's line can be read on the screen for every key stream if and only if the screen has more than 135 columns;
  on narrower screens it can be read exactly as long as the line has not reached the right edge since the last Enter
  (`Shell.LineVisible`, `Shell.EveryLineVisible`).
- Printing a tab ends if and only if the next tab stop lies inside the line (`Terminal.TabEnds`).
- Shift does not undo caps lock: with both, a letter is a capital (`Keyboard.LetterCase`).

## Model

| member | source | states |
|---|---|---|
| Bits.OrBit | kernel/mm/pmm.cpp:17 | bit i of a word `or`ed with another is set if it is set in either |
| Bits.AndNotBit | kernel/mm/pmm.cpp:18 | bit i of `v & ~w` is set if it is set in v and not in w |
| Bits.PowBit | kernel/mm/pmm.cpp:17-19 | `1 << i` has exactly bit i set |
| Bits.TestBit | kernel/mm/pmm.cpp:19 | `w & (1 << i)` is nonzero if and only if bit i of w is set |
| Bits.Ctz | kernel/mm/pmm.cpp:66 | count-trailing-zeros is the index of a set bit below which no bit is set |
| Pmm.SetPage | kernel/mm/pmm.cpp:17 | setting the bit of page p adds exactly p to the set of free pages |
| Pmm.ClearPage | kernel/mm/pmm.cpp:18 | clearing the bit of page p removes exactly p |
| Pmm.LowestPage | kernel/mm/pmm.cpp:63-67 | the lowest bit of the first nonzero word is the minimum of the set of free pages |
| Pmm.RoundedBounds | kernel/mm/pmm.cpp:44-45 | the pages between the rounded bounds are exactly those wholly inside the entry |
| Pmm.FreedPages | kernel/mm/pmm.cpp:39-58 | the pages marked and not reserved are those in 256..1048575 wholly inside a usable entry |
| Pmm.Farthest | kernel/mm/pmm.cpp:32-36 | a maximum of the end pages bounds exactly the pages before the end of some entry |
| PageSets.UsableIsUnion | kernel/mm/pmm.cpp:40-53 | accumulating entry by entry yields the pages inside some usable entry, in any order of entries |
| PageSets.ClaimsExact | kernel/mm/pmm.cpp:40-53 | counting entry by entry never undercounts, and is exact if and only if no page lies in two usable entries |
| Pmm.PageAllocator.constructor | kernel/mm/pmm.cpp:10-13 | the zero-initialised state: no page is free |
| Pmm.PageAllocator.BitSet | kernel/mm/pmm.cpp:17 | adds page p to the free pages and changes nothing else |
| Pmm.PageAllocator.BitClear | kernel/mm/pmm.cpp:18 | removes page p from the free pages and changes nothing else |
| Pmm.PageAllocator.BitTest | kernel/mm/pmm.cpp:19 | true if and only if page p is free |
| Pmm.PageAllocator.CountPages | kernel/mm/pmm.cpp:31-37 | the total is the number of pages before the farthest end of any entry, of whatever kind, at most 1048576; every page of a usable entry lies below it |
| Pmm.PageAllocator.MarkRegion | kernel/mm/pmm.cpp:44-52 | frees exactly the pages between the rounded bounds and counts each once |
| Pmm.PageAllocator.MarkUsable | kernel/mm/pmm.cpp:39-53 | frees exactly the pages of usable entries; the counter holds the sum of their page counts |
| Pmm.PageAllocator.ReserveLow | kernel/mm/pmm.cpp:55-58 | takes exactly the pages below 1 MB out and uncounts those that were free |
| Pmm.PageAllocator.Init | kernel/mm/pmm.cpp:23-59 | a page is free if and only if it is one of 256..1048575 and wholly inside a usable entry; page n is below the total if and only if n < 1048576 and some entry reaches its end; the counter is exact if and only if no page lies in two usable entries |
| Pmm.PageAllocator.Alloc | kernel/mm/pmm.cpp:61-73 | removes the minimum of the free pages and returns its address; null and no change when none is free |
| Pmm.PageAllocator.Release | kernel/mm/pmm.cpp:75-82 | adds the page unless it is out of range; freeing a free page changes nothing; the counter stays as exact as it was |
| Pmm.PageAllocator.UsedBytes | kernel/mm/pmm.cpp:86 | with an exact counter the 64-bit subtraction does not underflow and gives the bytes of pages that are not free |
| PageRuns.Conservation | kernel/mm/pmm.cpp:61-82 | in every legal run free and held pages stay disjoint and their union stays the same |
| PageRuns.NoDoubleHandout | kernel/mm/pmm.cpp:61-82 | a page handed out twice was given back in between |
| PageRuns.HandoutsInRange | kernel/mm/pmm.cpp:55-73 | no returned address is below 1 MB, so null always means out of memory, and every page stays below the total |
| Boot.LowestCount | kernel/mm/heap.cpp:33-50 | k allocations yield k pages, or all when fewer are free |
| Boot.LowestPartition | kernel/mm/heap.cpp:33-50 | pages taken and pages left make up the free pages, disjointly |
| Boot.LowestFirst | kernel/mm/heap.cpp:33-50 | every page taken is lower than every page left |
| Boot.LowestAscending | kernel/mm/heap.cpp:33-50 | pages are taken in ascending order |
| Boot.PoolBytes | kernel/mm/heap.cpp:52-57 | an address is one of the 262144 bytes of the pool if and only if its page is one of the pages counted as the pool's |
| Boot.PoolPagesTaken | kernel/mm/heap.cpp:42-61 | the pool's pages are all taken if and only if they were all free, and then nothing else is taken |
| Boot.PoolOwnership | kernel/mm/heap.cpp:42-61 | every byte of the pool lies in a page that was taken if and only if every byte lay in a free page; then an address is in the pool if and only if its page was taken, and no byte of the pool lies in a page still free |
| Boot.PoolGapExample | kernel/mm/heap.cpp:44-50 | with a hole after the lowest free page the pool contains the bytes of a page that was not allocated |
| Boot.PoolStaysOwned | kernel/mm/heap.cpp:44-61 | in any run, a page that holds a byte of an owned pool is handed out only after a client has given that page away |
| Boot.HeapInit | kernel/mm/heap.cpp:30-61 | takes the 64 lowest free pages and leaves one free block of 262112 bytes at the first; when all bytes of the pool lay in free pages, no page still free has a byte in the pool; with no free page the heap stays uninitialised |
| Blocks.RoundUpAligned | kernel/mm/heap.cpp:67 | the rounded size is a multiple of 8 and at most 7 larger; above 2^64 - 8 it wraps to 0 |
| Blocks.Partition | kernel/mm/heap.cpp:12-18 | every byte of the pool belongs to one block, and blocks are pairwise disjoint |
| Blocks.CarveWellFormed | kernel/mm/heap.cpp:72-88 | granting keeps tiling, alignment and the absence of free neighbours |
| Blocks.CarveLive | kernel/mm/heap.cpp:72-88 | granting adds exactly one live block |
| Blocks.ReleaseWellFormed | kernel/mm/heap.cpp:95-106 | releasing and coalescing both ways keeps the heap well formed and removes exactly the freed block from the live ones |
| Blocks.Canonical | kernel/mm/heap.cpp:23-28 | two well-formed block lists of a pool with the same live blocks are equal |
| HeapRuns.StepWellFormed | kernel/mm/heap.cpp:63-106 | every call keeps the heap well formed |
| HeapRuns.RunWellFormed | kernel/mm/heap.cpp:63-106 | in every run the blocks tile the pool in address order, sizes are multiples of 8, and no two neighbours are both free |
| HeapRuns.RunsAgree | kernel/mm/heap.cpp:63-106 | the block list depends only on which blocks are live, not on the history |
| HeapRuns.AllocateThenFree | kernel/mm/heap.cpp:63-106 | `kmalloc` then `kfree` of the result restores the block list exactly |
| HeapRuns.DrainedByFrees | kernel/mm/heap.cpp:56-106 | once every pointer has been freed, in any order, the heap is the single block of 262112 bytes made by `heap_init` |
| HeapRuns.FirstFitting | kernel/mm/heap.cpp:64-92 | null and no change if and only if 0 bytes are asked for or no free block fits, otherwise the fitting block of lowest address |
| HeapRuns.GrantedSize | kernel/mm/heap.cpp:72-88 | a block is split if and only if 64 bytes would be left over: the client gets the rounded size and the rest is a free block behind; otherwise the whole block |
| HeapRuns.PayloadsPrivate | kernel/mm/heap.cpp:63-93 | a payload lies in the pool and meets no other block and no header |
| HeapRuns.GrantFresh | kernel/mm/heap.cpp:72-88 | a granted block is at an address no live block has and wastes at most 63 bytes |
| HeapRuns.RunLedger | kernel/mm/heap.cpp:63-106 | in every run a block granted for r bytes has at most r + 63, and at least r if and only if r <= 2^64 - 8, for its whole lifetime |
| HeapRuns.Conservation | kernel/mm/heap.cpp:63-106 | headers, live payloads and free payloads add up to the pool |
| HeapRuns.FewFreeBlocks | kernel/mm/heap.cpp:102-105 | there is at most one free block more than live ones |
| HeapRuns.SuccessBound | kernel/mm/heap.cpp:63-106 | with k live blocks of L bytes, a request rounding to n succeeds whenever (k + 1)(n + 24) < 262144 - 32k - L |
| HeapMemory.LeRoundTrip | kernel/mm/heap.cpp:12-18 | a number stored little-endian in enough bytes reads back |
| HeapMemory.StoreField | kernel/mm/heap.cpp:12-18 | storing a header field changes that field of that header and no byte outside it |
| HeapMemory.ClientWrites | kernel/mm/heap.cpp:12-18 | clients that write only inside live payloads leave the whole linked list intact |
| Heap.SplitRepresents | kernel/mm/heap.cpp:74-87 | the stores of a split leave the bytes of the list with that block carved: `prev` inverts `next`, every magic intact |
| Heap.MergeRepresents | kernel/mm/heap.cpp:23-28 | the stores of a merge leave the bytes of the merged list, stale header ignored |
| Heap.FlagRepresents | kernel/mm/heap.cpp:87-101 | changing a free flag changes just that block of the list |
| Heap.KernelHeap.constructor | kernel/mm/heap.cpp:20 | before `heap_init` there is no heap |
| Heap.KernelHeap.Place | kernel/mm/heap.cpp:52-60 | the pool becomes one free block with an intact header |
| Heap.KernelHeap.Split | kernel/mm/heap.cpp:74-86 | the new header, its predecessor and its successor are linked; only bytes of these headers change |
| Heap.KernelHeap.Search | kernel/mm/heap.cpp:69-91 | following the links finds the first free block that is large enough |
| Heap.KernelHeap.Kmalloc | kernel/mm/heap.cpp:63-93 | the bytes afterwards represent the specified block list, the pointer is as specified, no byte of a live payload changes, and a failing call changes nothing |
| Heap.KernelHeap.Grant | kernel/mm/heap.cpp:72-89 | the found block is split or handed out whole, on bytes |
| Heap.KernelHeap.Unlink | kernel/mm/heap.cpp:25-27 | the three stores of a merge, and which bytes they may change |
| Heap.KernelHeap.MergeNext | kernel/mm/heap.cpp:23-28 | merges with the successor when both are free, and otherwise does nothing; payloads are kept |
| Heap.KernelHeap.FreeBlock | kernel/mm/heap.cpp:101-105 | marks free and coalesces with both neighbours, on bytes |
| Heap.KernelHeap.Kfree | kernel/mm/heap.cpp:95-106 | frees a live pointer; null and a pointer freed before change no byte; payloads are kept |
| Heap.KernelHeap.Kzalloc | kernel/mm/heap.cpp:108-114 | as `kmalloc`, and exactly the requested bytes of live payloads become zero |
| Sched.ChoiceIsFirstReady | kernel/sched/scheduler.cpp:84-88 | the search picks the cyclically first ready slot after the current one if and only if there is one, and otherwise the very next slot |
| Sched.NextInRing | kernel/sched/scheduler.cpp:84-88 | when all are ready the next in the ring is chosen |
| Sched.TickSound | kernel/sched/scheduler.cpp:73-96 | exactly one is running, it is the current one, all others are ready with id equal to index; a call with an even counter changes nothing, one with an odd counter passes the turn to the next in the ring; the counter wraps at 2^32 |
| Sched.TickStates | kernel/sched/scheduler.cpp:79-96 | for any mix of states the running one becomes ready, the chosen one runs, all others keep their state, and none but a ready one is chosen while there is one |
| Sched.Cadence | kernel/sched/scheduler.cpp:73-100 | after k ticks from counter value c the current index has advanced by (c % 2 + k) / 2 places around the ring, across the wrap of the counter |
| Sched.CreateSound | kernel/sched/scheduler.cpp:60-71 | creation appends one ready entry and keeps the same |
| Sched.StepWaiting | kernel/sched/scheduler.cpp:73-100 | each delivered tick brings a waiting entry nearer, also across the 32-bit wrap; creations do not delay it |
| Sched.BoundedWaiting | kernel/sched/scheduler.cpp:60-100 | in every run of ticks and creations an entry runs before its distance in ticks is used up |
| Sched.ReadyTaskRuns | kernel/sched/scheduler.cpp:60-100 | a ready entry is running after at most 30 delivered ticks |
| Tasking.StacksDisjoint | kernel/sched/scheduler.cpp:30-46 | stacks are pairwise disjoint because heap payloads are |
| Preemption.AllocateKeepsStacks | kernel/sched/scheduler.cpp:32 | any `kmalloc` leaves the stacks allocated and returns none of them |
| Preemption.ReleaseKeepsStacks | kernel/mm/heap.cpp:95-106 | a `kfree` of anything but a stack leaves the stacks allocated |
| Preemption.SwitchedOut | kernel/sched/context_switch.asm:18-28 | what a switch leaves on the stack is a frame that resumes the interrupted context |
| Preemption.TimerInvariant | kernel/arch/x86_64/isr_stubs.asm:77-116 | a timer interrupt keeps the system invariant |
| Preemption.SpawnInvariant | kernel/sched/scheduler.cpp:60-71 | a creation keeps the system invariant |
| Preemption.StepInvariant | kernel/sched/scheduler.cpp:60-100 | every step keeps the system invariant |
| Preemption.BootInvariant | kernel/sched/scheduler.cpp:48-58 | it holds after `sched_init` |
| Preemption.RunInvariant | kernel/sched/scheduler.cpp:48-100 | it holds in every state of every run |
| Preemption.KeepsWaiting | kernel/sched/context_switch.asm:30-42 | one step of anybody else keeps a waiting context, and the step that switches back delivers it |
| Preemption.Transparent | kernel/sched/context_switch.asm:18-42 | in every run, what is switched out and later switched back has the same registers, instruction pointer, stack pointer, flags and stack contents |
| Preemption.TransparentTick | kernel/arch/x86_64/isr_stubs.asm:77-116 | so does a tick that does not switch |
| Preemption.FirstRun | kernel/sched/scheduler.cpp:36-45 | a first switch-in enters the entry function with six zero registers, the stack pointer at the stack's top, and interrupts off |
| Preemption.StuckUntilSti | kernel/arch/x86_64/isr_stubs.asm:99-116 | while interrupts are off no timer interrupt happens and nothing else runs |
| Preemption.NeverYields | kernel/sched/scheduler.cpp:36-45 | code entered for the first time that never turns interrupts on keeps the processor for ever |
| Kernel.SaveRegisters | kernel/sched/context_switch.asm:20-25 | the six pushes leave the registers in the frame layout and touch nothing else |
| Kernel.RestoreRegisters | kernel/sched/context_switch.asm:34-42 | the six pops and the return read that layout |
| Kernel.PushAll | kernel/arch/x86_64/isr_stubs.asm:78-92 | the fifteen pushes leave all registers in the stub's layout |
| Kernel.PopAll | kernel/arch/x86_64/isr_stubs.asm:101-116 | the fifteen pops and `iretq` restore the context stored in that layout |
| Kernel.EnterStub | kernel/arch/x86_64/isr_stubs.asm:77-99 | at the call of `sched_tick` the stack holds the interrupted context |
| Kernel.LeaveFrame | kernel/sched/context_switch.asm:18-28 | at the change of stacks the whole frame is in place |
| Kernel.Continue | kernel/sched/context_switch.asm:30-42 | control comes back through the stub, or enters a new function |
| Kernel.ZeroWords | kernel/sched/scheduler.cpp:16-19 | the whole range is zero afterwards, nothing else changes |
| Kernel.SeedStack | kernel/sched/scheduler.cpp:34-45 | the entry function above six zeros at the top, zeros below |
| Kernel.Machine.constructor | kernel/sched/scheduler.cpp:48-58 | one running entry, the boot context |
| Kernel.Machine.Search | kernel/sched/scheduler.cpp:84-88 | the loop finds the specified choice |
| Kernel.Machine.Decide | kernel/sched/scheduler.cpp:73-96 | states, current index and tick counter become those of the specification |
| Kernel.Machine.TimerInterrupt | kernel/arch/x86_64/isr_stubs.asm:77-116 | the instruction sequence from interrupt to resumption is a timer step of the state machine |
| Kernel.Machine.SwitchTask | kernel/sched/context_switch.asm:18-42 | the switching path of that step |
| Kernel.Machine.SetupInitialStack | kernel/sched/scheduler.cpp:30-46 | a stack from the heap, zeroed and seeded; nothing when the heap is exhausted |
| Kernel.Machine.CreateTask | kernel/sched/scheduler.cpp:60-71 | is a creation step of the state machine, touches no other stack; returns 0xFFFFFFFF if and only if 16 exist or no 16384 bytes can be had, and otherwise the index of an entry with such a stack |
| Startup.StartMemory | kernel/kernel_main.cpp:116-124 | from any memory map to a fresh heap; when all bytes of the pool lay in free pages, no page still free has a byte in the pool |
| Startup.StartTasks | kernel/kernel_main.cpp:145-147 | ends in a state satisfying the invariant, with the first created entry not yet started |
| Terminal.TabEnds | kernel/drivers/framebuffer.cpp:185-188 | the loop of a tab can reach the stop if and only if the stop lies inside the line |
| Terminal.TabBlanks | kernel/drivers/framebuffer.cpp:185-188 | a tab blanks one to four places, up to the next column that is a multiple of four, and nothing else |
| Terminal.ControlCharacters | kernel/drivers/framebuffer.cpp:179-195 | carriage return, newline and backspace: where the cursor goes and which place is blanked |
| Terminal.PutTextConcat | kernel/drivers/framebuffer.cpp:205 | printing two texts is printing their concatenation |
| Layout.LinesSnoc | kernel/drivers/framebuffer.cpp:196-202 | breaking a text into lines commutes with appending a character |
| Layout.WindowPut | kernel/drivers/framebuffer.cpp:178-203 | `fb_putchar` on the screen showing a text gives the screen showing the longer text |
| Layout.PrintShowsLastLines | kernel/drivers/framebuffer.cpp:170-205 | after a clear, printing any text of printable characters and newlines shows the last lines of the text wrapped at the line width |
| Console.DrawnPixel | kernel/drivers/framebuffer.cpp:125-140 | drawing a glyph in a cell changes the rendering of exactly that cell |
| Console.ScrolledPixel | kernel/drivers/framebuffer.cpp:142-152 | moving pixels up by one character height renders the scrolled cells, for every screen height |
| Console.GlyphRow | kernel/drivers/framebuffer.cpp:126-133 | the dots of row r < 8, read left to right as binary digits, most significant first, are the font's byte for that code and row; rows 8 and 9 are empty; codes without a glyph look like 0x7F |
| Console.ShownGlyph | kernel/drivers/framebuffer.cpp:125-140 | the same read off the framebuffer: the pixels of a character's box spell the rows of its glyph in the two colours |
| Console.Framebuffer.constructor | kernel/drivers/framebuffer.cpp:158-166 | any legal geometry yields a cleared screen of width / 8 columns and height / 10 rows |
| Console.Framebuffer.DrawGlyph | kernel/drivers/framebuffer.cpp:125-140 | exactly the on-screen pixels of the character box change, foreground where the glyph has a dot; `Console.GlyphRow` says where that is |
| Console.Framebuffer.ScrollUp | kernel/drivers/framebuffer.cpp:142-152 | every pixel becomes the one ten rows below, the last ten rows background |
| Console.Framebuffer.FillFrom | kernel/drivers/framebuffer.cpp:149-151 | background from a row down, nothing else changed |
| Console.Framebuffer.SetColor | kernel/drivers/framebuffer.cpp:168 | with the same background the pixels still show the cells |
| Console.Framebuffer.Clear | kernel/drivers/framebuffer.cpp:170-176 | all pixels background, cursor at the origin |
| Console.Framebuffer.LineFeed | kernel/drivers/framebuffer.cpp:191-193 | cursor down or scroll, on pixels |
| Console.Framebuffer.PutChar | kernel/drivers/framebuffer.cpp:178-203 | pixels and cursor become those of the abstract screen after the character |
| Console.Framebuffer.PutTab | kernel/drivers/framebuffer.cpp:185-188 | spaces up to the tab stop |
| Console.Framebuffer.Print | kernel/drivers/framebuffer.cpp:205 | pixels and cursor after a whole string |
| Console.PixelsShowLastLines | kernel/drivers/framebuffer.cpp:170-205 | the framebuffer equals, pixel by pixel, the rendering of the last lines |
| Digits.WordDigits | kernel/drivers/framebuffer.cpp:210-216 | 20 decimal and 16 hexadecimal digits are enough for 64 bits, 19 decimal ones are not |
| Digits.DecRoundTrip | kernel/drivers/framebuffer.cpp:214-220 | parsing a printed number gives it back; no leading zero unless it is 0; no more digits than needed |
| Digits.DecOfValue | kernel/drivers/framebuffer.cpp:214-220 | printing the value of a decimal numeral gives the numeral |
| Digits.HexRoundTrip | kernel/drivers/framebuffer.cpp:207-213 | parsing n printed hexadecimal digits gives the number back |
| Digits.HexOfValue | kernel/drivers/framebuffer.cpp:207-213 | printing the value of a hexadecimal numeral gives the numeral |
| Digits.HexTextReads | kernel/drivers/framebuffer.cpp:207-213 | what is printed reads 0x and sixteen digits whose value is the number |
| Digits.Generate | kernel/drivers/framebuffer.cpp:216-217 | at most 20 digits, last one first |
| Digits.ReverseInPlace | kernel/drivers/framebuffer.cpp:218 | the swaps reverse the digits |
| Digits.PrintDec | kernel/drivers/framebuffer.cpp:214-220 | the screen after printing the decimal numeral |
| Digits.GenerateHex | kernel/drivers/framebuffer.cpp:210-211 | the buffer holds the 16 digits |
| Digits.PrintHex | kernel/drivers/framebuffer.cpp:207-213 | the screen after printing 0x and 16 digits whose value is the number |
| Keyboard.ModifiersMeaning | kernel/drivers/keyboard.cpp:48-57 | shift is held if and only if some shift key was pressed and none released since; caps lock is the parity of its presses |
| Keyboard.TypedMeaning | kernel/drivers/keyboard.cpp:48-68 | for every history of scancodes and every code: releases, shift, caps lock, control and alt type nothing; the second table is used if and only if a shift was pressed and none released since; otherwise a small letter of the first table is a capital if and only if caps lock was pressed an odd number of times |
| Keyboard.LetterCase | kernel/drivers/keyboard.cpp:61-68 | a letter is a capital if and only if shift or caps lock is on |
| Keyboard.QueuePut | kernel/drivers/keyboard.cpp:70-76 | a store at the head appends; the ring refuses exactly when 255 are waiting |
| Keyboard.QueueTake | kernel/drivers/keyboard.cpp:83-90 | the slot at the tail is the oldest unread character, advancing removes it; head equals tail exactly when nothing waits |
| Keyboard.StepConsistent | kernel/drivers/keyboard.cpp:45-90 | every interrupt and every reader step keeps the ring a queue; a character is dropped only when 255 are waiting; a slot being read is not overwritten |
| Keyboard.InOrder | kernel/drivers/keyboard.cpp:45-90 | under every interleaving the delivered characters are a prefix of the accepted ones |
| Keyboard.NothingLost | kernel/drivers/keyboard.cpp:70-76 | as long as the ring never holds 255, everything typed is accepted |
| Keyboard.RunTyped | kernel/drivers/keyboard.cpp:45-77 | in every interleaving, what has been typed is what the scancodes mean |
| Keyboard.Driver.constructor | kernel/drivers/keyboard.cpp:12-17 | an empty ring, no modifiers |
| Keyboard.Driver.Translate | kernel/drivers/keyboard.cpp:48-68 | modifiers and character as specified |
| Keyboard.Driver.Enqueue | kernel/drivers/keyboard.cpp:71-75 | stores and advances unless the ring is full |
| Keyboard.Driver.IrqHandler | kernel/drivers/keyboard.cpp:45-77 | is an interrupt step of the interleaving model; the character the scancode means after all those before it joins the queue, unless 255 are waiting |
| Keyboard.Driver.HasChar | kernel/drivers/keyboard.cpp:83 | true if and only if a character is waiting |
| Keyboard.Driver.ReadSlot | kernel/drivers/keyboard.cpp:87 | is a read step and yields the oldest unread character |
| Keyboard.Driver.Advance | kernel/drivers/keyboard.cpp:88 | is an advance step and removes what was read |
| Keyboard.Driver.GetChar | kernel/drivers/keyboard.cpp:85-90 | delivers the oldest unread character |
| Shell.CStringIsLine | kernel/shell/shell.cpp:154 | the terminated buffer, read as a C string, is the typed line |
| Shell.PromptReads | kernel/shell/shell.cpp:145-147 | what should be visible is NovaOS> in cyan and the line in white |
| Shell.PerformText | kernel/shell/shell.cpp:155 | output without a clear is printing |
| Shell.PerformClear | kernel/shell/shell.cpp:55-60 | after the last clear only the last lines of what is printed later remain |
| Shell.RunEdits | kernel/shell/shell.cpp:149-173 | buffer and executed commands are the fold over the keys: append, drop when full, take back, submit at Enter |
| Shell.Typing | kernel/shell/shell.cpp:167-171 | typing characters in 32..126 gives a line of the first 127 of them |
| Shell.Ignored | kernel/shell/shell.cpp:152-172 | any character that is neither Enter, backspace nor in 32..126 changes nothing |
| Shell.Mistake | kernel/shell/shell.cpp:161-171 | a backspace undoes the key before it unless that key was dropped |
| Shell.LineVisible | kernel/shell/shell.cpp:141-177 | for every key stream and all command outputs, the cursor's row reads prompt and buffer, cursor after it, if and only if the line stayed inside the row since the last Enter; all after the cursor is blank |
| Shell.EveryLineVisible | kernel/shell/shell.cpp:141-177 | this holds for every key stream if and only if there are more than 135 columns |
| Shell.KeyboardToScreen | kernel/shell/shell.cpp:149-173 | under every interleaving of keyboard interrupts the screen shows the line of an initial part of the accepted characters, of all of them once the ring is empty |
| Shell.KeysToScreen | kernel/shell/shell.cpp:149-173 | when the ring never filled and is empty, the screen shows the line, and the shell has got the commands, that the scancodes mean |
| Shell.Task.constructor | kernel/shell/shell.cpp:142-147 | greeting and prompt on a cleared screen, empty buffer |
| Shell.Task.Output | kernel/shell/shell.cpp:155 | the screen after the output of a command |
| Shell.Task.Prompt | kernel/shell/shell.cpp:157-159 | the prompt in cyan, then white |
| Shell.Task.Enter | kernel/shell/shell.cpp:152-160 | one Enter step of the model; the string handed over is the line |
| Shell.Task.Key | kernel/shell/shell.cpp:152-172 | one key step of the model, on buffer and pixels |
| Shell.Task.Poll | kernel/shell/shell.cpp:149-173 | one round: the oldest waiting character is handled, or nothing changes |

## Left out

- Pmm.PageAllocator.Init: entries whose `base + length` or `base + 0xFFF` wraps around 64 bits, which the Memory Map Feature of the Limine Boot Protocol rules out; the function is called once, on the zero-initialised statics.
- Pmm.PageAllocator.UsedBytes: when the counter is not exact, nothing is said about the result.
- Boot.HeapInit: a direct map whose addresses would wrap around 64 bits, or is not page aligned.
- Heap.KernelHeap.Kfree: wild pointers, corrupted headers and client data that imitates a header; the pointer is null, live, or one whose header is not that of a block in use.
- Heap.KernelHeap.Kzalloc: sizes above 2^64 - 8; they wrap, and the zeroing loop would leave the block.
- Preemption.Transparent: relies on stacks being large enough for an interrupt, on running code writing only its own stack and memory outside all stacks, and on section 3.2.1 of the System V AMD64 ABI for the compiled `sched_tick`; a program that returns from its entry function is not modelled, and no entry function has the return address of the stub's call as its address.
- Preemption.StepInvariant: calls of `kmalloc`, `kfree` and `sched_create_task` are single steps, that is, not interrupted by a tick; the code takes no lock and does not turn interrupts off, so this is an assumption on callers.
- Sched.ReadyTaskRuns: counted in delivered ticks, not in time, because ticks can stop arriving (see `Preemption.NeverYields`).
- Kernel.Machine.SetupInitialStack: stack words live in word-addressed memory and heap headers in the pool's bytes; the two views of the pool are not linked, and `zero_mem` works on words.
- Console.Framebuffer.PutChar: a tab whose stop is not inside the line, where the source's loop does not end.
- Console.Framebuffer.SetColor: after a change of the background nothing is said about what the pixels show.
- Console.Framebuffer.constructor: screens smaller than one character, pixel indices above 32 bits, and a pitch smaller than the width.
- Keyboard.LetterCase: the two scancode tables are parameters, not transcribed; the lemma needs the shifted entry of a letter to be its capital.
- Shell.Task.Output: command dispatch and command texts; a command's output is any sequence of clears and plain characters that is empty or ends at the start of a line. `reboot` and `panic` do not return and are not modelled.
- Shell.Task.Poll: the endless loop and `hlt`; one round is modelled, and runs of rounds are runs of `Shell.Run`. Nobody else prints on the console.
- The font is a parameter with an empty space glyph; the console's colours are plain 32-bit numbers.
- Bitmap words are numbers with the bitwise operators defined digit by digit; `& ~0xFFF` and `& ~7` are written as division and multiplication.
- Names of tasks, `sched_current_id`, `pmm_hhdm_offset`, `keyboard_peekchar` and other plain getters, `fb_print_dec` and `fb_print_hex` (a prefix and a newline around the printers).
- Serial output, PIC, PIT, GDT, IDT, exception stubs, the panic screen and Limine requests: hardware effects with no state to relate here; ticks and scancodes are events.
- The virtual file system: an append-only table with linear lookup, which would add only easy members.
- `u64_to_hex` in `kernel/arch/x86_64/idt.cpp`: part of the panic screen.
