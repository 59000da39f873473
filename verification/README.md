# A verified model of open_kernel

open_kernel is a small x86_64 kernel with its own UEFI bootloader. This project models its seven
stateful or arithmetic components in Dafny and proves what they are for. `dafny verify
dfyconfig.toml` checks everything.

## The components and their main results

**Text console** (`Console.dfy`). `Terminal` is the reference: an unbounded list of text lines with
the cursor at the end of the last one; it has no screen and never scrolls. `Console.Writer` is the
framebuffer writer: byte writes at computed offsets, glyph drawing, deferred wrap, the overlapping
scroll copy. Its invariant says that every visible pixel is the pixel of the *picture* of the text
(its last `height / 16` lines), and every operation is a step of the terminal, on any geometry:
height not a multiple of 16, scan lines longer than the width, slack bytes at the end. What text and
picture mean is tied down independently: lines typed are cut into rows (`LinesTyped`, `ShowText`), a
printable byte sets the pixels of a cell that is wholly on the screen to the font's bits
(`CellShows`), and a pixel is four given bytes of memory (`WritePixel`). The bounds
(`Bounded`) hold whatever the colours are. That the screen shows the text is false of the code once
the background changes: `SetColors` says exactly when it survives, namely if the colour is the same
or every visible pixel is a lit glyph pixel, and `Scroll` says exactly when the row it opens is
blank over a bottom margin of another colour; `RecolorAfterBoot` and `ScrollAfterRecolor` are the
failing inputs. The shell only ever sets Black (src/shell.rs:232, 374-389). The mode must satisfy
`width <= stride` (pixels per scan line, section 12.9 of the UEFI Specification 2.10) and have room
for one glyph; with `height < 16` the source underflows in `scroll`. The framebuffer's address is an
array here, so `init`'s test for a null one has no counterpart. The font is any 4096-byte table
whose space glyph is empty, as src/vga_font.rs:16 has it.

**File system** (`Paths.dfy`, `Tree.dfy`, `FileSystem.dfy`, `Vfs.dfy`). The tree is changed through
string paths by two different parsers, which are proved to agree. Every operation refines a flat map
from component sequences to `Dir` or `Bytes`, with exact success conditions; creating and removing
restores the very same tree; what each operation does to the order of every listing is stated too;
the normaliser is a normaliser, and goes up and down as it should; reads see writes through any
spelling.
The current directory stays canonical, but that it names a directory is false of the code: `cd home`
and `rm .` after a boot lose it (`RemoveHomeFromInside`). Every operation says exactly what it does
to that property (`Here`): a removal loses it if and only if the current directory is at or below
the removed path, a write never changes it, a `mkdir` regains it only at the very path.

**Scheduler** (`Scheduler.dfy`). A step machine over all interleavings of dispatches, commits,
kills, spawns and timer ticks, with bounded waiting, round-robin balance, full rounds, accounting of
`runs`, and what a kill does; `Schedulers.Scheduler` is the table changed in place, and any number
of iterations of its `run` loop is such a run, with exactly the events of those iterations. Of the
kernel's tasks only the logger ends, in its first turn after tick 128 (`LoggerEnds`); every other
one lives on unless it is killed, so every search finds one (`SearchesFind`). Two things can hold a turn back: a body that neither
yields nor finishes is dispatched again at once, and a spawn between two bodies may refill the slot
where the next search starts. The waiting bound counts these delays; `HogStarvesOthers` and
`RefillStarvesOthers` show, one for each kind, that it must. The kernel has neither: its four bodies
all give up the processor, and kills and spawns come only from the shell's body, one per turn
(src/shell.rs:13-28, 397-408). That a kill takes hold is false for the slot whose body is running:
the commit overwrites it. In the kernel this happens exactly when the shell kills its own slot,
which src/shell.rs:409-411 reports as done (`ShellKillsItselfInVain`).

**Boot memory** (`BootMemory.dfy`). Firmware descriptors, the 256-entry region table that drops what
does not fit, the frame stream, the frame allocator, and the heap mapping that shares the allocator
with the page tables. Distinct frames need disjoint descriptors only; that a frame lies inside its
descriptor needs a page-aligned start too, exactly (`FramesInside`). UEFI promises both.

**Kernel loader** (`ElfLoader.dfy`). Both passes over the program headers, against the PT_LOAD rule
of the System V gABI (chapter 5, "Program Header").

**Line editor** (`Input.dfy`). Bounded queues as properties of whole operation sequences, and what is
typed comes back as typed (`TypeAndRead`). The
repository's README advertises arrow-key history; in the code nothing calls `handle_special_key`,
which is modelled all the same.

**Address layout** (`AddressSpace.dfy`). Isolation of user spaces for every representable pid: each
range lies at fixed offsets in one 256 MiB slot. The repository's README speaks of isolated
per-process memory; the code computes these ranges and maps nothing, so isolation is a statement
about the ranges.

Throughout: a section under a spin lock is one atomic step, and integers are unbounded. The
addresses involved are in range where the hardware is sane: framebuffer offsets are below
`byte_len`, descriptors below 2^52, and the loader requires `paddr + memsz + 0xFFF` to fit 64 bits.
`expect` and `panic!` are preconditions where a caller could meet them (`AddTask` needs an empty
slot) and are proved unreachable elsewhere.

## Model

| member | source | states |
|---|---|---|
| Console.Writer.constructor | src/vga_buffer.rs:57-68 | a usable mode gives a cleared screen that shows the empty text, white on black |
| Console.Writer.WritePixel | src/vga_buffer.rs:167-186 | one visible pixel takes the colour: red, green and blue at bytes 0 to 2 of `(y * stride + x) * 4`, or blue, green and red, then 0, and no other byte changes; outside the screen nothing happens |
| Console.Writer.ClearScreen | src/vga_buffer.rs:97-107 | from any state, the screen shows the empty text in the current background |
| Console.Writer.MoveUp | src/vga_buffer.rs:126-138 | the overlapping ascending copy moves every visible pixel that has one below it up 16 rows |
| Console.Writer.Scroll | src/vga_buffer.rs:126-147 | every visible pixel moves up 16 rows, the bottom 16 become background, and the row is the last text row; over a margin of one colour the new last row is blank if and only if that colour is the background or the height is a multiple of 16 |
| Console.Writer.NewLine | src/vga_buffer.rs:117-124 | a line is opened in the text and the screen shows it, scrolled or not |
| Console.Writer.Backspace | src/vga_buffer.rs:109-115 | the last glyph of the current line is rubbed out of text and screen, its cell showing a space; at column 0 nothing |
| Console.Writer.DrawGlyph | src/vga_buffer.rs:149-165 | exactly the 8 by 16 pixels of the cell take the glyph's colours |
| Console.Writer.DrawCell | src/vga_buffer.rs:91 | a glyph at the cursor: the cell is wholly on the screen and each of its pixels is the font's bit, rows from the top, bits from the left |
| Console.Writer.PlaceGlyph | src/vga_buffer.rs:91-92 | the glyph joins the current line in text and screen |
| Console.Writer.WriteByte | src/vga_buffer.rs:78-95 | each byte is one step of the unbounded terminal, the screen goes on showing its last lines, the cursor stays in bounds and the second scroll test never fires; a printable byte sets a cell wholly on the screen to its glyph's bits and, unless it wraps, no other pixel |
| Console.Writer.WriteString | src/vga_buffer.rs:188-196 | a whole string is the run of its bytes, those that cannot be shown replaced by 0xfe |
| Console.KeysAsTheyAre | src/vga_buffer.rs:188-196 | exactly bytes 0x20 to 0x7e, 10 and 8, and the replacement 0xfe itself, are passed on unchanged |
| Console.TextWritten | src/vga_buffer.rs:78-92 | printable ASCII lines fill rows with exactly their characters, every line from a row of its own on |
| Console.ShowText | src/vga_buffer.rs:57-95 | from the boot to the screen: the text written is shown in white rows of `width / 8` glyphs, on any geometry |
| Console.Writer.SetColors | src/vga_buffer.rs:212-218 | colours change; a screen that shows the text goes on showing it if and only if the background is the same or no visible pixel is paper |
| Console.RecolorAfterBoot | src/vga_buffer.rs:57-68 | on any screen, a new background right after the boot leaves a screen that does not show the text |
| Console.ScrollAfterRecolor | src/vga_buffer.rs:126-147 | on such a screen, with a bottom margin, a scroll opens a row that is not blank |
| Framebuffer.ColorsDistinct | src/vga_buffer.rs:24-35 | the eight colours are eight different pixels in either byte order |
| Framebuffer.GridOnScreen | src/vga_buffer.rs:70-76 | the cells of the grid are exactly those wholly on the screen |
| Framebuffer.OffsetFits | src/vga_buffer.rs:61-64 | the size check of `init` covers all four bytes of every visible pixel |
| Framebuffer.OffsetsApart | src/vga_buffer.rs:173-174 | different visible pixels have no byte in common |
| Framebuffer.PictureScrolls | src/vga_buffer.rs:126-147 | the picture after a scroll is the old picture 16 rows up over 16 rows of paper, on any height |
| Framebuffer.OtherPaper | src/vga_buffer.rs:149-165 | on another background exactly the lit glyph pixels look the same |
| Framebuffer.MostSignificantFirst | src/vga_buffer.rs:155-157 | a lit bit is a lit pixel, most significant bit leftmost |
| Framebuffer.SpaceIsBlank | src/vga_font.rs:16 | drawing a space erases a cell |
| Terminal.WindowNewLine | src/vga_buffer.rs:117-124 | a new line moves the window down the text by one line once it is full |
| Terminal.FinishedLinesAreFinal | src/vga_buffer.rs:78-124 | no sequence of writes shortens the text or changes a line above the current one |
| Terminal.LinesFit | src/vga_buffer.rs:83-86 | no line ever exceeds the columns |
| Terminal.TypeInPieces | src/vga_buffer.rs:188-196 | writing two strings is writing their concatenation |
| Terminal.BackspaceUndoes | src/vga_buffer.rs:109-115 | a backspace takes back the glyph before it if and only if that glyph did not wrap; else the opened line stays |
| Terminal.PrintableWraps | src/vga_buffer.rs:83-92 | printable bytes continue the last line, cut into rows of exactly `columns` glyphs |
| Terminal.LinesTyped | src/vga_buffer.rs:78-124 | lines typed with line feeds between them, empty ones too, each start a row and are cut into rows of `columns` glyphs |
| Paths.ParsersAgree | src/vfs.rs:114-121 | whatever the slashes, the walk of a path is the walk of its `rfind` parent and then its `rfind` name, a proper name |
| Paths.TrimComponents | src/vfs.rs:60-65 | leading and trailing slashes do not change the walk |
| Paths.ComponentsAreNames | src/vfs.rs:65 | a walk only ever looks for non-empty, slash-free names |
| Paths.RootPath | src/vfs.rs:61-64 | exactly the paths that trim to nothing name the root |
| Paths.MeaningIsCanonical | src/vfs.rs:204-231 | every resolved path is "/" or slash-joined proper names without "." and ".." |
| Paths.ResolveIdempotent | src/vfs.rs:204-231 | resolving a resolved path changes nothing, from any directory |
| Paths.ResolveAbsolute | src/vfs.rs:206-210 | an absolute path does not depend on the current directory |
| Paths.CanonicalIsFixedPoint | src/vfs.rs:204-231 | the canonical strings are exactly the fixed points of the normaliser |
| Paths.ResolveInSteps | src/vfs.rs:204-247 | going to a and then to b is going to a/b |
| Paths.DotDotGoesUp | src/vfs.rs:212-222 | ".." in a directory is the directory above, in the root the root |
| Paths.NamesGoDown | src/vfs.rs:212-222 | a relative path of proper names leads down by those names |
| Paths.DownAndUp | src/vfs.rs:212-222 | a name followed by ".." changes nothing, whatever comes before |
| Paths.SpellRoundTrip | src/vfs.rs:224-230 | a canonical spelling walks, and resolves, to the names it was made of |
| Paths.SameSpelling | src/vfs.rs:224-230 | two paths resolve to one string if and only if they mean the same names |
| Tree.PrefixClosed | src/vfs.rs:68-86 | everything above an entry is a directory |
| Tree.KeysAreNames | src/vfs.rs:65-75 | entries are reached through non-empty, slash-free names |
| Tree.WriteRefines | src/vfs.rs:113-143 | `write_file` sets one key of the flat map; it succeeds if and only if the parent is a directory and the path is not |
| Tree.MkdirRefines | src/vfs.rs:145-170 | `mkdir` adds one directory key; it succeeds if and only if the parent is a directory and the path is free |
| Tree.RemoveRefines | src/vfs.rs:172-192 | `remove` deletes exactly the keys at or below the path; it succeeds if and only if there is one |
| Tree.OperationsKeepWellFormed | src/vfs.rs:113-192 | sibling names stay distinct, non-empty and slash-free at every depth |
| Tree.CreationUndone | src/vfs.rs:113-192 | removing what was just created restores the same tree, order of children included, at any depth |
| FileSystems.MkdirThenRemove | src/vfs.rs:145-192 | `mkdir` and then `remove` leave the same tree |
| FileSystems.CreateThenRemove | src/vfs.rs:113-192 | a creating `write_file` and then `remove` leave the same tree |
| FileSystems.MkdirThenList | src/vfs.rs:90-170 | a `mkdir` between two listings of one path, exactly what the second shows more |
| Tree.EditLookup | src/vfs.rs:123-141 | a change of one directory's children changes nothing outside it |
| Tree.EditListing | src/vfs.rs:123-141 | nor any listing outside it, order included |
| Tree.MkdirListing | src/vfs.rs:145-170 | the new directory is listed last by its parent and lists nothing; every other listing is the same |
| Tree.WriteListing | src/vfs.rs:113-143 | a new file is listed last by its parent, an overwritten one where it was; every other listing is the same |
| Tree.RemoveListing | src/vfs.rs:172-192 | the entry leaves its parent's listing, the others keep their order; what was below it lists no more; every other listing is the same |
| Place.FindIsLookup | src/vfs.rs:60-88 | the walk of the mutable cursor reaches a node if and only if the flat map has the entry, and it is that entry |
| Place.AssignIsEdit | src/vfs.rs:123-141 | assigning through the cursor is the edit of that directory of the tree |
| FileSystems.ListingMatchesView | src/vfs.rs:90-103 | a listing has each child once and says of each name what the flat map says |
| FileSystems.FileSystem.constructor | src/vfs.rs:31-58 | a new file system holds exactly the default directories and files |
| FileSystems.FileSystem.FindNodeMut | src/vfs.rs:60-88 | the loop of the cursor finds what the recursive walk finds, for every string |
| FileSystems.FileSystem.ListDirectory | src/vfs.rs:90-103 | lists the children in order, exactly when the path is a directory |
| FileSystems.FileSystem.ReadFile | src/vfs.rs:105-111 | returns the content, exactly when the path is a file |
| FileSystems.FileSystem.WriteFile | src/vfs.rs:113-143 | exact success condition; one key set, the tree otherwise the same; failure changes nothing |
| FileSystems.FileSystem.Mkdir | src/vfs.rs:145-170 | exact success condition; one key added; failure changes nothing |
| FileSystems.FileSystem.Remove | src/vfs.rs:172-192 | exact success condition; the subtree's keys deleted; failure changes nothing |
| Vfs.ReadYourWrites | src/vfs.rs:288-298 | after a write every spelling of the path reads the new text and every other path reads as before |
| Vfs.WriteThenRead | src/vfs.rs:288-298 | a write and then a read: the new text through every spelling of the path, and through every other path what was there before |
| Vfs.State.constructor | src/vfs.rs:195-198 | starts at "/", which is a directory, with the default tree |
| Vfs.State.WalkSegments | src/vfs.rs:212-222 | the push and pop loop computes the walk of the segments |
| Vfs.State.ResolvePath | src/vfs.rs:204-231 | the loop computes the normal form, and the file system walks it to the meaning of the path |
| Vfs.State.ChangeDirectory | src/vfs.rs:233-247 | succeeds exactly for directories, and the current directory stays canonical and then names a directory |
| Vfs.State.ListDirectory | src/vfs.rs:249-256 | lists the directory the path means, the current one for the empty path |
| Vfs.State.ReadFileString | src/vfs.rs:288-292 | reads the text of the file the path means; every file written by the shell is valid UTF-8, so none is unreadable |
| Vfs.State.WriteFileString | src/vfs.rs:294-298 | sets the one key the path means, under the exact success condition; never changes whether the current directory is one |
| Vfs.State.CreateDir | src/vfs.rs:300-304 | adds the one directory key the path means, under the exact success condition; a lost current directory comes back exactly when that is the path |
| Vfs.State.RemoveNode | src/vfs.rs:306-310 | deletes what is at or below the path; the current directory is lost if and only if it is at or below the path |
| Vfs.DotMeansHere | src/vfs.rs:206-215 | "." means the current directory |
| Vfs.GoInto | src/vfs.rs:233-247 | from the root, a directory of the root can be entered by its name |
| Vfs.GoUp | src/vfs.rs:233-247 | from a current directory that is one, `cd ..` always succeeds and leads to the directory above, at the root nowhere |
| Vfs.RemoveDot | src/vfs.rs:306-310 | anywhere but at the root, removing "." loses the current directory |
| Vfs.RemoveHomeFromInside | src/vfs.rs:233-310 | after a boot, `cd home` and `rm .` leave a current directory that names nothing |
| SchedulerModel.NextIsNearest | src/scheduler.rs:79-90 | the search finds the Ready slot nearest ahead of where it starts |
| SchedulerModel.StepKeepsInv | src/scheduler.rs:94-121 | only the slot whose body runs can be Running, slots never become empty, and no `expect` fails |
| SchedulerModel.RunKeepsInv | src/scheduler.rs:199-225 | the same over every run |
| SchedulerModel.ClockCountsTicks | src/scheduler.rs:195-197 | over every run the clock advances by the number of ticks |
| SchedulerModel.TaskStays | src/scheduler.rs:94-189 | nothing but a spawn into its slot changes a task's name or function |
| SchedulerModel.WaitStep | src/scheduler.rs:94-121 | a dispatch of another slot lowers the cyclic wait of a Ready slot, and only a delay raises it |
| SchedulerModel.BoundedWaiting | src/scheduler.rs:79-121 | over every interleaving a Ready slot that is not killed waits for at most 7 dispatches of others, plus one per delay |
| SchedulerModel.HogStarvesOthers | src/scheduler.rs:116-120 | a body that never gives up is dispatched any number of times in a row |
| SchedulerModel.RefillStarvesOthers | src/scheduler.rs:109-189 | so is a slot that finishes without yielding and is refilled by a spawn before each search |
| SchedulerModel.NoSecondTurn | src/scheduler.rs:79-121 | while a Ready slot waits without delays, only slots between the search and it are dispatched, each at most once |
| SchedulerModel.Balance | src/scheduler.rs:94-121 | over a cooperative stretch the dispatches of two slots differ by exactly whose turn came first at its two ends |
| SchedulerModel.RunsCountDispatches | src/scheduler.rs:97-98 | `runs` grows by the dispatches of the slot |
| SchedulerModel.RoundRobin | src/scheduler.rs:94-121 | the growth of `runs` of any two live tasks differs by at most one |
| SchedulerModel.FullRound | src/scheduler.rs:79-121 | as many dispatches as there are live tasks give each exactly one |
| SchedulerModel.EveryWindow | src/scheduler.rs:79-121 | so does every window of that many dispatches, and it has no others |
| SchedulerModel.Cyclic | src/scheduler.rs:79-121 | with k live tasks every k-th dispatch is of the same one |
| SchedulerModel.DispatchesAccounted | src/scheduler.rs:94-189 | dispatches equal the growth of the summed `runs` plus the `runs` retired by slot reuse |
| SchedulerModel.FinishedStaysPut | src/scheduler.rs:169-189 | a Finished slot with no body running stays exactly as it is and is not dispatched until a spawn takes it |
| SchedulerModel.KillOfRunningIsLost | src/scheduler.rs:109-178 | a kill aimed at the slot whose body runs leaves no trace after the commit, whatever else is killed, spawned or ticked meanwhile, unless a spawn takes the slot |
| SchedulerModel.SpawnIntoRunning | src/scheduler.rs:109-189 | if a spawn does take it, the old body's commit sets the fresh task's state, Finished included |
| SchedulerModel.KillOfOtherHolds | src/scheduler.rs:169-178 | a kill aimed at any other occupied slot holds until a spawn takes the slot |
| SchedulerModel.KernelKeepsInv | src/scheduler.rs:199-241 | in the kernel a running body's slot holds the task that runs and is Running, unless the shell killed itself |
| SchedulerModel.OnlySelfKillIsLost | src/scheduler.rs:109-178 | in the kernel, after the commit, a killed slot is other than Finished if and only if the shell killed its own slot |
| SchedulerModel.ShellKillsItselfInVain | src/shell.rs:406-411 | after a boot and the three other tasks' turns, `kill 3` leaves the shell Ready |
| SchedulerModel.SelfKillTurn | src/shell.rs:406-411 | a turn in which the shell kills itself leads exactly where its turn leads without |
| SchedulerModel.KernelNeverDelays | src/scheduler.rs:227-241 | no body of the kernel returns without yielding or finishing, and no spawn comes between bodies |
| SchedulerModel.LoggerEnds | src/scheduler.rs:235-241 | from tick 129 on the logger has at most one turn, and its commit leaves it Finished |
| SchedulerModel.OthersLiveOn | src/scheduler.rs:227-241 | every other task, and the logger up to tick 128, is Ready or running for ever unless killed |
| SchedulerModel.SearchesFind | src/scheduler.rs:199-215 | while such a task is not killed every search finds a task to run |
| SchedulerModel.NoStarvation | src/scheduler.rs:199-225 | from any state the kernel reaches, no Ready task waits for more than 7 dispatches of others, and none of those has two turns |
| SchedulerModel.FreeSlot | src/scheduler.rs:182-188 | a spawn takes the first slot that is empty or Finished |
| Schedulers.Scheduler.constructor | src/scheduler.rs:62-67 | an empty table |
| Schedulers.Scheduler.AddTask | src/scheduler.rs:69-77 | the first empty slot takes the new Ready task |
| Schedulers.Scheduler.NextRunnableFrom | src/scheduler.rs:79-90 | the loop finds the next Ready slot of the model |
| Schedulers.Scheduler.PrepareNext | src/scheduler.rs:94-106 | the in-place update is the dispatch step, and the context names slot, function and tick |
| Schedulers.Scheduler.FinishTask | src/scheduler.rs:109-121 | the in-place update is the commit step |
| Schedulers.Scheduler.KillTask | src/scheduler.rs:169-178 | the in-place update is the kill step; true exactly for occupied slots |
| Schedulers.Scheduler.SpawnTask | src/scheduler.rs:180-189 | the in-place update is the spawn step: the first free slot, which is returned, holds a Ready worker of that name with no runs |
| Schedulers.Scheduler.OnTimerTick | src/scheduler.rs:195-197 | a tick step |
| Schedulers.Scheduler.Init | src/scheduler.rs:137-142 | the four boot tasks, Ready and with no runs, are in slots 0 to 3 |
| Schedulers.Scheduler.RunBody | src/scheduler.rs:227-241 | only the logger finishes, when its tick is above 128, and every other body yields; the shell's issues its command, if any, and no other body does |
| Schedulers.Scheduler.RunOnce | src/scheduler.rs:200-223 | one iteration of `run` is a kernel run of exactly these events: ticks, a search, and if it found a task, ticks, its command, ticks and its commit |
| Schedulers.Scheduler.Run | src/scheduler.rs:199-225 | any number of iterations of `run` is a kernel run, made of just their events |
| BootMap.MemoryMap.constructor | bootloader_api/src/lib.rs:52-57 | an empty table of 256 entries |
| BootMap.MemoryMap.AddRegion | bootloader_api/src/lib.rs:59-64 | a region is appended, or dropped when 256 are held |
| BootMap.MemoryMap.Populate | bootloader/src/main.rs:205-217 | the table holds the regions of the first 256 descriptors, in order |
| Frames.FramesOfRegion | src/memory.rs:47-48 | a descriptor of n pages gives n consecutive frames |
| Frames.FrameOrigin | src/memory.rs:43-49 | every frame is a page of a conventional descriptor |
| Frames.FrameAt | src/memory.rs:43-49 | page k of a conventional descriptor has its place in the stream right behind all conventional pages of the descriptors before it |
| Frames.FrameCount | src/memory.rs:43-49 | there are exactly as many frames as kept conventional pages |
| Frames.FramesDistinct | src/memory.rs:43-49 | disjoint descriptors, aligned or not, give pairwise distinct frames |
| Frames.FramesInside | src/memory.rs:47-48 | all frames of a descriptor lie inside it if and only if it starts on a page boundary |
| Frames.FrameOwner | bootloader/src/main.rs:205-217 | of all descriptors, kept or dropped, a frame touches only the conventional one that holds it |
| FrameAllocation.BootInfoFrameAllocator.AllocateFrame | src/memory.rs:53-57 | each call returns the next usable frame, or nothing, and moves on |
| FrameAllocation.AllocationTrace | src/memory.rs:53-57 | in the frame stream as many positions hold a frame as conventional pages were kept, they come first, and they differ |
| FrameAllocation.Drain | src/memory.rs:53-57 | n calls in a row return the next n positions of the stream |
| FrameAllocation.AllocateFromFirmware | bootloader/src/main.rs:205-217 | from descriptors to n allocations: exactly the conventional pages of the kept descriptors, each once and in the descriptors' order, then nothing for ever |
| KernelHeap.Mapper.MapTo | src/allocator.rs:33 | mapping a page takes its table frames in order from the same allocator; failures map nothing, with the exact condition of success |
| KernelHeap.MapHeapPage | src/allocator.rs:29-33 | one iteration draws the page's frame and then the table frames; it succeeds if and only if the page is free, no huge page is met and the frames suffice |
| KernelHeap.InitHeap | src/allocator.rs:19-39 | succeeds if and only if no heap page is mapped, no huge page is met, and the frames left cover the 64 pages and their tables; success shares out the drawn frames, each once, page k taking the frame behind those of the pages before it and of their tables; failure maps a prefix of the pages |
| KernelHeap.TraceProgress | src/allocator.rs:28-34 | the loop's conservation of frames, page by page |
| KernelHeap.SharedOut | src/allocator.rs:28-34 | frames shared out of distinct ones are distinct and apart from all others |
| KernelHeap.HeapIsSound | src/allocator.rs:19-39 | the heap pages, and no others, are new; their frames are distinct, no page tables, and never handed out elsewhere |
| KernelHeap.HeapPages | src/allocator.rs:10-26 | the heap is 64 pages, exactly those that cover its addresses |
| KernelHeap.BootHeap | src/main.rs:103-108 | from descriptors to heap, with the exact condition of success: the heap pages, and no others, are new, on distinct usable frames that are no page tables and are not returned again; old mappings stay |
| ElfLoader.LoadRange | bootloader/src/main.rs:84-98 | the first pass finds the smallest start and largest end of the load segments |
| ElfLoader.EmptyRange | bootloader/src/main.rs:100-103 | the loader gives up exactly when there is nothing to load |
| ElfLoader.CopyFromSlice | bootloader/src/main.rs:145-149 | the copy changes exactly its destination |
| ElfLoader.CopySegments | bootloader/src/main.rs:128-151 | the second pass builds the described image, and stops exactly when a segment's bytes are not in the file |
| ElfLoader.Load | bootloader/src/main.rs:84-151 | page-aligned memory over the load range, with less than a page to spare at either end, holds the described image, with the exact condition of each failure |
| ElfLoader.DisjointMeansNoCommonAddress | bootloader/src/main.rs:128-151 | segments count as disjoint exactly when no address belongs to both, so an empty one may lie anywhere |
| ElfLoader.SegmentLoaded | bootloader/src/main.rs:128-151 | a segment of a disjoint set holds its file bytes and then zeros |
| ElfLoader.SegmentsInRange | bootloader/src/main.rs:105-126 | every segment lies in the allocated pages, and gaps are zero |
| ElfLoader.OrderIrrelevant | bootloader/src/main.rs:84-151 | the order of disjoint headers changes neither the range nor the image |
| ElfLoader.RangeUnique | bootloader/src/main.rs:84-108 | the headers determine the range |
| Input.InputBuffer.constructor | src/input.rs:37-44 | starts empty |
| Input.InputBuffer.PushChar | src/input.rs:46-50 | the step of the editor model |
| Input.InputBuffer.Backspace | src/input.rs:52-54 | the step of the editor model; true exactly when a character went |
| Input.InputBuffer.HandleSpecialKey | src/input.rs:56-71 | the recall loop copies the latest history entry; Escape clears; other keys do nothing |
| Input.InputBuffer.CommitLine | src/input.rs:83-100 | the draining loop commits the whole line to both bounded queues |
| Input.InputBuffer.PopLine | src/input.rs:102-104 | the oldest pending line, if any |
| Input.Perform | src/input.rs:46-104 | any sequence of operations on a buffer does, and returns, what the model's run says |
| Input.TypeAndRead | src/input.rs:46-104 | lines typed into a new buffer come back as typed, in order, cut to 128 characters: the last 8 of them |
| InputModel.PendingIsSuffix | src/input.rs:96-104 | the pending lines are always the latest commits, at most 8 |
| InputModel.TypingAppends | src/input.rs:46-50 | characters go to the end of the line, in order, until it holds 128 |
| InputModel.BackspaceTakesBack | src/input.rs:46-54 | a backspace takes back the character before it if and only if that was taken |
| InputModel.UpRecallsLastCommit | src/input.rs:56-65 | the up arrow replaces the line by the latest non-empty commit, if there is one |
| InputModel.LinesAreCommitted | src/input.rs:83-100 | every line typed is committed as typed, and the next one starts empty |
| InputModel.PopsReturn | src/input.rs:102-104 | n pops return the first n pending lines |
| InputModel.PoppedInOrder | src/input.rs:83-104 | popped lines come from strictly increasing commits |
| InputModel.EveryCommitAccounted | src/input.rs:83-104 | every commit is popped, lost or pending, exactly one of these, and lost only behind 8 later commits |
| InputModel.HistoryIsLastCommits | src/input.rs:89-94 | the history is the last 16 non-empty commits |
| InputModel.LinesBounded | src/input.rs:46-71 | no line exceeds 128 characters, recalled ones included |
| AddressSpace.UserLayout | src/process_memory.rs:32-43 | a space's code and heap are in its own 256 MiB slot, its stack at the top of the slot seven above, its top-level table in frame pid + 2 |
| AddressSpace.ApartFromUser | src/process_memory.rs:32-43 | a range in one slot that shares no offset with them meets none of the three |
| AddressSpace.UsersIsolated | src/process_memory.rs:32-43 | distinct processes share no address and no top-level page table |
| AddressSpace.UserAvoidsKernel | src/process_memory.rs:20-43 | a process touches nothing of the kernel's, and its own ranges are apart |

## Left out

- Screens with two backgrounds: when the background has changed and shows, what each pixel is until the next clear.
- Vfs.State.ListDirectory: returns the listing; printing it is left out.
- Schedulers.Scheduler.Run: stands for the endless loop by any finite number of iterations, and halting until the next interrupt by any number of ticks.
- KernelHeap.Mapper.MapTo: a page-table library call, modelled by the frames it draws, the pages it maps and its three errors.
- References into the file tree: the source owns its tree, so a node is a value and a mutable reference is the list of child indices that leads to it; assigning through it rebuilds the nodes above.
- Colour values, glyph shapes and default file contents are tables the model repeats or leaves abstract.
- Hardware and firmware: port I/O, interrupt controller, descriptor tables, control registers, UEFI calls, volatile access. The page allocation of the loader is taken to succeed at its address; otherwise the boot stops.
- Decoding of ELF headers, the page-table and heap libraries: foreign code.
- src/shell.rs: command parsing and output; only that its task issues at most one scheduler command per turn, and the input sequences named above.
- src/net.rs, src/driver.rs, src/rtc.rs and the key maps of src/interrupts.rs: canned output, counters and finite tables.
- The modifier flags of src/input.rs: four independent booleans.
- Wrap-around of `runs`, the tick counter and the allocator's `next`: 64-bit counters that do not reach their limit.
