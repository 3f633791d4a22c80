# A verified model of the teaching kernel and its user programs

This project models the state-changing core of a small x86 teaching kernel (text screen, three virtual
terminals with a line editor, process table, read-only file system) and of the user programs that
come with it (a streaming line search, a blinking-picture viewer over a linked list, command line
cutting and joining), and proves what they are for.

Code that updates memory step by step is written as classes and methods over arrays; each such method
is proved against a function on values, and the laws of the system are lemmas about those functions,
over every input or every run. `dafny verify dfyconfig.toml` checks all of it.

| file | models |
|---|---|
| `Bytes.dfy`, `Limits.dfy`, `Streams.dfy` | bytes, C strings, shared sizes, output as the bytes written so far |
| `GrepSpec.dfy`, `Grep.dfy` | the line search over a refilled 1024-byte buffer: lines, pieces and hits of a text, and the program |
| `Screen.dfy` | the 80x25 screen as a window on an unbounded wrapped document |
| `Terminals.dfy`, `Console.dfy` | three terminals and the line editor: the logical view, and video memory, backing pages and keyboard buffer that implement it |
| `BlinkSpec.dfy`, `Blink.dfy` | blinking characters: the list of entries, and linked nodes in a static arena |
| `ProcessTable.dfy`, `Processes.dfy` | pids, parent chains, descriptors: the table, and the kernel's globals and control blocks |
| `Loader.dfy`, `SystemCalls.dfy` | execute from its command on: parts, lookup, magic number, loading; open by name |
| `FileSystem.dfy`, `Directory.dfy` | block-split reads, descriptor positions, directory lookup and listing |
| `Descriptors.dfy` | the read call: its checks and the drivers behind it |
| `Frames.dfy` | two text files turned into blinking characters, and what they show over time |
| `Arguments.dfy` | commands cut into words in place, arguments joined |
| `Format.dfy` | itoa, strrev and printf |
| `Memory.dfy` | memset, memcpy, memmove |

Three ideas carry most of the proofs.

- *Logical screens.* A terminal's screen is video memory and the cursor globals while it is displayed,
  and its backing page with the saved cursor while it is hidden. In that view both copies of the
  writer are the same step and a terminal switch changes nothing.
- *What is still to come.* Loops that stream (search, reads, tokeniser, frames, printf) keep "done so
  far, then what the rest stands for" equal to what the whole input stands for.
- *Chains.* The pids in use are the disjoint union of one parent chain per terminal; execute pushes,
  halt pops, a switch leaves all chains alone.

## Where the code does less than it seems to

The model follows the code. Where that breaks an expected law, the law is proved exactly when it holds;
members named behind a semicolon show an input or a run on which it fails.

- The search cuts lines longer than 1024 bytes, and the byte behind its buffer is read before it is
  written (`GrepSpec.ExactlyWhen`; `GrepSpec.LongLineFails`, `GrepSpec.LeftOverFails`).
- A blink at location 0 leaves its arena slot looking free (`Blink.BlinkList.IoctlAdd`;
  `Blink.BlinkList.AddTwiceAtZero`).
- The conditional move in sync (fish/blink.S:281-282) never moves, so sync always draws the off
  character (`BlinkSpec.SyncedForever`, `BlinkSpec.SyncedByte`).
- A terminal switch does not update the descriptor array, the user page or the kernel stack top
  (terminal.c:226-249), so a halt afterwards can close another process's descriptors
  (`ProcessTable.HaltSparesOthers`; `ProcessTable.SwitchedHaltClosesForeign`), and a call does not give
  back globals that were not the caller's own (`ProcessTable.RestoredWhenCoherent`;
  `ProcessTable.IncoherentCall`).
- `open` can return descriptor 7, which `close` and `read` refuse (`ProcessTable.OpenClose`).
- Name lookup scans 17 of 63 directory entries (`Directory.FoundWhenEarly`;
  `Directory.EighteenthIsLost`), and copies names of any length to 33 bytes of stack
  (`Directory.ReadDentryByName`, `Bytes.StoreStaysInside`; `Directory.LongNameOverflows`).
- Opening a file writes its name over the boot header, the inode count included
  (`Directory.OpensKeepInodes`; `Directory.FishHidesInodes`, `Directory.FrameThenFish`).
- `read_data` adds offset and length in 32 bits and takes negative sizes as unsigned
  (`FileSystem.ReadExactly`; `FileSystem.NegativeSizeReadsBeyond`, `FileSystem.MinusOneFloods`).
- The range check of `read` adds address and size in 32 bits (`Descriptors.RangeExactly`;
  `Descriptors.LargestSizeAccepted`), and for descriptor 0 the driver is handed the position in place of
  the descriptor (scall.c:528-531, `Descriptors.ZeroReadsItself`; `Descriptors.SecondReadMisses`,
  `Descriptors.ZeroReadTwice`).
- `terminal_read` checks its count but does not limit the copy by it (`Console.Console.TerminalRead`,
  `Bytes.StoreStaysInside`; `Console.ReadBeyondCount`).
- An Enter stays in the keyboard buffer while the line before it is changed (`Terminals.EnteredWhen`;
  `Terminals.EnterOutlivesEdit`).
- The key table maps B under caps lock to V, and the semicolon key to a colon (`Terminals.CapsLock`).
- `execute` of the kernel loads a program whole, even past the end of its page (`SystemCalls.Execute`,
  `Bytes.StoreStaysInside`; `SystemCalls.OneByteTooLong`), writes behind its 33-byte part arrays before it
  refuses a part (`Loader.ParseCommand`; `Loader.LongNameOverruns`), and checks a short file together with
  what its buffer held (`Loader.LoadsExactly`; `Loader.EmptyFileLoads`).
- `ece391_execute` takes a command with a space in front for an empty program name
  (`Arguments.CommandIsWords`; `Arguments.SpaceInFront`).
- `ece391_getargs` writes one byte beyond its limit when the arguments fill it exactly
  (`Arguments.GetArgs`; `Arguments.OverrunByOne`).
- `printf` reads on behind a format that ends within a conversion (`Format.StaysInFormat`;
  `Format.LonePercent`).
- `memcpy` onto the upper part of its own source repeats bytes (`Memory.MemcpyExactly`; `Memory.MemcpyRepeats`).

## Model

| member | source | states |
|---|---|---|
| Grep.DoOneFile | syscalls/ece391grep.c:9-66 | For every pattern and every file without NUL bytes: a failing open gives -1 and its message. When a read that is reached fails, the result is -1 and exactly the hits of the bytes read before it without the held ones were printed, then the message. Otherwise every hit of the text, cut as `ExactlyWhen` describes, is printed once as `fname:line` in file order, and the result is -1 exactly for a failing close. How many bytes are held is fixed, except that an unfinished last line may have been searched already when the failing read is the one at the end of the file |
| GrepSpec.OutputReportsHits | syscalls/ece391grep.c:44-49 | For a file name and hits without newlines, the output has exactly one line per hit, in their order: the file name, a colon, the hit; and it ends with a newline when there is a hit |
| Grep.SearchSmall | syscalls/ece391grep.c:9-66 | A concrete run, byte for byte: searching the lines a, b and ca of file f for a prints `f:a` and `f:ca` |
| GrepSpec.HitsCount | syscalls/ece391grep.c:42-51 | A line is a hit exactly when it matches, and as often as it occurs |
| GrepSpec.HitsAreNewlineFree | syscalls/ece391grep.c:30-57 | Hits hold no newline, wherever the lines of the file are cut |
| GrepSpec.ExactlyWhen | syscalls/ece391grep.c:21-60 | What is printed is exactly the list of matching lines, each once and in order, if and only if no matching line is longer than 1024 bytes and no matching line is cut at a newline left over in the uninitialised byte behind the buffer |
| GrepSpec.LongLineFails | syscalls/ece391grep.c:22-57 | A concrete file, one matching line of 1025 bytes, that is not printed as its one line |
| GrepSpec.LeftOverFails | syscalls/ece391grep.c:13-33 | A concrete file with short lines only whose second line is printed in two parts when the byte behind the buffer starts as a newline |
| GrepSpec.LinesSplitText | syscalls/ece391grep.c:30-32 | The reference notion of lines is the real one: no line holds a newline, and terminating each with one gives the text back (with the newline a last line may lack) |
| Grep.ScanFile | syscalls/ece391grep.c:20-60 | The refill loop terminates, wherever the refills fall; it reports failure exactly when the failing read is reached before the file is read to its end, having printed exactly the hits of the bytes read before without the held ones, and otherwise all hits |
| Grep.ScanBuffer | syscalls/ece391grep.c:28-57 | One pass over the buffer accounts for every line in it, keeps an unfinished line at the front without losing or repeating a byte, and says when the byte behind the buffer is still a newline |
| Grep.RefillAndScan | syscalls/ece391grep.c:22-59 | One round of read and pass keeps: the hits printed are those of the bytes read without the ones held, and what follows is cut as if the text began there |
| Grep.RoundDone | syscalls/ece391grep.c:28-57 | A pass that is done with a part of the buffered bytes adds exactly their hits, and what is held begins a piece of the text again |
| GrepSpec.PassCuts | syscalls/ece391grep.c:28-57 | After a pass over a full buffer, any text to come is cut as if it began behind the bytes that are done with |
| GrepSpec.PiecesConcat | syscalls/ece391grep.c:30-57 | A text cut behind a complete line has the pieces of its two parts |
| GrepSpec.CutOfNonMatch | syscalls/ece391grep.c:30-57 | A line that does not contain the pattern stays without hits however it is cut |
| Grep.ConsumeLine | syscalls/ece391grep.c:40-52 | A line is searched, printed on a match, terminated in place, and accounted for |
| Grep.SearchLine | syscalls/ece391grep.c:42-51 | Trying positions one by one finds the pattern if and only if it occurs somewhere in the line; an empty pattern never matches |
| Grep.ShiftDown | syscalls/ece391grep.c:33-38 | The unfinished line ends up at the front of the same array, nothing behind the old end changes |
| Grep.Refill | syscalls/ece391grep.c:22-27 | Held bytes followed by unread bytes are the same before and after a refill; a short read means the end of the file |
| Grep.StrNCmp | syscalls/ece391support.c:35-46 | Zero if and only if the two C strings agree on their first n characters, shorter strings included; otherwise the difference at the first place where they differ |
| Grep.StrCpyDown | syscalls/ece391support.c:14-17 | The overlapping copy towards the front of one array delivers the whole string and its terminator |
| Screen.ScreenIsEndOfLayout | lib.c:173-192 | From a cleaned screen and any character stream, the 2000 cells are the last 25 rows of the unbounded wrapped text, every other cell is blank, and the cursor is at the text's end inside the grid |
| Screen.PutCases | lib.c:173-192 | Each character in numbers: newline and return only move to the next line, any other is drawn in attribute 7 at the cursor, column 79 is followed by the next line, and line 24 by a scroll that brings in a blank line |
| Screen.PutShows | lib.c:173-192 | One character on a screen that shows the end of a document shows the end of the document with that character appended, scrolling included |
| Screen.LayoutExtend | lib.c:174-186 | The wrapped layout of a longer text is the layout of the shorter one, changed at its end only |
| Screen.NewRowShows | lib.c:230-255 | In-place scrolling is dropping the first row of the window |
| Screen.PutsKeepsRest | lib.c:173-192 | No character stream touches the 48 cells of the page below the grid |
| Screen.PutsIsWindow | lib.c:173-255 | After any printable text from any screen, the screen is a window on a document that holds the old cells and the text, moved down by as many rows as scrolled |
| Screen.ErasesBlank | lib.c:293-311 | k erases blank exactly the k cells before the cursor, across row boundaries, stopping at the top left corner and keeping attributes |
| Screen.EchoErase | lib.c:173-311 | k printable characters and k erases bring the cursor back to its place of the document if and only if that place is still on the screen; then those cells are blank and all others as before |
| Console.ScrollRows | lib.c:238-252 | The row-copying loops move every cell up one row, blank the last row, and leave the rest of the page |
| Console.Console.VerticalScrolling | lib.c:230-255 | Scrolling of the displayed screen |
| Console.Console.PutChar | lib.c:173-192 | `putc` on video memory is one logical character step |
| Console.Terminal.VerticalScrolling | lib.c:257-282 | Scrolling of a hidden terminal's backing page |
| Console.Terminal.PutChar | lib.c:199-217 | `putc_term` on the backing page is the same logical step as `putc` on video memory |
| Console.Console.BackspaceHandler | lib.c:293-311 | The erase step, on video memory |
| Console.Console.CleanScreen | lib.c:322-338 | The clean step, on video memory |
| Terminals.ScreensAreIndependent | terminal.c:129-146 | Over any interleaving of key interrupts, writes, reads and terminal switches, each terminal's logical screen is the drawing of exactly the operations addressed to it |
| Terminals.ScreenIsItsText | terminal.c:78-102 | Over any run of writes and switches, a terminal's screen depends on the text written to it and on nothing else |
| Terminals.LinesAreIndependent | keyboard.c:107-167 | Over any interleaving, a terminal's line is the edit of exactly the characters, tabs, backspaces, Ctrl-Ls and reads addressed to it |
| Terminals.LineSinceRead | terminal.c:49-67 | After a read and any further run, the terminal's line is the edit of nothing but what was addressed to it since, and the next read on it returns exactly that line |
| Terminals.ReadReturnsLine | terminal.c:49-67 | A read after any run returns the displayed terminal's line as the run edited it |
| Terminals.EnteredWhen | keyboard.c:282-288 | Over any run, the wait of a read is over if and only if the last thing that happened at the cursor's cell of the keyboard buffer was an Enter |
| Terminals.EnterOutlivesEdit | keyboard.c:147-167 | Enter, Backspace and one more character: the changed line counts as entered without a second Enter |
| Bytes.StoreStaysInside | terminal.c:59-63 | Data put at the start of a room leaves what lies behind it, in any memory, if and only if it is no longer than the room: the law behind the line of a read and its count, the local copy of a looked-up name, and a loaded program and its page |
| Terminals.CapsLock | keyboard.c:21-80 | Caps lock capitalises a letter if and only if the key is not B, and leaves another key alone if and only if it is not the semicolon; with shift it undoes the capital of every letter |
| Terminals.ModifiersFollowKeys | keyboard.c:183-213 | Over any run, shift, Alt and Ctrl are down exactly when their last key event was a press, and caps lock is on exactly when it was pressed an odd number of times |
| Terminals.ShownIsLastChosen | keyboard.c:233-253 | Over any run, the terminal shown is the one chosen last, by a switch to it or by its function key while Alt is down, and the one shown before if none was chosen |
| Terminals.KeyboardLayout | keyboard.c:21-80 | Every key that types something carries the character of the American keyboard, alone and with shift |
| Terminals.LineHolds127 | keyboard.c:155-165 | A line holds exactly the first 127 of the characters typed on it |
| Terminals.StepEffect | keyboard.c:107-253 | One event does to each terminal what its operations say, and nothing to the other terminals |
| Terminals.KeyOk | keyboard.c:107-253 | Every key keeps the invariant: the edit position is at most 127, no newline lies before it, and every newline of the keyboard buffer is mirrored in the displayed terminal's line |
| Terminals.EnterOk | keyboard.c:147-153 | Enter keeps that invariant and makes `check_enter` true |
| Terminals.FirstNewlineEndsLine | terminal.c:59-63 | When the wait is over, the first newline of the terminal buffer is right behind the edited line, so the copy loop stops there |
| Terminals.PutsConcat | terminal.c:90-99 | Writing in pieces is writing the whole |
| Console.Console.constructor | terminal.c:156-179 | The start state satisfies the invariant: cursors at the origin, empty lines, terminal 0 displayed |
| Console.Console.PutOnDisplayed | terminal.c:89-93 | `putc` on the displayed terminal changes that terminal's logical screen by one character and no other |
| Console.Console.PutOnHidden | terminal.c:94-99 | `putc_term` does the same to a hidden terminal |
| Console.Console.TerminalWrite | terminal.c:78-102 | The text appears on the scheduled terminal's logical screen, displayed or hidden, and nothing else changes; the count written is returned, -1 without a buffer |
| Console.Console.SaveTerminal | terminal.c:204-223 | The displayed screen, its cursor and the edit position are saved whole; the keyboard buffer is emptied |
| Console.Console.RestoreTerminal | terminal.c:226-249 | The saved screen, cursor and edit position become the displayed ones |
| Console.Console.TerminalSwitch | terminal.c:129-146 | Switching changes no logical screen and no line; an Enter not yet read is forgotten |
| Console.Console.TerminalRead | terminal.c:49-67 | -1 exactly for a missing buffer or a count outside 0 to 1023, at once and changing nothing; otherwise, once an Enter is there, the edited line goes to the caller's memory whole whatever the count, its length is returned, and the line is emptied. A longer line overwrites the byte behind the count; a line that fits leaves everything behind it |
| Console.ReadBeyondCount | terminal.c:49-67 | A concrete run: after the keys a, b and Enter, a read of one byte overwrites the byte behind it |
| Console.Console.CopyLine | terminal.c:60-63 | The copy loop terminates at the end of the edited line and copies exactly that line |
| Console.Console.CheckEnter | keyboard.c:282-288 | True exactly when the keyboard buffer has a newline at the edit position |
| Console.Console.CleanKeyboardBuffer | keyboard.c:326-334 | The keyboard buffer is zeroed and the edit position reset, the terminal's line buffer untouched |
| Console.Console.CleanBuffer | keyboard.c:263-272 | Both copies of the line are zeroed |
| Console.Console.HandleSpecialKey | keyboard.c:178-253 | Modifier keys, backspace, tab and Alt-F1..F3 are the special keys, and each does its logical step |
| Console.Console.HandleKeyboardIrq | keyboard.c:107-167 | Every scancode is one logical step on the displayed terminal's line and screen, chosen by the key table and the shift, caps lock and Ctrl states |
| Console.Console.Play | keyboard.c:107-288 | Any run of key interrupts, writes, terminal switches and reads on video memory, backing pages and buffers keeps the invariant, is the run of the logical steps, and its reads return the lines of that run |
| Console.Console.Perform | terminal.c:49-102 | One event is one logical step; a read whose Enter is there returns exactly the edited line of the displayed terminal |
| Console.Console.TabKey | keyboard.c:223-232 | Up to four spaces, as many as the line has room for |
| Blink.BlinkList.Play | fish/blink.S:105-378 | Any run of add, remove, sync and tick without location 0 keeps the pointer list acyclic, duplicate-free and equal to the slots in use, and is the run of the list operations |
| Blink.BlinkList.IoctlAdd | fish/blink.S:105-184 | Fails exactly when the location is out of range or every slot is in use, and then changes nothing; otherwise the first free slot becomes the new head. The list stays well formed if and only if the new entry is not at location 0 |
| Blink.BlinkList.AddTwiceAtZero | fish/fish.c:160-170 | Two adds at location 0 take the same slot and link it to itself, so every later walk of the list hangs |
| Blink.BlinkList.IoctlRemove | fish/blink.S:187-237 | Takes exactly the most recently added entry at the location out of the links and frees its slot; 0 if there was one, -1 otherwise |
| Blink.BlinkList.IoctlFind | fish/blink.S:302-349 | Reports the most recently added live entry of the location and the node linked behind it, or -1 when there is none |
| Blink.BlinkList.IoctlSync | fish/blink.S:240-300 | The second entry takes over the first one's lengths, countdown and status, and its off character is drawn; -1 and no change when either is missing |
| Blink.BlinkList.FindHelper | fish/blink.S:351-379 | The walk terminates at the first matching node |
| Blink.BlinkList.RtcTasklet | fish/blink.S:49-99 | The walk terminates and is the tick of every entry and of the video bytes, in list order |
| Blink.BlinkList.Malloc | fish/fish.c:160-170 | The first slot whose location is 0, or none when every slot is in use |
| Blink.BlinkList.FullWhen | fish/fish.c:160-170 | Every slot is in use exactly when 2000 entries are linked |
| Blink.BlinkList.UnlinkedIsValid | fish/blink.S:206-222 | Taking one node out and clearing its slot leaves a well-formed list of the remaining entries in their order |
| Blink.BlinkList.constructor | fish/blink.S:18-19 | The zeroed arena and the null head are a well-formed empty list |
| BlinkSpec.AddPushes | fish/blink.S:159-162 | Adding pushes on its location's stack of entries and on no other; removing right afterwards undoes it |
| BlinkSpec.AddStartsEntry | fish/blink.S:135-170 | An added entry heads the list, on and at the start of its phase with its own characters and lengths, and only its byte is drawn |
| BlinkSpec.RemovePops | fish/blink.S:206-222 | Removing pops its location's stack, so an older entry reappears, and leaves the stacks of all other locations |
| BlinkSpec.FindIsTop | fish/blink.S:351-378 | The first match in the list is the top of the location's stack |
| BlinkSpec.BlinkState | fish/blink.S:64-86 | Status and countdown of an entry n ticks after it was added, for all 16-bit lengths |
| BlinkSpec.TickDraws | fish/blink.S:49-99 | At any byte, however many entries share it, a tick draws what the entry added first among those that change phase there shows, and nothing where none does |
| BlinkSpec.BlinksPeriodically | fish/blink.S:64-86 | An unsynced entry is on exactly when n mod (on + off) < on, where a length of 0 or above 0x8000 lasts one tick |
| BlinkSpec.AddedBlinks | fish/blink.S:49-170 | n ticks after an entry is added where no other one is, its video byte is the on character in the first part of each period and the off character in the rest |
| BlinkSpec.SyncedForever | fish/blink.S:267-285 | After a sync the two entries agree in status and countdown at every later tick; the byte drawn by the sync itself is right if and only if the entry is off or its two characters are equal |
| BlinkSpec.SyncGivesTiming | fish/blink.S:268-285 | A sync gives the second entry the first one's lengths, countdown and status, keeps its place and characters and every other entry, the first one included, and draws the second one's byte only |
| BlinkSpec.SyncedByte | fish/blink.S:49-285 | n ticks after the sync, the byte of an entry alone at its location is right if and only if it was synced to off, its characters are equal, or the countdown it took over has run out |
| ProcessTable.PidsAreChains | scall.c:112-319 | In every state reached from boot by successful or failed executes, halts and terminal switches, the pids in use are exactly the disjoint union of one acyclic parent chain per terminal, each ending at a process started by no one |
| Processes.Kernel.Play | scall.c:112-326 | Any run of executes, halts and switches on the kernel's globals and control blocks keeps the invariant and is the run of the table steps |
| ProcessTable.ExecuteKeeps | scall.c:219-264 | A successful execute puts one new process at the head of the displayed terminal's chain and changes no other chain |
| ProcessTable.ExecuteStarts | scall.c:112-180 | A successful execute runs the lowest free pid on the displayed terminal, started by the caller or, on an unused terminal, by no one, with the globals its own, two terminal descriptors open and six free, and changes no other process or terminal |
| ProcessTable.HaltPops | scall.c:275-319 | Halting a process with a parent takes exactly it off its terminal's chain |
| ProcessTable.RootHaltEmpties | scall.c:286-290 | Halting a terminal's first process empties its chain and leaves room for the new shell |
| ProcessTable.RootHaltRestarts | scall.c:286-290 | Halting a terminal's first process starts a new shell in its place: it runs, alone on its terminal, started by no one, with the globals and fresh descriptors its own, and everything else is as before |
| ProcessTable.HaltLeavesProcess | scall.c:275-319 | After any run from boot, a halt leaves a process running on the displayed terminal |
| ProcessTable.HaltReturns | scall.c:292-319 | Halting a process with a parent makes the parent current with the globals its own, frees the pid, closes descriptors 0 to 6 behind the global array and changes nothing else |
| ProcessTable.HaltKeeps | scall.c:275-319 | Every halt keeps the invariant |
| ProcessTable.SwitchKeeps | terminal.c:129-146 | A switch moves no process between chains, though the saved pid of the displayed terminal may be stale |
| ProcessTable.SwitchShows | terminal.c:129-146 | A switch shows the terminal asked for, every terminal keeps its process, and one without a process gets a shell started by no one if a pid is free |
| ProcessTable.ExecuteFailsWhenFull | scall.c:113-129 | No pid is found exactly when all six are in use |
| ProcessTable.CallReturns | scall.c:112-319 | A successful execute, whatever the new program and its own children do, and its halt: the caller is current again, the process pointer, descriptor array, user page and kernel stack top are its own, the pids in use are as before, and every process that was there is unchanged, descriptors included |
| ProcessTable.ActsKeep | scall.c:112-319 | Any balanced nest of calls and descriptor use leaves the processes below it undisturbed |
| ProcessTable.RestoredWhenCoherent | scall.c:292-319 | A call gives the caller back the descriptor array, user page and stack top it had before if and only if those were the caller's own |
| ProcessTable.IncoherentCall | terminal.c:226-249 | A concrete run: after switching away and back, a call returns with another descriptor array than before |
| ProcessTable.HaltSparesOthers | scall.c:304-312 | halt closes descriptors through the global array: every other live process keeps its own if and only if that array is the halting process's, belongs to no live process, or has nothing open |
| ProcessTable.SwitchedHaltClosesForeign | terminal.c:226-249 | A concrete run: switching terminals away and back makes a halt close the terminal descriptor of a process on another terminal |
| ProcessTable.RegionsAreDisjoint | scall.c:132-136 | Different pids have disjoint control block and kernel stack regions, one next to the other below the end of the kernel and below the disjoint 4 MB user pages |
| ProcessTable.OpenClose | scall.c:439-507 | Opening and closing gives back every other descriptor and frees the slot, which is never 0 or 1; descriptor 7 can be opened and then not closed |
| ProcessTable.RefusedOpen | scall.c:449-468 | A refusing driver leaves every open descriptor as it is and the slot free for the next open |
| Processes.Kernel.constructor | scall.c:29-33 | The boot state: no process, no terminal in use |
| Processes.Kernel.Execute | scall.c:112-180 | The search for a pid, the page entry, the control block and the stack top, step by step, are one execute step; -1 exactly when the program cannot be loaded or no pid is free, and then nothing changes |
| SystemCalls.Execute | scall.c:42-180 | From the command to the jump: the table takes an execute step exactly for a loadable command, and exactly then the whole file of the program is put at its place in the user page and nothing else changes; the byte behind the page is overwritten when the program is longer than the page allows, and nothing behind it otherwise |
| SystemCalls.OneByteTooLong | scall.c:138-140 | A concrete case: a file one byte too long for the page overwrites the byte behind it |
| Loader.Load | scall.c:60-110 | The checks before a process is made accept exactly the loadable commands: both parts fit, the name is found, and the first four bytes, what the buffer held before included where the file is shorter, are the magic number |
| Loader.LoadsExactly | scall.c:60-110 | For a name of at most 32 bytes whose entry counts and whose inode the header knows, a command is accepted if and only if its argument has at most 33 bytes, one of the first 17 entries has the program's name and its file begins with the magic number, a shorter file filled up with what the buffer held; the other entries do not matter |
| Loader.LongPartsRefused | scall.c:70-94 | Whatever the spacing, a command's parts fit exactly when neither its name nor its argument exceeds 33 bytes |
| Loader.EmptyFileLoads | scall.c:101-110 | A concrete case: an empty file is accepted when the buffer holds the magic number already |
| Loader.CommandParts | scall.c:70-94 | A command written with any spacing in front of and between its parts has that program name and argument |
| Loader.ParseCommand | scall.c:70-94 | Both parts are copied with their terminators when neither exceeds 33 bytes; the byte behind either 33-byte array is written exactly for a part of 33 bytes or more that is reached, and with what |
| Loader.LongNameOverruns | scall.c:70-83 | A concrete command, a name of 33 letters, that is parsed and whose terminator goes behind the array |
| Processes.Kernel.InitializePCB | scall.c:219-264 | The new control block, its parent and descriptors, and the globals and terminal entry that now name it |
| Processes.Kernel.InitFds | scall.c:230-250 | Two open terminal descriptors, six closed ones |
| Processes.Kernel.Halt | scall.c:275-326 | The bookkeeping of halt is one halt step; the result is the status, 256 for the exception status |
| Processes.Kernel.CloseAll | scall.c:304-312 | Descriptors 0 to 6 behind the global array end up closed, 7 stays as it is |
| Processes.Kernel.Close | scall.c:480-507 | Succeeds exactly for an open descriptor 2 to 6 and changes nothing but its flags |
| Processes.Kernel.Open | scall.c:445-471 | For any outcome of the lookup and of the driver: returns the lowest free descriptor, now at position 0 of the file, or -1 with every open descriptor unchanged |
| SystemCalls.Open | scall.c:439-471 | Open by name: -1 exactly without a running process, for a name not among the first 17 entries, or with every descriptor in use; otherwise the lowest free descriptor is on that entry's file |
| Processes.Kernel.TerminalSwitch | terminal.c:129-146 | The saving and restoring of pids, and the shell for an unused terminal, are one switch step |
| FileSystem.ReadData | filesystem.c:99-138 | Returns and delivers exactly what `ReadExactly` describes and changes nothing else of the buffer, for every offset and every length, unsigned ones from negative sizes included, unless the place in the block plus the length wraps around 32 bits, where the code would copy nearly 4 GB |
| FileSystem.ReadExactly | filesystem.c:105-138 | A read sets out to copy min(length, what the file has left), and delivers exactly that slice, if and only if offset plus length does not wrap around 32 bits, or the file ends with the block and the place in the block plus length does not wrap either. Otherwise it copies the rest of the block, or, when that wraps too, the whole length |
| FileSystem.NegativeSizeReadsBeyond | filesystem.c:105-172 | A concrete run: size -2 on the second byte of the second block of a 4098-byte file delivers 4095 bytes, and the next read fails because the position is behind the file |
| FileSystem.MinusOneFloods | filesystem.c:105-122 | Size -1 within a file makes the first copy run through nearly all of memory if and only if the position is not at the start of a block |
| FileSystem.CopyBlocks | filesystem.c:114-136 | First, middle and last blocks together copy the slice, for every offset and length unless the place in the block plus the length wraps |
| FileSystem.BlockBytes | filesystem.c:118-134 | A stretch of one data block is the matching stretch of the file |
| FileSystem.FileIsBlocks | filesystem.c:118-134 | A file is its data blocks one after the other, cut to its length |
| FileSystem.ContainedReadsBack | filesystem.h:38-52 | An image that holds a file by its layout, the length in word 1024 * inode, the block numbers behind it, 4096 bytes of the file in each block wherever it is, reads back as that file |
| FileSystem.FileRead | filesystem.c:166-172 | For signed sizes, with the exception of `ReadData`: delivers what read_data does and moves this descriptor's position by the result in 32 bits, no other descriptor |
| FileSystem.PlainRead | filesystem.c:166-172 | For sizes that are not negative, on a descriptor within its file, that is the next bytes of the file, as many as asked for and there are |
| Descriptors.Read | scall.c:518-535 | For every descriptor and address, and every size with the exception of `ReadData`: -1 and no change unless the range check passes and the descriptor is open and readable; otherwise exactly what the driver of the file, directory, terminal or clock delivers for the descriptor it is told, and no other change |
| Descriptors.ReadableDescriptors | scall.c:522-525 | With a buffer in range exactly the open descriptors but 1 and 7 can be read, and without one none |
| Descriptors.ZeroReadsItself | scall.c:518-534 | A read on descriptor 0, handed its position in place of its number, has the result, the bytes and the moved position of descriptor 0 if and only if it is at its start, or there is nothing to read in its file nor in the one behind the descriptor it names |
| Descriptors.ZeroListsItself | scall.c:518-534 | The same for a directory: the right descriptor moves if and only if it is at its start, or both entries are of no known type |
| Descriptors.ListedInOrder | filesystem.c:209-219 | As long as the entries have a known type, k listings move their descriptor by k entries and no other one |
| Descriptors.SecondReadMisses | scall.c:518-534 | A concrete run: the second read of two bytes from a file behind descriptor 0 reads the file of descriptor 2 |
| Descriptors.ZeroReadTwice | scall.c:439-534 | A concrete run from boot: a process opens a file as descriptors 0, 1 and 2, and two reads of two bytes on descriptor 0 deliver the same two bytes |
| Processes.OpenReturnsZero | scall.c:445-471 | With the descriptors of the running process closed by a foreign halt, open returns 0, then 1 and 2 |
| Processes.FreeDescriptorZero | scall.c:275-319 | A concrete run from boot on the kernel's own data that ends in such a state |
| ProcessTable.DescriptorZeroIsFreed | scall.c:275-319 | The same run on the table: a foreign halt closes the descriptors of a process, which is then shown, starts a program, and is current again with descriptor 0 free |
| Descriptors.RangeExactly | scall.c:520-523 | For any address, the check accepts exactly the buffers inside the user page if and only if the address is in front of the page or address plus size, two signed 32-bit numbers, does not wrap around; from the page on, a size that makes it wrap is always accepted |
| Descriptors.NegativeRange | scall.c:520-523 | A negative size is accepted exactly when the address is in the page or less than the size behind it |
| Descriptors.LargestSizeAccepted | scall.c:520-523 | A concrete case: the largest size at the start of the user page is accepted |
| FileSystem.ReadsConcatenate | filesystem.c:166-172 | Over any interleaving of reads on descriptors open on files, beside others of any kind, what one descriptor returned is the stretch of its file from its old to its new position, which never passes the end |
| FileSystem.UnreadStays | filesystem.c:166-172 | A descriptor that no read names, whatever it is open on, stays as it is |
| FileSystem.OpenedIsRead | scall.c:449-468 | A file that was just opened, beside whatever else is open, is read from its start |
| FileSystem.Play | filesystem.c:166-172 | Any sequence of reads on the descriptor array itself, the terminal's descriptors in it included, returns and leaves exactly what that law speaks of |
| FileSystem.EmptyAtEnd | filesystem.c:110 | A positive read returns nothing exactly at the end of the file |
| FileSystem.Cat | syscalls/ece391cat.c:21-28 | Reading until zero terminates with the whole rest of the file |
| Directory.ReadDentryByName | filesystem.c:42-68 | For every name: success exactly when one of the first 17 entries has the name cut to 32 bytes, and then the first such entry is delivered, unless its index is above the entry count: the call then succeeds and delivers nothing. The name is copied whole onto the stack first: the stack behind the copy's 33 bytes stays for names of at most 32 bytes, and gets the rest of longer ones |
| Directory.LongNameOverflows | filesystem.c:45-52 | A concrete lookup of a 33-letter name that writes behind the copy |
| Directory.FoundWhenEarly | filesystem.c:53-67 | With different names, a file of the directory is found if and only if its entry is one of the first 17 |
| Directory.EighteenthIsLost | filesystem.c:53-67 | A concrete directory of 18 names whose last one is not found |
| Directory.OpensKeepInodes | filesystem.c:142-148 | Opening a file copies its name over the boot header. After any run of opens on any header, every one of at most 256 inodes is readable if and only if byte 5, 6 or 7 is then not NUL or byte 4 is at least the last inode, each byte being what the last name that reaches it put there |
| Directory.HeaderBytes | filesystem.c:78-88 | Each byte of the header after any run of opens is that of the last name long enough to reach it, its terminator included, or as it was |
| Directory.FirstOpenKeepsInodes | filesystem.c:142-148 | The first open on a fresh image of fewer than 256 inodes keeps all of them readable if and only if the name does not have four letters, and a fifth and last letter is not below the last inode |
| Directory.FrameThenFish | filesystem.c:142-148 | A concrete run: after `frame0.txt` and then `fish`, all of 64 inodes are readable |
| Directory.FishHidesInodes | filesystem.c:142-148 | A concrete case: after `fish` is opened on an image of 64 inodes, every read of an inode but the first fails |
| Directory.DirectoryRead | filesystem.c:209-219 | For every position and signed size: delivers the name of the entry at the position, behind the 63 entries the inodes read as entries, cut to the request and to 32 bytes, and advances by one entry; 0 and no change for an entry of no known type, -1 without a buffer |
| Directory.DeliveredIsPrefix | filesystem.c:209-219 | A request gets the first bytes of the name, as many as asked for and there are; with a negative size the name and at most one byte behind a full one |
| Directory.EntryInMemory | filesystem.c:209-219 | Behind the 63 entries an entry is the 64 bytes of inode memory there: 32 of the name, four of the type, four of the inode |
| Directory.Ls | syscalls/ece391ls.c:18-26 | The listing loop ends at the first place that reads as an empty entry, in the directory or behind it, with every name before it, one per line |
| Directory.ListingIsNames | syscalls/ece391ls.c:18-26 | The lines of a listing are the names of the entries, one each and in their order, if no name holds a newline |
| Directory.StopsAt | filesystem.c:211-216 | A listing stops exactly at an entry of no known type or without a name |
| Frames.AddFrames | fish/fish.c:78-148 | The loops terminate for any two file contents and any arena, a damaged one included, whose slots, links, head and video memory are then those of exactly the add calls of the reference; on a well-formed list, with no call for location 0, these are steps of the list |
| Blink.BlinkList.AddAnywhere | fish/blink.S:105-184 | One add call on any arena: the first slot that looks free becomes the head with the started entry and its on character is drawn, or nothing changes; on a well-formed list and off location 0 it is a step of the list |
| Blink.PlacedPushes | fish/blink.S:135-170 | What an add call stores, slot by slot and byte by byte, on any arena, and the exact case in which it stores nothing |
| Frames.PictureBlinks | fish/fish.c:78-148 | n ticks after the add calls, every place where one of two fitting texts has a character other than a space shows the first text's character when n mod 30 is below 15 and the second one's otherwise |
| Frames.ShotDisplayed | fish/fish.c:122-130 | An add call to a place of its own is displayed after all of them, alone at its location and with its byte shown |
| Frames.ShotsAreVisibleCells | fish/fish.c:101-130 | The add calls are in row-major order without repetition, one exactly for each place where either file has a character other than a space, carrying both characters with shorter lines and files padded by spaces |
| Frames.RowsSplitText | fish/fish.c:101-130 | The reference notion of rows is the real one: no row holds a newline, and with newlines between them they are the text |
| Frames.EachPlaceOnce | fish/fish.c:122-126 | Every such place occurs exactly once |
| Frames.AddRow | fish/fish.c:99-130 | One round handles one line of both files, makes exactly its add calls behind those made before, and leaves each file at the start of its next line |
| Frames.Advance | fish/fish.c:102-116 | A file whose line is over is not read on; otherwise the next byte, or a newline at the end of the file |
| Arguments.Tokenise | syscalls/ece391emulate.c:76-100 | The words lie in the buffer as terminated strings where the argument vector points, the first one with `./` in front, NULL behind the last; -1 exactly for a command over 1023 bytes; the vector never overflows |
| Arguments.CommandIsWords | syscalls/ece391emulate.c:76-100 | A command without newlines but perhaps a last one is cut into exactly its maximal space-free words if and only if it begins with one |
| Arguments.FieldsSplit | syscalls/ece391emulate.c:88-99 | The reference notion of fields is the real one: no field holds a space, and with single spaces between them they are the text |
| Arguments.WordsAreFields | syscalls/ece391emulate.c:88-99 | The words are the fields that are not empty, each as often as it occurs |
| Arguments.SpaceInFront | syscalls/ece391emulate.c:81-83 | A concrete command, ` ls`, whose program name is empty and whose first argument is the program |
| Arguments.TokensAreWords | syscalls/ece391emulate.c:88-99 | The scan and the split at every space agree |
| Arguments.ParseArguments | syscalls/ece391emulate.c:85-99 | The argument loop terminates: every round moves the scan forward |
| Arguments.TakeWord | syscalls/ece391emulate.c:94-97 | One word is recorded and terminated in place, earlier words stay |
| Arguments.GetArgs | syscalls/ece391emulate.c:131-157 | Succeeds exactly when the single-space join and its terminator fit, and then the buffer begins with the join; the byte behind the limit is written if and only if a prefix of the join that ends behind an argument fills the limit, and nothing further behind ever is |
| Arguments.OverrunByOne | syscalls/ece391emulate.c:131-157 | A concrete call with arguments `ab` and `c` and a limit of 2 that writes a third byte |
| Arguments.TokensOfJoin | syscalls/ece391emulate.c:131-157 | Cutting the join of plain words gives the words back |
| Arguments.JoinIsSpaced | syscalls/ece391emulate.c:131-157 | The join is the arguments with single spaces between them and nothing else |
| Arguments.FieldsOfJoin | syscalls/ece391emulate.c:131-157 | Arguments without spaces, empty ones included, are the fields of their join |
| Arguments.ArgumentsSurvive | syscalls/ece391emulate.c:67-157 | Arguments joined by one program and cut again arrive unchanged |
| Format.Printf | lib.c:47-154 | For every format, seen as the memory it begins, and fitting arguments, exactly the rendered text reaches the screen, and the result is how many bytes of that memory were read |
| Format.PrintsSigned | lib.c:113-126 | `%d` with any flags prints, for every word, a minus sign exactly for negative values and then decimal digits without leading zeros, which read back as the two's complement value |
| Format.PrintsUnsigned | lib.c:81-110 | `%u`, and `%x` without flags, print digits of their radix without leading zeros that read back as the word |
| Format.PrintsEightDigits | lib.c:87-97 | `%#x` prints exactly eight hexadecimal digits that read back as the word |
| Format.PrintsPlain | lib.c:60-142 | `%c` prints the low byte, `%s` the string, `%%` a percent sign, and any unknown conversion nothing |
| Format.PrintsItself | lib.c:147-152 | A format without percent signs prints itself |
| Format.PrintsBehind | lib.c:56-150 | Two formats behind each other print what each one prints, with the arguments split between them, unless the first one is cut off within a conversion |
| Format.PrintMinusFive | lib.c:47-154 | A concrete run: `%d` of the word 0xFFFFFFFB prints `-5` and returns 2 |
| Format.StaysInFormat | lib.c:47-154 | printf stops at the terminator of its format, whatever lies behind it, if and only if the format does not end within a conversion |
| Format.LonePercent | lib.c:56-150 | A concrete case: after a lone percent sign the text behind the format in memory is printed |
| Format.PutHex | lib.c:81-100 | `%x`, and `%#x` padded in front of the converted digits in the same buffer |
| Format.PutSigned | lib.c:113-126 | `%d`, a minus sign and the negated word for negative ones |
| Format.PutUnsigned | lib.c:103-110 | `%u` |
| Format.Puts | lib.c:160-167 | Every character up to the terminator, in order |
| Format.Hex8IsWord | lib.c:87-97 | `%#x` prints exactly 8 digits and they denote the word |
| Format.SignedIsValue | lib.c:113-126 | `%d` prints the two's complement value, the most negative one included |
| Format.Itoa | lib.c:348-377 | The digits of the value, terminated, and no other byte of the buffer changes |
| Format.RoundTrip | lib.c:348-377 | Reading the digits gives the value back, and there is no leading zero |
| Format.DigitsAreDigits | lib.c:348-377 | Every character of a formatted number is a digit of its radix |
| Format.FitsBuffer | lib.c:83-124 | At most 32 digits for every word and radix, so the conversion buffers never overflow |
| Format.StrRev | lib.c:384-397 | The string is reversed in place, the rest of the array untouched |
| Memory.Memset | lib.c:416-450 | The byte, word and tail phases together store the low byte of c in exactly the n bytes, for every length and alignment |
| Memory.Memcpy | lib.c:499-536 | The three phases are the byte-wise, word-wise and byte-wise copies of the reference, for every length, alignment and overlap |
| Memory.MemcpyExactly | lib.c:499-536 | memcpy delivers the source bytes of every memory if and only if the destination does not begin inside the source, or exactly one aligned word is copied |
| Memory.MemcpyRepeats | lib.c:499-536 | A concrete copy of two bytes one place up, which delivers the first one twice |
| Memory.CopiedLaw | lib.c:499-536 | Every copied byte is the source byte as it was, or as the copy itself had overwritten it, for every overlap |
| Memory.Memmove | lib.c:545-563 | The choice of direction makes it a simultaneous copy for every overlap |

## Left out

- Port I/O, interrupt controller, clock and timer set-up, cursor registers, descriptor tables, boot code, and `update_cursor`: no state of the model depends on them.
- The stack switch, IRET and TLB flush inside execute and halt, saved esp and ebp, and the argument string in the control block: only the bookkeeping around them and the loaded program are modelled.
- Interrupt timing: each key interrupt, each write, each switch and the copy phase of a read is one atomic step; the waiting loop of `terminal_read` is the precondition that an Enter is there.
- sched.c: its timer is never started; `scheduled` stands for the terminal it would report.
- paging.c, `vidmap`, `set_handler`, `sigreturn`, the getargs system call and the RTC driver: table filling and straight-line code.
- The shell and the demonstration programs, `fork` and `exec` in the emulator, new_rw, tests.c: user interface, foreign calls, or dead code.
- Kernel messages printed by execute, halt and open are not part of the screen model.
- `memset_word`, `memset_dword`, `strncpy` and `strcpy` of lib.c: easy members.
- Grep.DoOneFile: reads are full except at the end of the file and the file has no NUL bytes, because NUL ends the strings the program shifts and prints; when the read at the end of the file fails, whether an unfinished last line was searched already depends on a byte an earlier round left in the buffer, and both outcomes are allowed; the loop over the directory and its messages are not modelled.
- Console.Console.TerminalRead: the waiting loop is the precondition that an Enter is there, asked for only when the arguments are accepted; the memory reaches as far as the line is written.
- Console.Console.TerminalSwitch: the shell started for an unused terminal is on the process side, Processes.Kernel.TerminalSwitch; the backing page of a terminal never shown is arbitrary memory in the code and zero in the model's constructor.
- Terminals.KeyOk: Capslock_pressed and Bakcspace_pressed are written and never read, and left out.
- Blink.BlinkList.IoctlAdd: the copy from user memory cannot fail here, as in fish.c.
- Processes.Kernel.Execute: takes the checks of the command as one input, `loadable`; SystemCalls.Execute supplies it from the command and the image, and makes the load after the bookkeeping, which does not depend on it.
- SystemCalls.Execute: the null check of the command is left out; the file of the entry that is found is in the image, and the memory from the user page on reaches as far as the program is written.
- Processes.Kernel.Halt: a process runs and its parent is none or a valid pid, as in every state of ProcessTable.PidsAreChains with a process; the shell is taken to be loadable when a terminal's first process halts, and that execute is a tail step, as it does not return. When it cannot be loaded, the code goes on with the control block of pid -1, which lies behind the kernel's memory.
- Processes.Kernel.Close: the scan over the directory for the name passed to the driver's close is left out, since every driver of descriptors 2 to 6 ignores it and returns 0.
- Processes.Kernel.Open: takes the lookup and the driver's answer as inputs; SystemCalls.Open supplies them, every driver's open accepting a file that was found. Types above 3 select no driver of the table and are not told apart.
- FileSystem.ReadData: the image is well formed (inodes present, blocks of a file complete) and the file's length fits 1023 blocks; a read within a file whose place in the block plus length reaches 2 to the 32 is excluded (FileSystem.Floods, for size -1 FileSystem.MinusOneFloods), because its first copy of nearly 4 GB overruns every buffer, so the same goes for FileSystem.FileRead and Descriptors.Read; the null check of the boot block is left out. Reads and the image are values: nothing writes them.
- Descriptors.Read: the descriptor array exists, the clock's wait for its interrupt is left out, and the driver's buffer and image suffice for what it delivers; the descriptor number a driver is handed is one of the array.
- Directory.ReadDentryByName: directory entries are values, so the aliasing of `curdentry` with the boot block header (filesystem.c:30, 147) appears only in Directory.OpensKeepInodes, for files that are found and copied, and the reserved bytes of an entry are left out.
- Directory.Ls: some place at or behind the position, the inodes included, reads as an empty entry; behind the inodes the code would read on in other memory.
- Frames.AddFrames: files can be opened, and a location is taken modulo 65536 as the field stores it.
- Arguments.Tokenise: running the program afterwards and its exit status are left out.
- Format.Printf: an argument fits its conversion, and the memory behind a cut-off format ends somewhere; the screen is the stream of characters given to putc.
