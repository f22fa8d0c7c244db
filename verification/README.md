# A model of windows-libc

This project models the hard core of windows-libc, a C library for Windows on top of the NT kernel, and
proves what it promises: buffered streams that behave like files, command lines that split back into the
arguments they were made from, printed numbers that scan back, paths that are coalesced without losing
their device, option lists that are only permuted, descriptor tables and caches that never confuse two files, and a mutex whose
bookkeeping is right under every interleaving.

`dafny verify dfyconfig.toml` checks the whole project. Code that changes state in the library is a class
with methods here, proved against functions or relations on values; the laws are lemmas about those, or
contracts of methods that play whole runs.

| modules | part of the library |
|---|---|
| Files, Descriptors, Streams, StreamRuns | fread, fwrite, fgetc, fputc, ungetc, fseek, fflush, setvbuf |
| StreamLists | the list of open streams |
| CommandLine | argument escaping and command lines for new processes |
| InheritBlocks | descriptors passed on to new processes |
| NtPaths, PathLaws | path coalescing |
| Getopt, OperandOrder, OptionValues | getopt and getopt_long |
| Numerals, Convert, Readers | integer conversions |
| OutputBuffer, Varargs, Specifiers, Printing, Scanning, GroupedScanning, Engine, PrintedText, ScannedText | printf and scanf |
| Utf, WideStrings | UTF-8, UTF-16 and `%ls` |
| FdTables, PathCaches | the descriptor table and the cache of descriptor paths |
| MutexSteps | the mutex |
| Basics | optional values and machine words |

## Where the library departs from its intent

Each of these is proved, with an example where one was needed and with the exact condition under which the
intended law holds.

- A write that overruns a buffer window shortened by an earlier flush leaves the kernel offset ahead of the
  logical one (`Streams.Stream.Fwrite`, `Streams.FlushThenOverrun`).
- A relative seek while reading is taken from the end of the window once it leaves the window, and does not
  clear end-of-file inside it (`Streams.Stream.Fseek`).
- fdopen takes a descriptor that has moved, and the stream then counts from 0 and does not mirror its file
  (`Streams.Stream.constructor`).
- The fast paths of fgetc and fputc ignore the error indicator; fgetc returns a signed char, so byte 0xFF
  reads as end-of-file (`Streams.Stream.Fgetc`); an unbuffered fwrite that fails returns SIZE_MAX / size.
- Empty arguments vanish from the command line, and a quoted program name ending in a backslash gains
  backslashes (`CommandLine.SplitsBack`).
- The separators of a grouped number are estimated when it is padded to a precision, rightly only for at most
  5 or exactly 7 digits (`Printing.SeparatorsCounted`).
- A grouped number that is padded with zeros does not scan back, unless few enough digits stand before its first
  separator (`GroupedScanning.ScanUndoesPrint`, `GroupedScanning.PaddedExample`).
- The smallest 64-bit integer is printed without separators even when grouping is asked for (`Convert.WriteInteger`).
- Binary conversions have scratch space for 32 digits only (`Convert.ScratchFits`).
- The UTF-8 decoder accepts values above 0x10FFFF, and the encoders accept surrogates.
- getopt answers -1 for an unknown long option and a negative number for an option byte above 127, -1 for 0xFF,
  so that a caller's loop ends there (`Getopt.NextEnds`, `Getopt.OptionReadsAsEnd`).
- getopt moves each block of operands behind all others, so their order is a rotation of the original one
  (`OperandOrder.OperandsRotate`, `OperandOrder.OrderKept`).
- The deadlock check of the mutex is wrong both ways under races (`MutexSteps.CheckMisses`,
  `MutexSteps.CheckErrs`, `MutexSteps.AcquireSafely`).
- Sequence numbers repeat after 2^32 insertions, and then the path cache answers for the wrong file
  (`PathCaches.ExactBound`, `PathCaches.OneTooMany`).

## Model

| member | source | states |
|---|---|---|
| Streams.ReadAllowedIsReadRef | src/stdio/fread.c:30-151 | what a buffered read may do, given neither partial reads nor faults, is exactly one outcome: the next min(n, remaining) bytes of the file, end-of-file if and only if fewer than n remain (both directions) |
| Descriptors.Descriptor.Read | src/stdio/fread.c:14-28 | kernel oracle: any non-empty prefix of the next n bytes, nothing exactly at the end of the file or on a fault; every pattern of short reads is covered |
| Descriptors.Descriptor.Write | src/stdio/fwrite.c:32-121 | kernel oracle: all bytes or none, zero fill when the offset is past the end |
| Descriptors.Descriptor.Lseek | src/unistd/lseek.c:14-97 | a seek lands at its target, counted from the start, the offset or the end of the file, and a negative target is refused without moving |
| Streams.Stream.constructor | src/stdio/internal.c:79-98 | a new stream counts from 0 with the buffer not allocated yet; it stands for its file, read from the start, if and only if the descriptor has not moved |
| Streams.Stream.Fflush | src/stdio/fflush.c:14-49 | afterwards the file on disk is the file the stream stands for, and nothing else about it changed; a failed write sets the error indicator and loses nothing |
| Streams.Stream.BeginWriting | src/stdio/fwrite.c:47-83 | leaving read mode and opening a write window does not change the file the stream stands for |
| Streams.Stream.Store | src/stdio/fwrite.c:85-92 | bytes that fit in the window are written as on an unbuffered file |
| Streams.Stream.FillAndWrite | src/stdio/fwrite.c:99-110 | a topped-up buffer is written out, and with a whole window the file gains exactly the pending bytes and the head of the data |
| Streams.Stream.DirectWrites | src/stdio/fwrite.c:112-121 | whole buffers go out in order, at most one buffer of data is left over, so the copied tail always fits |
| Streams.Stream.WriteOut | src/stdio/fwrite.c:94-126 | topping up and direct writes leave in the file exactly the pending bytes and the head of the data, and the offset behind them |
| Streams.Stream.SpillHead | src/stdio/fwrite.c:94-126 | topping up and direct writes together act as one unbuffered write of the data up to the tail |
| Streams.Stream.FillTail | src/stdio/fwrite.c:128-137 | the tail becomes the new window and reads as written |
| Streams.Stream.Spill | src/stdio/fwrite.c:94-138 | a write larger than the window acts as an unbuffered write whenever the window is whole |
| Streams.Stream.PutDirect | src/stdio/fwrite.c:32-45 | unbuffered writes: all of the data, or the error indicator and nothing |
| Streams.Stream.Put | src/stdio/fwrite.c:14-147 | one write in any mode is an unbuffered write of the bytes it accepts, unless the window was shortened by a flush and is overrun |
| Streams.Stream.PutBuffered | src/stdio/fwrite.c:47-138 | so is one write of a buffered stream, stored in the window or spilled |
| Streams.Stream.Fwrite | src/stdio/fwrite.c:14-147 | without faults the stream still mirrors its file if and only if the call does not overrun a window shortened by a flush; then the effect is that of an unbuffered write and the count is the number of whole elements (SIZE_MAX / size after an unbuffered failure) |
| Streams.FlushThenOverrun | src/stdio/fwrite.c:94-138 | for every stream and every pair of writes around a flush that overruns the shortened window: the stream no longer mirrors its file, the kernel offset is ahead of the window by the length of the first write, and with a second write shorter than the buffer the file on disk is already longer than the position |
| Streams.Stream.ReadWrapper | src/stdio/fread.c:14-28 | one kernel read and the indicator it leaves: end-of-file only at the end, error only on a fault |
| Streams.Stream.BeginReading | src/stdio/fread.c:63-84 | leaving write mode flushes and does not change the file the stream stands for |
| Streams.Stream.Serve | src/stdio/fread.c:86-104 | the window serves exactly the bytes of the file at the position |
| Streams.Stream.DirectReads | src/stdio/fread.c:106-115 | whole blocks are read straight into the target, in order, never past it, whatever the pattern of short reads |
| Streams.Stream.Refill | src/stdio/fread.c:122-134 | the buffer is filled with the file at the offset until the need is met, the buffer is full or no more comes |
| Streams.Stream.LastBlock | src/stdio/fread.c:122-146 | the last block is delivered through the buffer and the rest of it stays as a window that mirrors the file |
| Streams.Stream.Deliver | src/stdio/fread.c:136-145 | the head of a filled buffer goes to the target, the whole of it becomes the window |
| Streams.Stream.GetBeyond | src/stdio/fread.c:94-147 | a read beyond the window returns exactly what an unbuffered read may return |
| Streams.Stream.GetDirect | src/stdio/fread.c:48-61 | unbuffered reads may be partial but never wrong, and never go past the target |
| Streams.Stream.Fread | src/stdio/fread.c:30-151 | for every file and every pattern of short reads: the next min(size*count, remaining) bytes, nothing written past the target, end-of-file only with nothing left; on a write-only stream the error indicator |
| Streams.Stream.Fgetc | src/stdio/fgetc.c:13-30 | the next byte as the signed 8-bit number that has it as its low byte, or end-of-file; agrees with the unbuffered file if and only if the fast path is not taken with the error indicator set; on a readable, sound stream without an error it returns EOF if and only if the end was reached or the byte is 255 |
| Streams.EofIsAByte | src/stdio/fgetc.c:13-30 | what any allowed one-character read returns is EOF if and only if it reached the end or delivered the byte 255 |
| Streams.Stream.Fputc | src/stdio/fputc.c:13-30 | one byte written, the character returned; the stream mirrors its file afterwards if and only if the byte does not overrun a shortened window; accepted exactly when writing is allowed and the error indicator is clear or ignored by the fast path |
| Streams.Stream.Ungetc | src/stdio/ungetc.c:13-31 | pushes back exactly when reading with something already read; the stream still mirrors its file if and only if the byte is the one the file has there |
| Streams.Stream.UngetcThenFgetc | src/stdio/ungetc.c:13-31 | a pushed-back character is the next one read, whatever it is, as the signed 8-bit number with the same low byte, and the position is back where it was |
| Streams.Stream.Fseek | src/stdio/fseek.c:15-57 | the seek agrees with the unbuffered file if and only if a relative seek while reading neither stays in the window at end-of-file nor leaves it from a position other than its end |
| Streams.SeekLands | src/stdio/fseek.c:15-57 | where a seek on the unbuffered file lands from each origin, when it is refused, and what it does to the indicator |
| Streams.ItemsFit | src/stdio/fread.c:30-151 | the count returned is the number of whole items: they fit the bytes moved and one more would not |
| Streams.GetcDelivers | src/stdio/fgetc.c:13-30 | a position that has moved has moved over one byte, and that byte is what was returned |
| Streams.Stream.Reposition | src/stdio/fseek.c:34-56 | a kernel seek closes the window at its target and clears end-of-file; a refused seek changes nothing |
| Streams.Stream.Setvbuf | src/stdio/setvbuf.c:16-135 | changing the buffering in the middle of a run keeps the file, the position and the indicator; what was pending is on disk first; no buffer, the buffer given, or one of the size asked for is in use afterwards |
| Streams.Stream.Rebuffer | src/stdio/setvbuf.c:25-114 | the new mode and size in each case, with no effect on the file |
| StreamRuns.Step | src/stdio/fwrite.c:47-138 | every call that meets its exact guard, setvbuf with a caller's own buffer included, is a step the unbuffered file could have made, partial only on an unbuffered stream, and keeps the stream sound |
| StreamRuns.Play | src/stdio/fread.c:63-147 | every run of reads, writes, character calls, seeks, flushes and rebuffering, in any order and of any length up to the first call that does not meet its guard, is explained step by step by the unbuffered file; if block reads are made while buffered, all views, delivered bytes and values are exactly the fold of the reference file over the calls |
| StreamRuns.RunIsFold | src/stdio/fread.c:63-147 | a chain of explained steps whose block reads are buffered is the fold of the reference: every view, every delivered byte, every value |
| StreamRuns.ExplainedMatches | src/stdio/fread.c:30-151 | apart from partial reads a step is explained by the unbuffered file if and only if it is what the reference does |
| StreamRuns.PlayAndFlush | src/stdio/fflush.c:36-46 | after any such run and a flush the file on disk is the file the fold of the reference gives |
| StreamRuns.WriteAll | src/stdio/fwrite.c:79-138 | any sequence of writes of any sizes ended by a flush leaves exactly their concatenation, in order, at the position where they began |
| StreamRuns.WriteChunk | src/stdio/fwrite.c:14-147 | each write of such a sequence keeps the window whole and extends the unbuffered file |
| StreamRuns.PutThenGet | src/stdio/fgetc.c:13-30 | a character written and sought back to is read again, as the signed 8-bit number with the same low byte |
| StreamLists.StreamList.Insert | src/stdio/internal.c:100-116 | the list stays doubly linked and gains the stream at its end, which is its head |
| StreamLists.StreamList.Delete | src/stdio/internal.c:118-146 | in all four cases the list stays doubly linked and loses exactly that stream |
| StreamLists.StreamList.FlushAll | src/stdio/fflush.c:51-73 | the walk flushes every live stream exactly once, newest first; afterwards every stream's file on disk is the file it stands for, except where the write failed, which sets its error indicator and changes nothing else; the status is bad if and only if one failed |
| StreamLists.FlushOne | src/stdio/fflush.c:58-70 | one turn of the walk flushes one stream and touches no other |
| StreamLists.SuppliedApart | src/stdio/internal.c:79-146 | streams that share nothing can all be flushed in the list any run leaves |
| StreamLists.Play | src/stdio/internal.c:100-146 | any run of creations and removals leaves exactly the live streams in the order of their creation, prev and next mutual inverses, the last one the head |
| StreamLists.WithoutIs | src/stdio/internal.c:118-146 | removing a stream from the record of a run takes out that one position and keeps the order |
| CommandLine.SplitsBack | src/spawn/spawn.c:834-940 | splitting the command line by Microsoft's documented rules gives argv back if and only if no argument after the first is empty and the program name has no quote and is not a quoted name ending in a backslash |
| CommandLine.EscapeForm | src/spawn/spawn.c:834-940 | an argument goes as it is if and only if it has no blank, tab or quote; any other goes between quotes |
| CommandLine.SplitsInto | src/spawn/spawn.c:834-940 | what the split gives for every argument vector: the name with its doubled trailing backslashes, and the other arguments without the empty ones |
| CommandLine.RestSplits | src/spawn/spawn.c:400-541 | for every argument list, splitting the joined, escaped arguments gives the non-empty ones back |
| CommandLine.ScanEscaped | src/spawn/spawn.c:400-541 | every non-empty argument, escaped and followed by a blank or the end, is read back whole |
| CommandLine.ScanBody | src/spawn/spawn.c:487-538 | between quotes: doubled backslashes and escaped quotes read back to the argument |
| CommandLine.ScanPlain | src/spawn/spawn.c:456-466 | an argument left alone is read back as it is |
| CommandLine.BodyWithoutQuotes | src/spawn/spawn.c:487-538 | without quotes only the trailing backslashes are doubled |
| CommandLine.ProgramScans | src/spawn/spawn.c:834-940 | how the program-name rules read the escaped name back |
| CommandLine.ProgramLosesQuotes | src/spawn/spawn.c:834-940 | no program name read by those rules contains a quote, so a name with one cannot come back |
| CommandLine.CountSlashes | src/spawn/spawn.c:422-432 | a run of backslashes is passed over whole |
| CommandLine.Measure | src/spawn/spawn.c:410-475 | the first pass counts exactly the length of the quoted form and decides exactly when quotes are needed |
| CommandLine.MeasureSlashes | src/spawn/spawn.c:422-451 | counting a run of backslashes keeps the counts equal to the quoted form so far |
| CommandLine.MeasurePlain | src/spawn/spawn.c:410-454 | so does counting any other character |
| CommandLine.NextPiece | src/spawn/spawn.c:488-530 | the next piece of the quoted form: backslashes doubled before a quote, kept before anything else, and owed once more at the end |
| CommandLine.CopyPiece | src/spawn/spawn.c:488-530 | the second pass copies one piece of the quoted form and stays inside the buffer |
| CommandLine.Convert | src/spawn/spawn.c:400-541 | the second pass writes exactly the escaped argument into exactly the space the first pass measured |
| CommandLine.FillLine | src/spawn/spawn.c:903-920 | the arguments are copied one after the other, each with a blank |
| CommandLine.BuildLine | src/spawn/spawn.c:834-940 | the whole line is the escaped arguments joined by single blanks and a NUL, in a buffer of exactly that size |
| InheritBlocks.PassOn | src/spawn/spawn.c:103-181 | from parent to child, for every table whose highest open descriptor is below 7281: every handle of the parent that the kernel knows is at the same descriptor of the child, with the kind and mode the kernel tells; where it does not know it, 0 to 2 have the console if there is one, and otherwise there is nothing; sequence numbers increase in descriptor order |
| InheritBlocks.FlagBits | src/spawn/spawn.c:140-156 | the flag byte bit by bit: open, pipe, append, device, and no other |
| InheritBlocks.BlockLayout | src/spawn/spawn.c:136-161 | count in the first four bytes, lowest first, then a flag byte for each descriptor, then eight bytes of handle for each, all ones for none |
| InheritBlocks.BlockReadsBack | src/fcntl/internal.c:249-313 | for every table: the count, each flag byte and each handle are read back from the block as they were written |
| InheritBlocks.FromLittleOfLittle | src/spawn/spawn.c:136-161 | a number stored little-endian in n bytes is read back |
| InheritBlocks.HandleInPlace | src/spawn/spawn.c:137-161 | handle i lies at its own eight bytes |
| InheritBlocks.SizeFits | src/spawn/spawn.c:122-128 | the 16-bit size the child is told is the size of the block if and only if there are at most 7281 descriptors |
| InheritBlocks.FindLast | src/spawn/spawn.c:105-117 | the highest descriptor in use, or 0 |
| InheritBlocks.FillBlock | src/spawn/spawn.c:136-161 | the loop over descriptors fills the block with count, flags and handles, each in its place |
| InheritBlocks.HeirOfBlock | src/fcntl/internal.c:249-313 | what the child finds in the block at a descriptor is the handle its parent held there, if the kernel still knows it |
| InheritBlocks.PutOne | src/spawn/spawn.c:139-161 | one turn of that loop keeps what was stored before it |
| InheritBlocks.WriteBlock | src/spawn/spawn.c:103-181 | the block covers the descriptors up to the highest in use, and nothing is written outside it |
| InheritBlocks.SizeFor | src/fcntl/internal.c:256-261 | the child's table has room for every descriptor and less than twice that, or is the smallest table |
| InheritBlocks.InitStd | src/fcntl/internal.c:193-219 | a standard descriptor is the handle passed on if the kernel knows it, else the console if there is one, else nothing; the others are untouched |
| InheritBlocks.Adopt | src/fcntl/internal.c:233-316 | the child's whole table, with or without a block: standard handles at 0 to 2, the block from 3 on, sequence numbers increasing from 1 in descriptor order |
| InheritBlocks.AdoptRest | src/fcntl/internal.c:285-313 | every descriptor from 3 on is what the block and the kernel say, and only open, valid, known handles are taken over |
| NtPaths.ResolveKeepsDevice | src/internal/path.c:886-943 | whatever the path climbs, the device stays the first component and no `.` or `..` is left |
| NtPaths.FoldSettles | src/internal/path.c:886-943 | the left fold over components never pops the device and leaves only plain components |
| NtPaths.ResolveAppend | src/internal/path.c:886-943 | resolving a longer path is resolving its front and pushing the last component |
| NtPaths.ClimbUndoesDescend | src/internal/path.c:910-935 | going into a plain component and up again is the same path |
| NtPaths.CoalesceTwice | src/internal/path.c:886-976 | coalescing a coalesced path changes nothing |
| NtPaths.ResolveIsWhole | src/internal/path.c:886-943 | no component after the device contains a separator |
| NtPaths.CoalescedFits | src/internal/path.c:945-976 | a coalesced path is never longer than its source, but for the separator added to a bare device |
| NtPaths.AbsoluteFits | src/internal/path.c:829-838 | for every absolute path and every device name of at most 26 characters the result and its NUL fit in the space computed |
| NtPaths.RelativeFits | src/internal/path.c:829-838 | so does every path relative to a directory |
| NtPaths.ShareFits | src/internal/path.c:681-696 | so does every path on a network share |
| NtPaths.Coalescer.AddComponent | src/internal/path.c:30-62 | pushes onto a stack that doubles when full, keeping what it holds |
| NtPaths.Coalescer.TakeComponent | src/internal/path.c:898-941 | one component pushed, dropped or popped as the fold says |
| NtPaths.Coalescer.Scan | src/internal/path.c:886-943 | the zero-copy scan leaves on its stack exactly the components of the fold |
| NtPaths.Coalescer.Coalesce | src/internal/path.c:886-976 | the buffer holds exactly the coalesced path and its NUL, within the space given |
| PathLaws.CoalescedIs | src/internal/path.c:886-976 | the whole result, without the stack: exactly the components that are names and that no later climb goes back over, in order; a device with nothing left ends in a separator |
| PathLaws.EveryPath | src/internal/path.c:886-976 | every path is a device and components without separators, so that this covers all paths |
| PathLaws.FoldIsShallow | src/internal/path.c:886-940 | at every moment the stack holds the survivors, one for each level, the deepest last |
| PathLaws.DotInPath | src/internal/path.c:921-924 | a component `.` changes nothing, in front of a separator or at the end of any path |
| PathLaws.DotChangesNothing | src/internal/path.c:921-924 | the same between any components |
| PathLaws.DetourChangesNothing | src/internal/path.c:912-920 | a name and the climb right behind it change nothing, between any components |
| Getopt.NextKeeps | src/getopt/getopt.c:83-391 | every call leaves argv a permutation with the options in order and nothing before optind moved; a call that answers keeps optind <= exchange <= argc with only non-options from exchange on, and increases (optind, index) |
| Getopt.MoveRearranges | src/getopt/getopt.c:138-165 | moving non-options to the end is a permutation that keeps the options in order |
| Getopt.MoveKeepsInv | src/getopt/getopt.c:148-165 | after the move the next option is at optind and the moved arguments are behind exchange |
| Getopt.ShortKeeps | src/getopt/getopt.c:303-391 | a short option keeps the invariant and makes progress |
| Getopt.LongKeeps | src/getopt/getopt.c:167-290 | a long option that is answered keeps the invariant and moves optind on |
| Getopt.NextEnds | src/getopt/getopt.c:83-391 | a call answers -1 if and only if a condition that can be checked before it holds: no option is left, a non-option where the scan stops at the first, or the next option argument is `--`, an unknown long option, a long option declared with the value -1 that has the arguments it needs, a declared short option byte 0xFF that has the argument it needs, or a short one with an empty optstring |
| Getopt.RunEnds | src/getopt/getopt.c:83-391 | for every setup: a loop until -1 ends, at the first state that meets that condition; it has only permuted argv with the options in order, and unless the setup itself ends it, it leaves the scan exhausted, at an unknown long option, or right after `--` or an option that reads as -1 |
| Getopt.ShortIsEnd | src/getopt/getopt.c:303-391 | a short option is answered with -1 if and only if it is a declared byte 0xFF that has the argument it needs |
| Getopt.OptionReadsAsEnd | src/getopt/getopt.c:303-378 | a declared option byte 0xFF is taken and answered with -1, so that a caller stops with the rest unread |
| Getopt.LongEnds | src/getopt/getopt.c:167-290 | a long option is answered with -1 if and only if the table has no entry of its name, or the first entry of its name has the value -1 and the arguments it needs are there |
| Getopt.FirstCall | src/getopt/getopt.c:46-81 | the first call of a new or reset parser starts from a state that satisfies the invariant |
| OptionValues.LongAttached | src/getopt/getopt.c:167-281 | `--name=value` with a declared value: optarg is the text behind the equals sign, the answer is the value of the first entry of that name, or 0 when it is stored, its index is reported, and optind moves by one |
| OptionValues.LongNext | src/getopt/getopt.c:221-281 | `--name value`: optarg is the next argument and optind moves by two |
| OptionValues.LongAlone | src/getopt/getopt.c:208-281 | `--name` with no value to take: no optarg, or the error answer where one is required |
| OptionValues.LongRefused | src/getopt/getopt.c:200-216 | `--name=value` where no value is declared: the error answer, and optarg stays |
| OptionValues.ShortAttached | src/getopt/getopt.c:319-378 | `-oVALUE`: optarg is the rest of the argument and the answer the letter as a signed char |
| OptionValues.ShortNext | src/getopt/getopt.c:319-378 | `-o VALUE`: optarg is the next argument whatever it looks like, and optind moves by two |
| OptionValues.ShortAlone | src/getopt/getopt.c:303-378 | `-o` without a value: no optarg, the letter is answered, and the call goes on behind it |
| OptionValues.ShortMissing | src/getopt/getopt.c:319-372 | `-o` at the end: the error answer where the value is required, the letter where it is optional |
| OptionValues.ShortUnknown | src/getopt/getopt.c:379-391 | an undeclared letter: the error answer, and the letter in optopt |
| OptionValues.Modes | src/getopt/getopt.c:61-81 | what the first character of the option string chooses: the error answer and where the letters begin |
| OptionValues.Operand | src/getopt/getopt.c:121-165 | an operand in front ends the run, is handed over with 1, or is passed by with all operands up to the next option, as the option string and the environment ask |
| OptionValues.StartsOver | src/getopt/getopt.c:46-81 | optind 0 starts over at argument 1, and a first call takes no argument as moved |
| OptionValues.Terminator | src/getopt/getopt.c:121-165 | `--` ends the run right behind it |
| Getopt.Parser.ParseAll | src/getopt/getopt.c:21-396 | a caller's whole loop from a new or reset parser is the run of the setup that the option string and the environment give |
| OperandOrder.RunIsSkipRun | src/getopt/getopt.c:121-165 | moving operands behind everything gives exactly the answers of a scan that passes over them, and what is moved is what that scan passes over, in the same order |
| OperandOrder.RunMerges | src/getopt/getopt.c:121-165 | the arguments up to where the scan ends are the operands passed over, merged with the arguments consumed, each in order |
| OperandOrder.OperandsRotate | src/getopt/getopt.c:121-165 | what a run leaves for the caller is the arguments from where the scan ended and behind them the operands passed over before, a rotation of the original operands |
| OperandOrder.OrderKept | src/getopt/getopt.c:121-165 | the operands keep their order if and only if those before the last option and the arguments behind it are repetitions of one list; with no argument in common that is: if and only if one of the two is empty |
| OperandOrder.CopyExample | src/getopt/getopt.c:121-165 | `cp -r src -v dst` ends with the operands `dst src` |
| OperandOrder.Commuting | src/getopt/getopt.c:121-165 | two argument lists whose order does not matter are repetitions of one |
| Getopt.Parser.Begin | src/getopt/getopt.c:46-81 | reset by optind == 0 and initialisation, once, from the first character of optstring and POSIXLY_CORRECT |
| Getopt.Parser.MoveOne | src/getopt/getopt.c:152-162 | one argument rotated to the end in place, the rest shifted down |
| Getopt.Parser.SkipNonOptions | src/getopt/getopt.c:121-165 | repeated rotation is one block move of the non-options before the next option, or no change when there is none |
| Getopt.Parser.TakeLong | src/getopt/getopt.c:167-290 | takes a long option as the function does that the lemmas are about: exact match, value after `=` or the next argument before exchange |
| Getopt.Parser.TakeShort | src/getopt/getopt.c:293-391 | takes a short option as that function does, inside a cluster or at its end, and answers with the signed char |
| Getopt.Parser.TakeValue | src/getopt/getopt.c:319-372 | the value of a short option: the rest of the cluster, else the next argument before exchange, else missing |
| Getopt.Parser.Call | src/getopt/getopt.c:21-396 | one call on argv in place is one step of the pure state machine; without an optstring nothing changes |
| Getopt.Parser.CallAll | src/getopt/getopt.c:21-396 | a caller's loop, from any later call on, terminates and gives the answers and the state of the pure run |
| Numerals.ValueOfNumeral | src/internal/convert.c:160-179 | the numeral of every number, in base 2, 8, 10 or 16, has that number as its value |
| Numerals.NumeralIsShortest | src/internal/convert.c:160-179 | no digit string of that value is shorter |
| Numerals.NumeralFits | src/internal/convert.c:249-267 | a numeral has at most n digits if and only if the number is below base^n |
| Convert.ScratchFits | src/internal/convert.c:160-267 | hex, octal and decimal numerals of 64-bit numbers fit the 32-byte scratch; a binary one fits if and only if the number is below 2^32 |
| Convert.UnsignedDigits | src/internal/convert.c:160-267 | the digit loop fills the scratch with the numeral backwards, within its 32 bytes |
| Convert.WriteUnsigned | src/internal/convert.c:160-267 | the buffer holds exactly the shortest numeral |
| Convert.GroupedCons | src/internal/convert.c:293-323 | grouping from the right, seen from the left: a separator goes in exactly before every multiple of three digits |
| Convert.DecimalDigits | src/internal/convert.c:293-323 | digits and separators are produced backwards within the scratch |
| Convert.WriteDecimal | src/internal/convert.c:293-323 | the buffer holds the numeral, grouped by threes if asked, at most 26 characters |
| Convert.WriteInteger | src/internal/convert.c:349-375 | every 64-bit integer, INT64_MIN included: sign, digits and separators, at most 27 characters |
| Convert.MinLiteral | src/internal/convert.c:349-375 | the literal used for INT64_MIN is its magnitude |
| Readers.UnsignedReadsBack | src/internal/convert.c:181-291 | hex, octal and binary readers return the number whose numeral they read, after any leading zeros and before any non-digit |
| Readers.DecimalReadsBack | src/internal/convert.c:325-347 | so does the decimal reader, grouped or not |
| Readers.IntegerReadsBack | src/internal/convert.c:377-412 | every 64-bit integer is read back from what is written for it, signs, grouping and INT64_MIN included |
| Readers.SignedReadsBack | src/internal/convert.c:377-412 | sign, leading zeros and digits read back to the signed value |
| Readers.ZerosRun | src/internal/convert.c:60-158 | zeros and a grouped number: the grouping parser reads all of it if there is no separator or at most three digits, counted in eight bits, stand before the first, and stops at the first separator otherwise |
| Readers.GroupedRun | src/internal/convert.c:68-158 | the grouping parser reads every correctly grouped number whole and gives its digits |
| Readers.PlainRun | src/internal/convert.c:68-158 | without separators it reads every run of digits whole |
| Readers.GroupedFromLeft | src/internal/convert.c:293-323 | a grouped number is a head of one to three digits and groups of three |
| Readers.Cursor.TakeUnsigned | src/internal/convert.c:181-291 | for digit strings of any length: the value modulo 2^64, and the cursor just behind the digits |
| Readers.Cursor.NextDigit | src/internal/convert.c:68-158 | one digit, stepping over a separator only where one may stand |
| Readers.Cursor.TakeRun | src/internal/convert.c:325-412 | the digits of a number of any length, modulo 2^64 and on the side of its sign |
| Readers.Cursor.TakeDecimal | src/internal/convert.c:325-347 | the unsigned decimal reader over the buffer |
| Readers.Cursor.TakeInteger | src/internal/convert.c:377-412 | the signed decimal reader over the buffer |
| OutputBuffer.Buffer.Grow | src/internal/buffer.c:12-68 | doubles no further than needed, keeps the contents and zero-fills the rest |
| OutputBuffer.Buffer.WriteByte | include/internal/buffer.h:80-106 | appends one character, growing first if it does not fit |
| OutputBuffer.Buffer.WriteN | include/internal/buffer.h:108-134 | appends a whole string, growing first if it does not fit |
| OutputBuffer.Buffer.Fill | src/stdio/printf.c:446-450 | a padding loop appends exactly what is missing to its limit |
| Varargs.Cache.Get | include/internal/varargs.h:46-117 | an argument by position or the next in sequence is what direct indexing of the list gives, wherever it is stored |
| Varargs.Cache.GetNext | include/internal/varargs.h:48-80 | the next argument in sequence, with the storage grown when it is full |
| Varargs.Cache.GetAt | include/internal/varargs.h:82-117 | an argument by position, with everything before it fetched once and in order |
| Varargs.Cache.FillFixed | include/internal/varargs.h:84-97 | fetching into the fixed storage keeps every argument at its place |
| Varargs.Cache.Regrow | include/internal/varargs.h:99-108 | growing the extra storage keeps what it holds |
| Varargs.Cache.FillExtra | include/internal/varargs.h:110-114 | fetching into the extra storage stays inside it |
| Varargs.Serve | include/internal/varargs.h:46-117 | every interleaving of sequential and positional requests is answered as by direct indexing, each argument fetched once, in order |
| Printing.PaddedLength | src/stdio/printf.c:403-645 | without grouping the text is max(width, prefix + max(precision, digits)) characters long |
| Printing.SeparatorsCounted | src/stdio/printf.c:434-437 | the engine's guess at the separators in a grouped number is right if and only if it has at most 5 digits or exactly 7 |
| Printing.GroupedPrecision | src/stdio/printf.c:403-532 | a grouped number is padded to its precision by the right number of zeros if and only if that guess is right or no zeros are due either way |
| Printing.PrintNumber | src/stdio/printf.c:403-645 | every branch appends blanks, prefix, zeros, digits and blanks as the padding says, and returns exactly the number of characters appended |
| Printing.PrintLeft | src/stdio/printf.c:439-465 | left-justified: digits first, blanks up to the width behind them |
| Printing.PrintZeroPadded | src/stdio/printf.c:467-485 | zero-padded: prefix, then zeros up to the width |
| Printing.PrintRight | src/stdio/printf.c:486-512 | right-justified: blanks up to the width, then prefix, zeros and digits |
| Printing.PrintNarrow | src/stdio/printf.c:514-529 | no padding to the width: prefix, zeros up to the precision, digits |
| Printing.PrintDecimal | src/stdio/printf.c:403-532 | a decimal number with its sign split off before padding |
| Printing.PrintRadix | src/stdio/printf.c:534-645 | a number in another radix with its alternate-form prefix |
| GroupedScanning.ScanUndoesPrint | src/stdio/scanf.c:417-619 | for every argument, size modifier, width, precision and flag setting: scanning the printed text with the same conversion and the same grouping stores the argument again if and only if it was not grouped, has no separator, or at most three digits, counted in eight bits, stand before the first separator (binary below 2^32) |
| GroupedScanning.ZerosValue | src/internal/convert.c:60-158 | the value the grouping parser gets after leading zeros is the number under that condition and a smaller one otherwise |
| GroupedScanning.PaddedExample | src/stdio/printf.c:403-532 | 1234567 printed by `%'012d` has zeros before its first group and does not come back |
| Scanning.PlainUndone | src/stdio/scanf.c:417-619 | without grouping the argument always comes back |
| Scanning.DecimalFieldReadsBack | src/stdio/scanf.c:392-411 | a padded, signed decimal field reads back |
| Scanning.RadixFieldReadsBack | src/stdio/scanf.c:485-619 | a padded hex, octal or binary field reads back, with or without its prefix |
| Scanning.DigitsReadBack | src/stdio/scanf.c:485-619 | a digit string reads back modulo 2^64 also when octal takes its first zero for a prefix |
| Scanning.SkipsBlanks | src/stdio/scanf.c:392-411 | exactly the blanks are skipped |
| Specifiers.RenderParses | src/stdio/printf.c:101-386 | every specification written out, with any text behind it, is parsed back to itself and to its exact length |
| Specifiers.RenderEnds | src/stdio/printf.c:101-386 | what is behind a specification is left untouched |
| Specifiers.FlagsParse | src/stdio/printf.c:134-179 | any set of flags is read back |
| Specifiers.AmountParses | src/stdio/printf.c:181-230 | a width or precision, given as a number, by position or as the next argument, is read back |
| Specifiers.ModifierParses | src/stdio/printf.c:232-281 | a length modifier is read back before any conversion letter |
| Engine.TakeSpec | src/stdio/printf.c:101-386 | the parser over the buffer reads exactly the specification at the cursor, or none, and stops behind it |
| Engine.TakeNumber | src/stdio/printf.c:81-99 | a number of any length, modulo 2^32 |
| Engine.TakeFlags | src/stdio/printf.c:134-179 | the flags at the cursor, in any order and number |
| Engine.TakeArgument | src/stdio/printf.c:113-132 | an argument position if a `$` follows a number, and otherwise the cursor where it was |
| Engine.TakeAmount | src/stdio/printf.c:181-230 | a width or precision |
| Engine.TakeModifier | src/stdio/printf.c:232-281 | the switch on one letter, with a second look after `h` and `l`, consumes exactly the modifier that the round trip of specifications is about |
| Engine.PrintInteger | src/stdio/printf.c:647-839 | an integer conversion appends exactly its text, sized by its modifier, and returns its length |
| Engine.GatherFrom | src/stdio/printf.c:351-367 | width, precision and argument are fetched in that order, each what direct indexing gives |
| Engine.PrintSpec | src/stdio/printf.c:1181-1197 | one conversion appends its text, counts it and moves the sequence of arguments on |
| Engine.PrintDirective | src/stdio/printf.c:1159-1197 | what follows a percent sign: a lone one, `%%`, an unknown conversion printed as it stands, or a conversion |
| Engine.Printf | src/stdio/printf.c:1145-1210 | for every format and every argument list that has what it asks for: the buffer gains exactly the text the format denotes, and the result is exactly its length |
| Engine.OutputOfSpec | src/stdio/printf.c:1145-1210 | a percent sign and any specification print what it makes of its arguments, and the format goes on behind it with the argument after those |
| Engine.IntegerComesBack | src/stdio/printf.c:1145-1210 | from the caller's side: an integer printed through any specification comes back when its output is scanned by the same conversion, if and only if that condition on the zeros before grouped digits holds |
| PrintedText.PrintsInteger | src/stdio/printf.c:101-386 | from format and arguments to text, for every integer specification: blanks, prefix, zeros, digits, blanks; for b, o and x a digit string of base 2, 8 or 16 without leading zeros whose value is the argument modulo the size of its modifier, in the case of the letter; for u the decimal one; for d and i sign and magnitude of the argument taken as signed; separators as grouping asks; padding on the side and of the kind the flags ask for, to the width and precision |
| PrintedText.RadixText | src/stdio/printf.c:733-900 | the text of one conversion with b, B, o, O, x or X |
| PrintedText.UnsignedText | src/stdio/printf.c:697-731 | the text of one conversion with u |
| PrintedText.SignedText | src/stdio/printf.c:654-695 | the text of one conversion with d or i; the smallest 64-bit number goes without separators |
| PrintedText.PaddingIs | src/stdio/printf.c:403-645 | which flag puts blanks or zeros where, and how many |
| PrintedText.ModulusIsSize | src/stdio/printf.c:663-692 | `hh` keeps 8 bits, `h` 16, none and `L` 32, the others 64 |
| PrintedText.StoredIs | src/stdio/scanf.c:417-483 | what a scan stores is the value read, cut to the size of its modifier and taken as signed or not |
| PrintedText.GatheredFrom | src/stdio/printf.c:351-367 | width, precision and argument are taken in this order, each from the next place unless it is numbered |
| PrintedText.FlagLetters | src/stdio/printf.c:130-179 | flags in any order and number: each letter that occurs sets its flag |
| PrintedText.FormatExample | src/stdio/printf.c:101-349 | how `%2$0-8.*lx` is parsed |
| PrintedText.NumberedExample | src/stdio/printf.c:101-349 | how `%+*3$.4hhd` is parsed |
| PrintedText.ConversionLetters | src/stdio/printf.c:283-349 | the letters that end a specification |
| PrintedText.LimitedIs | src/stdio/printf.c:1149 | formats are read up to 65536 characters |
| PrintedText.PlainText | src/stdio/printf.c:1203-1204 | text without percent signs is printed as it is |
| PrintedText.PercentSigns | src/stdio/printf.c:1161-1190 | two percent signs print one, and so does one at the end or one that starts no specification |
| PrintedText.DigitLetters | src/internal/convert.c:160-179 | the digits are 0 to 9 and a to f or A to F, written and read |
| Engine.ConsumeSpaces | src/stdio/scanf.c:392-411 | white space is passed over |
| Engine.PassPrefix | src/stdio/scanf.c:489-583 | the prefix of a radix is passed over, in octal zero and letter one by one |
| Engine.ScanInteger | src/stdio/scanf.c:978-1002 | one integer field within its width, stored in the size of its modifier, with the buffer's size restored |
| ScannedText.WidthHides | src/stdio/scanf.c:983-999 | a field width hides what is behind it, counted from the first character that is no white space |
| ScannedText.PrefixedNumber | src/stdio/scanf.c:485-619 | digits behind `0x`, `0o` or `0b` in either case are the number modulo 2^64 |
| ScannedText.BareNumber | src/stdio/scanf.c:485-619 | digits without a prefix are the number too, unless a lone zero and the letter behind it make one |
| ScannedText.SignedNumber | src/internal/convert.c:377-412 | a sign and digits of any length are the signed number |
| ScannedText.UnsignedNumber | src/internal/convert.c:325-347 | digits, after a plus or not, are the unsigned number modulo 2^64 |
| ScannedText.MinusIsNoNumber | src/internal/convert.c:325-347 | an unsigned scan stops at a minus |
| ScannedText.ShortGroup | src/internal/convert.c:68-158 | a separator with fewer than three digits behind it is not part of the number |
| ScannedText.LongGroup | src/internal/convert.c:68-158 | a fourth digit in a group ends the number in front of it |
| ScannedText.SpacesAre | src/stdio/scanf.c:392-411 | which characters are white space |
| Utf.AcceptsSyntax | src/internal/convert.c:1109-1243 | the decoder accepts exactly the UTF-8 syntax of section 4 of RFC 3629, and besides it only four-byte forms of values above 0x10FFFF |
| Utf.DecodesEncoded8 | src/internal/convert.c:1069-1107 | decoding the encoding of a code point, whatever follows, gives it back if and only if it is a Unicode scalar value |
| Utf.EncodesDecoded8 | src/internal/convert.c:1109-1243 | an accepted sequence is the one encoding of its value if and only if the value is at most 0x10FFFF |
| Utf.AcceptsBeyondUnicode | src/internal/convert.c:1197-1240 | a four-byte sequence for 0x110000 is accepted, which nothing encodes to |
| Utf.DecodesEncoded16 | src/internal/convert.c:1260-1290 | UTF-16: decoding undoes encoding, whatever follows, if and only if the code point is a scalar value |
| Utf.EncodesDecoded16 | src/internal/convert.c:1292-1325 | whatever the UTF-16 decoder accepts is the one encoding of a scalar value |
| Utf.DecodedValue8 | src/internal/convert.c:1069-1107 | the value decoded from one to four bytes, as a sum: the lead byte without its mark and six bits for every byte behind it |
| Utf.DecodedValue16 | src/internal/convert.c:1260-1290 | the value of a unit or of a pair, as a sum |
| WideStrings.TextIsUtf8 | src/stdio/printf.c:1006-1031 | for every string of scalar values, `%ls` of its UTF-16 form without precision emits exactly its UTF-8 form, from which the string can be read back |
| WideStrings.PrintsAllWhenWellFormed | src/stdio/printf.c:1006-1031 | without precision every unit is printed if and only if the string is well-formed UTF-16 |
| WideStrings.PointsStop | src/stdio/printf.c:1006-1031 | on an ill-formed string the conversion prints the longest well-formed prefix and stops before the first bad sequence |
| WideStrings.PointsOfAll16 | src/stdio/printf.c:954-1031 | with a precision it prints the shortest prefix of characters that covers so many units, never half a pair |
| WideStrings.Read8OfAll8 | src/internal/convert.c:1109-1243 | decoding a whole encoded string gives its code points |
| WideStrings.Encode8 | src/internal/convert.c:1069-1107 | the encoder fills its buffer with exactly the bytes of the code point |
| WideStrings.CountUnits | src/stdio/printf.c:954-963 | the units before the terminator, at most the precision |
| WideStrings.PrintUnits | src/stdio/printf.c:1006-1031 | the loop appends the UTF-8 of exactly those code points and counts the bytes |
| WideStrings.PrintWideString | src/stdio/printf.c:927-1064 | padding by units on the side asked for, the text, and the exact number of bytes appended |
| FdTables.Table.Validate | src/fcntl/internal.c:623-630 | true exactly for the descriptors of the map, for any integer |
| FdTables.Table.Info | src/fcntl/internal.c:552-568 | the map's entry, or none for a descriptor that is not open |
| FdTables.Table.SetEntry | src/fcntl/internal.c:326-349 | one descriptor mapped to the new entry with the next sequence number, all others kept |
| FdTables.Table.FindFree | src/fcntl/internal.c:351-364 | the lowest free descriptor, the size of the table when it is full |
| FdTables.Table.Resize | src/fcntl/internal.c:371-390 | growing the table does not change the map |
| FdTables.Table.Register | src/fcntl/internal.c:351-393 | the lowest free descriptor gets the entry, even when the table has to double for it |
| FdTables.Table.Insert | src/fcntl/internal.c:403-429 | any descriptor gets the entry, all others kept, however far the table has to grow |
| FdTables.Table.CloseFd | src/fcntl/internal.c:482-494 | exactly that descriptor leaves the map if the kernel closes the handle |
| FdTables.Table.Close | src/unistd/close.c:13-29 | closing an open descriptor; any other is refused, and AT_FDCWD does nothing |
| FdTables.Table.Unregister | src/fcntl/internal.c:440-451 | the lowest descriptor with the handle leaves the map; without one, and for the invalid handle, nothing changes |
| FdTables.Table.DoDup | src/unistd/dup.c:15-65 | the duplicate is at the lowest free descriptor or at the one asked for, what was there is closed first, and every failure leaves the map as it was |
| FdTables.Table.Dup | src/unistd/dup.c:67-88 | bad descriptor, bad flags, same descriptor, or a duplication |
| FdTables.DuplicatedMeans | src/unistd/dup.c:15-65 | a duplication in words: when it fails, that it changes nothing then, and handle, kind, flags bit by bit and sequence number of the new descriptor, with all others as before |
| FdTables.BothHas | src/unistd/dup.c:44-64 | the flags of both are those of the one and those of the other |
| FdTables.Table.DupFrom | src/fcntl/fcntl.c:15-24 | F_DUPFD: the duplicate is at the lowest free descriptor from the given one on |
| PathCaches.PathOf | src/internal/path.c:254-282 | the cached path if the slot has this descriptor and sequence number, else the kernel's, which is then cached if there is one |
| PathCaches.Cache.Update | src/internal/path.c:203-214 | one of the 128 slots is overwritten |
| PathCaches.SoundAfterInsert | src/fcntl/internal.c:326-349 | a new entry is stamped later than every slot, so none can be taken for it |
| PathCaches.SoundAfterRemove | src/fcntl/internal.c:482-494 | closing a descriptor and its handle leaves the cache right for all others |
| PathCaches.SoundAfterDup | src/unistd/dup.c:44-64 | so does a duplication, also one that closes its target or loses the new handle |
| PathCaches.LookupIsTrue | src/internal/path.c:254-282 | in a sound state a lookup answers with the path of the handle at the descriptor and keeps the state sound |
| PathCaches.SoundAfterNext | src/internal/path.c:189-214 | every step of a process keeps the cache sound up to 2^32 insertions |
| PathCaches.LookupsTrue | src/internal/path.c:189-214 | over every run, with handle numbers reused at will, each lookup made while there are at most 2^32 insertions is answered with the path of the handle at the descriptor then |
| PathCaches.ExactBound | src/internal/path.c:189-214 | the exact bound: in all runs from the start every lookup made with at most n insertions is answered with the path of its handle, if and only if n is at most 2^32 |
| PathCaches.Process.constructor | src/internal/path.c:187 | a new process starts in a sound state, so that a run from it needs no further condition |
| PathCaches.Cache.Check | src/internal/path.c:189-201 | a path exactly when the slot holds this sequence number and descriptor |
| PathCaches.Process.DoLookup | src/internal/path.c:254-282 | a lookup on the table and the cache is the lookup of the state machine |
| PathCaches.Process.DoOpen | src/fcntl/internal.c:351-401 | opening registers the handle at the lowest free descriptor |
| PathCaches.Process.DoClose | src/fcntl/internal.c:482-502 | closing removes the descriptor and its handle, or changes nothing |
| PathCaches.Process.DoDup | src/unistd/dup.c:15-88 | dup, dup2 and dup3 as steps of the state machine, a lost handle included |
| PathCaches.Process.DoDupAbove | src/fcntl/fcntl.c:15-24 | F_DUPFD as a step of the state machine |
| PathCaches.Process.Play | src/internal/path.c:189-214 | every run of open, close, dup, dup2, dup3, F_DUPFD and lookups, of any length, acts on the finite map as it should; up to 2^32 insertions no lookup returns the path of another handle |
| PathCaches.StampsIncrease | src/fcntl/internal.c:326-349 | over such a run later insertions have later sequence numbers |
| PathCaches.GrowsByOne | src/fcntl/internal.c:326-349 | each call makes at most one insertion, and stamps it with the next number |
| PathCaches.OneTooMany | src/internal/path.c:189-214 | a run from the start with 2^32 + 1 insertions at whose end the lookup of descriptor 0 answers with the path of a closed file although the kernel has another for it |
| MutexSteps.EveryRun | src/thread/mutex.c:89-184 | for any number of threads and every interleaving: count = kernel depth + threads that released and have not counted down - threads that acquired and have not counted up; it never underflows; with no call in progress it is the depth, and a free mutex then has no owner |
| MutexSteps.StepKeeps | src/thread/mutex.c:89-184 | every atomic step of every thread keeps the invariant |
| MutexSteps.LockKeeps | src/thread/mutex.c:121-139 | so do the steps of a lock after its check |
| MutexSteps.UnlockKeeps | src/thread/mutex.c:162-184 | so do the steps of an unlock |
| MutexSteps.StartInv | src/thread/mutex.c:52-54 | a new mutex satisfies it |
| MutexSteps.RunKeeps | src/thread/mutex.c:89-184 | so does every state of every run |
| MutexSteps.OrderlyRun | src/thread/mutex.c:94-107 | if no acquisition overlaps an unfinished unlock, every deadlock check refuses a thread if and only if it holds the mutex, and a non-recursive mutex is never acquired twice |
| MutexSteps.AcquireSafely | src/thread/mutex.c:94-137 | the exact condition: after an orderly run, an acquisition of a free non-recursive mutex keeps every later deadlock check right if and only if no unlock is unfinished at that moment |
| MutexSteps.UnsettledBreaks | src/thread/mutex.c:94-181 | from any reachable state an acquisition during an unfinished unlock can be continued, with no further acquisition, to a check that is answered wrongly |
| MutexSteps.StepKeepsOwner | src/thread/mutex.c:89-184 | every step of such a run keeps the owner field right |
| MutexSteps.LastOut | src/thread/mutex.c:174-181 | in such a run counting down reaches zero exactly when the kernel mutex is free |
| MutexSteps.CheckMisses | src/thread/mutex.c:94-107 | a run in which a late clearing of the owner lets a thread acquire a non-recursive mutex twice |
| MutexSteps.CheckErrs | src/thread/mutex.c:94-107 | a run in which a late count-down makes the check refuse a free mutex |
| MutexSteps.LockTakes | src/thread/mutex.c:89-139 | a thread that locks a free mutex it does not own holds and owns it once and has counted it |
| MutexSteps.UnlockFrees | src/thread/mutex.c:162-184 | a thread that holds a mutex once and unlocks it leaves it free and, the last count gone, without an owner |
| MutexSteps.LockRefuses | src/thread/mutex.c:94-107 | a thread that asks again for a non-recursive mutex it owns is refused, and nothing changes |

## Left out

- Streams.Stream.Fread: requires that pending bytes can be flushed, because after a failed flush the size arithmetic of the source underflows.
- Streams.Stream.Setvbuf: a buffer given by the caller must be as large as it says, as the C standard demands, and not empty, since with an empty one the loops of fread and fwrite make no progress.
- Streams.Stream.Rebuffer: the same holds of the buffer it is given.
- Streams.Stream.BeginReading: requires what Fread requires of pending bytes.
- Streams.Stream.Fgetc: requires what Fread requires of pending bytes.
- StreamRuns.Play: the runs are those without write faults; single calls are specified with faults too. Block reads of an unbuffered stream may stop short, so only the step-by-step account covers them.
- StreamLists.StreamList.FlushAll: streams that share a descriptor are excluded.
- CommandLine.BuildLine: the conversion of arguments from UTF-8 to UTF-16 is left out, the model works on characters; the source cuts lengths to 16 bits, so that an argument of 65536 bytes or more is lost or shortened, and the model does not.
- CommandLine.SplitsBack: the program name follows Microsoft's separate rules for it, in which backslashes do not escape.
- InheritBlocks.PassOn: tables with an open descriptor of 7281 or more are excluded, as in WriteBlock.
- InheritBlocks.WriteBlock: tables with an open descriptor of 7281 or more are excluded, because the source cuts the size to 16 bits and then writes past the block.
- InheritBlocks.AdoptRest: as Adopt.
- InheritBlocks.Adopt: a block that is there must be as long as its own count says; the source trusts it.
- NtPaths.Coalescer.Coalesce: counts characters without the 16-bit limit on string lengths; the space needed is a precondition, met for every path by the three lemmas on required sizes.
- Getopt.Parser.Call: messages on standard error and the writes through `flag` and `longindex` pointers are answers here; the environment is a parameter.
- Convert.UnsignedDigits: binary numerals of more than 32 digits are excluded, for which the source writes past its scratch space.
- Convert.WriteUnsigned: binary conversions are limited to numbers below 2^32, beyond which the source writes past its scratch space.
- Readers.Cursor.TakeRun: the signed accumulator of the source overflows beyond 64 bits, here it is unbounded.
- Readers.Cursor.TakeInteger: the signed accumulator of the source overflows beyond 64 bits, here it is unbounded.
- GroupedScanning.ScanUndoesPrint: binary conversions are limited to numbers below 2^32, as in WriteUnsigned.
- Scanning.PlainUndone: binary conversions are limited in the same way.
- Engine.IntegerComesBack: binary conversions are limited in the same way.
- PrintedText.PrintsInteger: binary conversions are limited in the same way.
- Engine.PrintSpec: conversions other than integers are a parameter that gives their text.
- Engine.Printf: conversions other than integers are a parameter that gives their text; `%n` stores nothing; counts are not cut to 32 bits; a format is cut at 65536 characters as in the source; an explicit argument position of 4294967295 is not told apart from none.
- Engine.ScanInteger: a scan past the end of the text reads NUL here.
- Varargs.Cache.Get: requires that the caller passed the argument; reading beyond the list is undefined in C.
- WideStrings.PrintWideString: strings of bytes and of 32-bit characters are left out as simpler cases of the same code.
- FdTables.Table.SetEntry: the standard handles kept in the process parameters are not mirrored.
- FdTables.Table.Register: heap failure is left out, and the standard handles kept in the process parameters are not mirrored.
- FdTables.Table.Insert: as Register.
- FdTables.Table.DoDup: descriptors below -1 are excluded, for which the source writes outside the table.
- FdTables.Table.Dup: descriptors below -1 are excluded, for which the source writes outside the table.
- FdTables.Table.DupFrom: a negative lower bound is excluded, which the source does not check.
- PathCaches.Process.Play: each handle keeps its path while it is open; the stdio hook that replaces a handle without a new sequence number is left out.
- MutexSteps.EveryRun: counters do not wrap, and a thread that ends while it holds the mutex is left out.
- Streams opened for appending, line buffering, pipes and popen are left out.
- Floating-point, pointer and character conversions, scan sets and the rest of scanf's format loop are left out.
- Heap exhaustion is left out everywhere, and so are locks around calls that hold them throughout.
- Condition variables, read-write locks, directory streams, process groups, time, users, terminals and error-number mapping are left out.
