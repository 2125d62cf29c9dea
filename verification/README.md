# Verified models of four operating-systems projects

This project models, in Dafny, the state machines at the core of four C programs, and proves what each of them keeps:

- the **block file system** of `file-systems-noodlez102/fs.c`: inodes with direct block maps, a bit-packed block bitmap,
  a flat directory and descriptors with offsets, in a session that starts from `make_fs` and `mount_fs`;
- the **copy-on-write thread storage** of `copy-on-write-noodlez102/tls.c`: storages made of reference-counted pages that
  clones share and writes split;
- the **user-level threads** of `ulpt-noodlez102/threads.c`: the round-robin scheduler, exit and join, mutexes with
  linked wait queues, and the spinning barrier;
- the **shell pipeline parser** of `parser-for-shell-noodlez102/myshell_parser.c`: a peeking lexer and recursive-descent
  routines that advance one cursor and build a linked list of commands.

Each program appears twice. A class with the program's own tables, pointers and loops does what the C code does, step by
step; its methods are proved against a small functional model (`FsModel`, `TlsModel`, `ThreadModel`, `ParserGrammar`).
The lemmas then say what the model, and so the class, keeps over every run.

## How the files fit together

| part | model and laws | running form |
|---|---|---|
| file system | `FsModel`, `FsLaws`, `FsCalls`, `FsSessions` | `FsBitmap`, `FsState` (invariant and abstraction), `FsSteps`, `FsBlocks`, `FileSystem` |
| thread storage | `TlsModel`, `TlsCalls` | `TlsRefs` (counting), `TlsPages` (page steps), `ThreadStorage` |
| threads | `RoundRobin`, `ThreadModel`, `ThreadLaws`, `ThreadCalls`, `ThreadRuns`, `Barrier` | `WaitQueue`, `UserThreads`, `BarrierCalls` |
| parser | `ParserTokens`, `ParserGrammar`, `ParserRoundTrip`, `ParserLines` | `ParserCursor`, `ParserShell` |

`FsCalls`, `TlsCalls` and `ThreadCalls` say call by call what is answered and what changes, in terms of the tables that
callers see and without the functions of the models; `ParserLines` does the same for the characters of a line.
`Bytes` and `Wrappers` are shared. `dafny verify dfyconfig.toml` checks everything.

**File system.** The abstract file keeps its name, its size, and every byte ever stored in its blocks; a truncation lowers
the size but keeps the bytes, as `fs_truncate` does. `Session` holds the five tables and the disk; its methods equal
`FsModel.Step` on the abstract state. `FsLaws` states the promises of `fs_read` and `fs_write` exactly: the slice and splice
specifications hold if and only if the descriptor is not past the size (or, for a write, if only zeros lie in the gap).
`FsSessions` says when that is: a descriptor gets past the size exactly when another one truncates the file below it. A
session without such a truncation is a session of plain POSIX files, read by read and write by write; a session with one is
exhibited, and there both specifications fail. `MAX_FILESIZE` and the table sizes are those of `fs.c`, the block size and
count those of `disk.h`.

**Thread storage.** `Page.Load`, `Page.Store` and `Page.LoadAll` demand that the page is accessible, so every byte access
and page copy is proved to touch an unprotected page; `Registry.Valid` says that between calls every page is protected.
The bounds check adds two unsigned 32-bit numbers, so it can wrap; the model wraps too, and `BoundsCheckExact` says
exactly when the check is right. `tls_clone` with a full registry answers 0 and leaks references; the model follows the
code, and the counts are exact if and only if that has not happened (`CountsAreExact`).

**Threads.** A step is one library call of the current thread or a preemption, up to the point where another thread may go
on; a call that was switched away ends in a later step (`Return`) with the answer the code gives it. The number of thread
slots is any positive number (128 in the source).

A call of `pthread_mutex_lock` that has to wait answers -1 once its thread goes on, although it was woken for the mutex
(`WaitAnswersMinusOne`). So who is inside a mutex can be read in two ways, and `ThreadLaws` states both. If a woken waiter
counts as inside and callers ignore the -1 (`Handed`), the flag goes wrong exactly at an unlock that finds one waiter,
which leaves the mutex unlocked with one thread inside, and is right again after the next unlock (`LooseExactly`).
Exclusion breaks exactly when another thread locks the mutex in between (`SingleOverRuns`); `TwoInside` is a run in which
one does. If only an answer of 0 lets a thread in
(`Answered`), there is never more than one inside, but an unlock that finds more than one waiter leaves the mutex locked
with nobody inside, for ever (`LockedOut`); `EverybodyOut` is a run that gets there.

**Parser.** `ParserGrammar` has the parser as functions on tokens, and the grammar it accepts; `ParserRoundTrip` has a
canonical printer. A line is a sequence of characters other than the terminator. `ParserLines` says which characters
separate and which have a meaning, and that a line as it is typed, newline included, is parsed to what was meant.

## Model

| member | source | states |
|---|---|---|
| ParserTokens.LexOfLayout | parser-for-shell-noodlez102/myshell_parser.c:51-75 | Tokens written with any legal whitespace around them are read back as the same tokens. |
| ParserTokens.LayoutOfLex | parser-for-shell-noodlez102/myshell_parser.c:51-75 | Lexing loses nothing: skipped whitespace and token texts rebuild the line, adjacent words have whitespace between them, so words are maximal. |
| ParserShell.LineParser.NextToken | parser-for-shell-noodlez102/myshell_parser.c:51-75 | Peeking skips exactly the whitespace before the next token and does not change which tokens remain, so peeking again gives the same token. |
| ParserShell.LineParser.Advance | parser-for-shell-noodlez102/myshell_parser.c:269-327 | Consuming a token removes it from the remaining tokens and moves the cursor forward, which bounds every parse loop. |
| ParserShell.LineParser.ParseArgs | parser-for-shell-noodlez102/myshell_parser.c:211-236 | The array holds the maximal run of words, ended by a null entry inside its bounds; -1 exactly on a word over 32 characters. |
| ParserShell.LineParser.ParseRedirectOut | parser-for-shell-noodlez102/myshell_parser.c:119-148 | Reads no or one output redirect and fails on a missing or overlong word. |
| ParserShell.LineParser.ParseRedirectIn | parser-for-shell-noodlez102/myshell_parser.c:165-194 | The same for an input redirect. |
| ParserShell.LineParser.ParseCommand | parser-for-shell-noodlez102/myshell_parser.c:252-278 | The cell holds the command that the functional parser reads, and the cursor is where that one stops. |
| ParserShell.LineParser.ParsePipes | parser-for-shell-noodlez102/myshell_parser.c:295-341 | The linked list and the background flag are the pipeline the functional parser builds; fails exactly when it does. |
| ParserShell.PipelineBuild | parser-for-shell-noodlez102/myshell_parser.c:343-358 | Null exactly on lines outside the language; otherwise a fresh, well-linked list that stands for the pipeline of the line. |
| ParserGrammar.ParseComplete | parser-for-shell-noodlez102/myshell_parser.c:252-341 | Every line of the grammar is accepted and means what the grammar says, the last redirect of each kind winning. |
| ParserGrammar.ParseSound | parser-for-shell-noodlez102/myshell_parser.c:252-341 | Whatever is accepted is a line of the grammar with that meaning. |
| ParserGrammar.AcceptedLanguage | parser-for-shell-noodlez102/myshell_parser.c:252-341 | Accepted if and only if in the grammar: commands separated by pipes, an optional final ampersand, only the last command empty. |
| ParserRoundTrip.RoundTrip | parser-for-shell-noodlez102/myshell_parser.c:211-358 | Printing any well-formed pipeline with any legal whitespace and parsing the line gives the same pipeline. |
| ParserRoundTrip.PrintedFits | parser-for-shell-noodlez102/myshell_parser.c:211-236 | A printed pipeline with at most 256 arguments per command never overflows the argument array, however long the line is. |
| ParserRoundTrip.BuildIsWellFormed | parser-for-shell-noodlez102/myshell_parser.c:211-358 | Every pipeline that is built is well formed. |
| ParserRoundTrip.Image | parser-for-shell-noodlez102/myshell_parser.c:343-358 | A pipeline is built from some line without a terminator inside if and only if it is well formed. |
| ParserRoundTrip.Idempotent | parser-for-shell-noodlez102/myshell_parser.c:252-341 | Printing what was built from any accepted line, repeated redirect pairs included, and reparsing it gives the same pipeline. |
| ParserRoundTrip.ListLength | parser-for-shell-noodlez102/myshell_parser.c:313-340 | An accepted line has one command more than it has pipes. |
| ParserRoundTrip.ArgumentBound | parser-for-shell-noodlez102/myshell_parser.h:6-10 | On a line of at most 512 characters no argument list, with its terminator, overflows the array, because n words need 2n-1 characters. |
| ParserRoundTrip.ArgumentBoundIsTight | parser-for-shell-noodlez102/myshell_parser.h:6-10 | A line of 513 characters can hold one argument too many. |
| ParserLines.BlanksAreAlike | parser-for-shell-noodlez102/myshell_parser.c:9-71 | A newline, a tab and a blank can stand for each other anywhere in a line. |
| ParserLines.EndsDoNotMatter | parser-for-shell-noodlez102/myshell_parser.c:9-71 | A newline, a tab or a blank at the end or the start of any line makes no difference. |
| ParserLines.ShellIsWellFormed | parser-for-shell-noodlez102/myshell_parser.c:9-16 | The well-formed pipelines are those of words of 1 to 32 characters other than the separators, `<`, `>`, the bar and `&`. |
| ParserLines.ShellLineIsParsed | parser-for-shell-noodlez102/myshell_parser.c:51-358 | Each such pipeline, typed with blanks, `<`, `>`, bars and `&`, with or without a newline at the end, is parsed to itself. |
| FsBitmap.MaskIsDigit | file-systems-noodlez102/fs.c:64-66 | For every byte and place, masking with a shifted one is nonzero exactly when that digit of the number is one. |
| FsBitmap.SetBit | file-systems-noodlez102/fs.c:56-58 | The binary digit of one block in the packed bytes becomes one, and no other block's digit changes. |
| FsBitmap.ClearBit | file-systems-noodlez102/fs.c:60-62 | The digit of one block becomes zero, and no other block's digit changes. |
| FsBitmap.GetBit | file-systems-noodlez102/fs.c:64-66 | Masking the byte tells the binary digit of the block in the byte's numeric value. |
| FileSystem.Session.constructor | file-systems-noodlez102/fs.c:69-171 | On the disk that `make_disk` and `make_fs` leave, zero but for the superblock and whatever follows the bitmap in memory at the end of block 1, a mounted session satisfies the invariant and stands for an empty file system. |
| FileSystem.Session.Create | file-systems-noodlez102/fs.c:279-343 | Refines the abstract create: legal new name and a free inode, or -1 and no change. |
| FileSystem.Session.OpenFile | file-systems-noodlez102/fs.c:227-259 | Opens the named file on the first unused descriptor at offset 0, or -1 and no change: the abstract open, of which `FsCalls.OpenAnswers` says what it answers. |
| FileSystem.Session.Close | file-systems-noodlez102/fs.c:261-277 | Closes an open descriptor, or -1: the abstract close of `FsCalls.CloseAnswers`. |
| FileSystem.Session.Seek | file-systems-noodlez102/fs.c:555-580 | Moves the offset to any position up to the size, or -1 and no change. |
| FileSystem.Session.Truncate | file-systems-noodlez102/fs.c:582-603 | Lowers the size, moves this descriptor to it and no other; -1 for a larger or negative length. |
| FileSystem.Session.FileSize | file-systems-noodlez102/fs.c:502-517 | Returns the size of the file of an open descriptor. |
| FileSystem.Session.ListFiles | file-systems-noodlez102/fs.c:519-553 | Returns the names of all files, in the order they were created. |
| FileSystem.Session.ReadBlocks | file-systems-noodlez102/fs.c:410-428 | The block loop with its partial first and last block returns exactly the requested slice of the stored bytes. |
| FileSystem.Session.Read | file-systems-noodlez102/fs.c:391-433 | Refines the abstract read: slice at the offset clipped to the size, offset advanced by the result, all else unchanged. |
| FileSystem.Session.ClearBlock | file-systems-noodlez102/fs.c:456-468 | Finds a block with a clear bit, never block 0; -1 exactly when every usable block is owned. |
| FileSystem.Session.GiveBlock | file-systems-noodlez102/fs.c:457-461 | Allocation gives the block to the next position of the file and keeps bitmap, ownership and count in step, unseen by callers. |
| FileSystem.Session.StoreBytes | file-systems-noodlez102/fs.c:471-487 | Writing part of a block splices those bytes into the one file that owns it and into no other. |
| FileSystem.Session.WriteTurn | file-systems-noodlez102/fs.c:453-496 | One turn of the loop stores its chunk, moves offset and size, and keeps the invariant; when the disk is full it changes nothing. |
| FileSystem.Session.Write | file-systems-noodlez102/fs.c:435-500 | Refines the abstract write, success and disk-full failure alike. |
| FileSystem.Session.Run | file-systems-noodlez102/fs.c:227-603 | Any run of operations ends where the model's run ends, with the same results. |
| FileSystem.Session.RunSettled | file-systems-noodlez102/fs.c:227-603 | A session whose writes stay within the file limit and whose truncations strand no descriptor is a run of plain POSIX files, with the same results. |
| FsSteps.OwnershipIsInjective | file-systems-noodlez102/fs.c:454-469 | Nonzero block pointers are pairwise distinct across all inodes and positions. |
| FsSteps.BitmapAgrees | file-systems-noodlez102/fs.c:454-469 | A bit is set if and only if some inode names the block; block 0 is never in use. |
| FsSteps.MappedBelowSize | file-systems-noodlez102/fs.c:489-493 | Every block index below the size of a file is mapped. |
| FsSteps.UsedCountIsExact | file-systems-noodlez102/fs.c:457-461 | The 16-bit block count is its initial value plus the number of set bits and never wraps. |
| FsSteps.ViewValid | file-systems-noodlez102/fs.c:26-53 | The tables of a valid session stand for a valid abstract file system whose used blocks fit the disk. |
| FsBlocks.AllocKeeps | file-systems-noodlez102/fs.c:456-462 | Giving a clear block to a file keeps the invariant and does not change any file. |
| FsBlocks.StoreKeeps | file-systems-noodlez102/fs.c:471-487 | Copying into a block keeps the invariant and splices into exactly one file, by the div and mod of the offset. |
| FsLaws.StepKeepsValid | file-systems-noodlez102/fs.c:227-603 | Every operation keeps names distinct, files within their blocks, the disk within its capacity and descriptors on files. |
| FsLaws.WriteSplits | file-systems-noodlez102/fs.c:448-496 | Writing `a` then `b` leaves the state that writing `a + b` leaves, for every split and alignment, full disk included. |
| FsLaws.ReadSplits | file-systems-noodlez102/fs.c:404-432 | Two reads in a row return together what one larger read returns, and end in the same state. |
| FsLaws.WriteSeekRead | file-systems-noodlez102/fs.c:391-500 | What was written is read back after seeking to where the write started. |
| FsLaws.WriteFailsWhenFull | file-systems-noodlez102/fs.c:453-467 | A write fails if and only if the file needs more blocks than it has and the disk has free. |
| FsLaws.FailedWriteFillsTheDisk | file-systems-noodlez102/fs.c:453-467 | After a failed write the file holds exactly a proper prefix of the buffer spliced at the old offset, with offset and size to match, and the disk is full. |
| FsLaws.RunFrame | file-systems-noodlez102/fs.c:391-603 | In any run, a file no operation writes or truncates keeps name, bytes and size. |
| FsLaws.ReadIsPosix | file-systems-noodlez102/fs.c:404-432 | A read returns the slice clipped to the size if and only if the descriptor is not past the size. |
| FsLaws.WriteIsPosix | file-systems-noodlez102/fs.c:448-496 | A write splices into the contents if and only if the descriptor is not past the size or only zeros lie between. |
| FsCalls.CreateAnswers | file-systems-noodlez102/fs.c:279-343 | 0 exactly for a new name of 1 to 15 characters while there are fewer than 64 files: an empty file of that name comes after the others. Else -1 and no change. |
| FsCalls.OpenAnswers | file-systems-noodlez102/fs.c:227-259 | The code is the lowest unused descriptor, then open at offset 0 on the file named by the first 15 characters; all else stays. -1 with no change exactly if no file is called so or no descriptor is unused. |
| FsCalls.CloseAnswers | file-systems-noodlez102/fs.c:261-277 | 0 exactly for a descriptor in use, which then is not in use any more; all else stays. |
| FsCalls.UnusedAnswers | file-systems-noodlez102/fs.c:261-603 | Every call with a descriptor that is not in use answers -1 and changes nothing. |
| FsCalls.ClosedIsGone | file-systems-noodlez102/fs.c:227-603 | After a close every call with the descriptor fails, and the next open of a file answers a descriptor no higher. |
| FsCalls.CreateThenOpen | file-systems-noodlez102/fs.c:227-343 | After a create, opening the name opens the new file on the lowest unused descriptor, and its size is 0. |
| FsCalls.SeekAnswers | file-systems-noodlez102/fs.c:555-580 | 0 exactly for a descriptor in use and an offset from 0 to the size, the size included; then this descriptor's offset is that, and all else stays. |
| FsCalls.FileSizeAnswers | file-systems-noodlez102/fs.c:502-517 | The length of what callers see of the file, or -1; nothing changes. |
| FsCalls.TruncateAnswers | file-systems-noodlez102/fs.c:582-603 | 0 exactly for a length from 0 to the size: the size and this offset become it; what is stored, the other files and the other descriptors stay. |
| FsSessions.HandleStrandsExactly | file-systems-noodlez102/fs.c:595-601 | A descriptor within the size gets past it if and only if another descriptor of the file truncates below its offset. |
| FsSessions.StrandsExactly | file-systems-noodlez102/fs.c:595-601 | All descriptors stay within their sizes at a step if and only if it is no such truncation. |
| FsSessions.RunStrandsExactly | file-systems-noodlez102/fs.c:391-603 | The same over every run: all states are without a stranded descriptor if and only if no step strands one. |
| FsSessions.QuietRuns | file-systems-noodlez102/fs.c:391-603 | If callers check the file limit of writes and the offsets at truncations, every read is covered by the model, and no descriptor is ever stranded. |
| FsSessions.StepIsIdeal | file-systems-noodlez102/fs.c:391-603 | With no descriptor stranded, each operation acts on contents and offsets as POSIX does: clipped slice, splice of what found room, cut. |
| FsSessions.SessionIsIdeal | file-systems-noodlez102/fs.c:391-603 | So does every session whose truncations strand no descriptor, result by result. |
| FsSessions.StrandingRun | file-systems-noodlez102/fs.c:600-601 | A session from the empty file system that strands a descriptor. |
| FsSessions.StrandedFails | file-systems-noodlez102/fs.c:404-432 | There a read returns a truncated byte and a write brings one back where POSIX has a zero. |
| TlsModel.Isolation | copy-on-write-noodlez102/tls.c:113-342 | Over any run of the abstract library, the bytes of a thread that makes no call stay as they are; `ThreadStorage.Registry.Run` carries this to shared pages. |
| TlsModel.CloneIsASnapshot | copy-on-write-noodlez102/tls.c:290-342 | A clone sees the target's bytes at the time of the clone, whatever anyone else does afterwards. |
| TlsModel.ReadBack | copy-on-write-noodlez102/tls.c:200-288 | What a thread writes it reads back. |
| TlsModel.BoundsCheckExact | copy-on-write-noodlez102/tls.c:216-218 | The unsigned bounds check is right if and only if the end does not wrap, or wraps past the size. |
| TlsModel.BoundsCheckWraps | copy-on-write-noodlez102/tls.c:216-225 | A call far out of range that passes the check and answers 0 without reading. |
| TlsModel.CloneNeedsASlot | copy-on-write-noodlez102/tls.c:333-341 | A clone that answers 0 gives the caller a storage if and only if a slot was free. |
| TlsModel.RefusedClone | copy-on-write-noodlez102/tls.c:333-341 | A run of creates by 128 threads fills the registry, and a clone by one more thread then answers 0 and leaves it without a storage. |
| TlsCalls.CreateAnswers | copy-on-write-noodlez102/tls.c:113-156 | 0 exactly for a size over 0 and a caller without a storage: the caller then has exactly that many bytes, all 0, and no other thread's bytes change. Else -1 and no change. |
| TlsCalls.DestroyAnswers | copy-on-write-noodlez102/tls.c:158-198 | 0 exactly for a caller with a storage: it has none afterwards, and no slot becomes free. |
| TlsCalls.CloneAnswers | copy-on-write-noodlez102/tls.c:290-342 | 0 exactly for a caller without and a target with a storage: the caller has the target's bytes if a slot was free, and else nobody's bytes change. |
| TlsCalls.ReadAnswers | copy-on-write-noodlez102/tls.c:200-238 | 0 exactly if the end of the range, or what is left of it after it wraps, is within the size; the bytes are those of the range, or none where it wraps. |
| TlsCalls.WriteAnswers | copy-on-write-noodlez102/tls.c:240-288 | The same for a write, which replaces the bytes of the range in the caller's storage and no others. |
| TlsCalls.CreateThenRead | copy-on-write-noodlez102/tls.c:113-238 | After a create, a read whose end does not wrap answers 0, with zeros, if and only if it ends within the size asked for. |
| TlsCalls.DestroyThenCall | copy-on-write-noodlez102/tls.c:113-288 | After a destroy the caller's reads, writes and destroys answer -1, and a create answers 0. |
| TlsRefs.CountsSum | copy-on-write-noodlez102/tls.c:327-331 | The counts of all pages sum to the pages of all storages, plus the references lost by clones without a slot. |
| TlsRefs.Split | copy-on-write-noodlez102/tls.c:270-280 | Replacing a shared page by a copy in one storage keeps every count exact. |
| TlsRefs.DropFirst | copy-on-write-noodlez102/tls.c:176-184 | Letting go of a page keeps every count exact, and the page goes only with its last holder. |
| TlsPages.PokeKeeps | copy-on-write-noodlez102/tls.c:281-282 | Storing into a page with count 1 changes one byte of the caller's view and no other thread's. |
| TlsPages.SplitKeeps | copy-on-write-noodlez102/tls.c:270-280 | Splitting a page changes no thread's view. |
| TlsPages.ZeroPagesShow | copy-on-write-noodlez102/tls.c:145-152 | The computed number of zero pages shows a storage of zeros of the requested size. |
| TlsPages.CopyingAdvances | copy-on-write-noodlez102/tls.c:264-283 | One more byte of a write copies a page only if it is the first of the write on a shared page. |
| ThreadStorage.Registry.UnprotectAll | copy-on-write-noodlez102/tls.c:220-222 | Afterwards exactly the pages of the caller's storage are accessible. |
| ThreadStorage.Registry.ProtectAll | copy-on-write-noodlez102/tls.c:284-286 | Afterwards no page is accessible. |
| ThreadStorage.Registry.CopyPage | copy-on-write-noodlez102/tls.c:271-279 | The copy is accessible and replaces the original, which is protected again mid-loop and is not needed any more. |
| ThreadStorage.Registry.WriteByte | copy-on-write-noodlez102/tls.c:264-283 | One turn of the write loop: one byte of the caller's view changes, and the page is copied if and only if it was shared. |
| ThreadStorage.Registry.WriteStorage | copy-on-write-noodlez102/tls.c:260-286 | After a write every page in the range has count 1, each was copied at most once and only if shared before, and every other page is the same object with the same count. |
| ThreadStorage.Registry.Read | copy-on-write-noodlez102/tls.c:200-238 | Returns the slice of the caller's bytes, or -1; pages end protected. |
| ThreadStorage.Registry.Write | copy-on-write-noodlez102/tls.c:240-288 | Splices the buffer into the caller's bytes only, or -1; on success with minimal copying, and no other storage's pages change. |
| ThreadStorage.Registry.Create | copy-on-write-noodlez102/tls.c:113-156 | Gives the caller zeros in the first free slot, in new pages beside the old ones, or -1 for size 0 or a second storage: the abstract create of `TlsCalls.CreateAnswers`. |
| ThreadStorage.Registry.Clone | copy-on-write-noodlez102/tls.c:290-342 | Gives the caller a storage of the target's own page objects, each with one reference more and every other count as it was, or -1; with no slot free the references are lost. |
| ThreadStorage.Registry.DropStorage | copy-on-write-noodlez102/tls.c:176-184 | A destroyed storage releases exactly its pages with count 1 and lowers the count of the others by one. |
| ThreadStorage.Registry.Destroy | copy-on-write-noodlez102/tls.c:158-198 | Removes the caller's storage and gives up its slot, or -1; exactly the pages with no other holder are released. |
| ThreadStorage.Registry.Run | copy-on-write-noodlez102/tls.c:113-342 | Any run of calls by any threads acts on the storages as it acts on private byte sequences, with the same results. |
| ThreadStorage.Registry.CountsAreExact | copy-on-write-noodlez102/tls.c:33-36 | In every reachable state each count is the number of storages holding the page if and only if no clone was refused a slot; no storage holds a page twice, and the counts sum to all pages held and references lost. |
| RoundRobin.NextIsNearest | ulpt-noodlez102/threads.c:69-81 | The scan stops at the ready slot nearest after the current one. |
| ThreadModel.StepKeepsValid | ulpt-noodlez102/threads.c:48-362 | Every step keeps: only the current thread runs, slots are given out in order, blocked threads are exactly those in queues, each once, and only locked mutexes have queues. |
| ThreadLaws.BoundedWaiting | ulpt-noodlez102/threads.c:59-92 | A ready thread becomes current within one call of schedule less than there are slots, whatever steps interleave. |
| ThreadLaws.BoundIsReached | ulpt-noodlez102/threads.c:59-92 | With all threads busy the bound is reached. |
| ThreadLaws.ExitedForever | ulpt-noodlez102/threads.c:208-212 | An exited slot stays exited with its value and is never scheduled again. |
| ThreadLaws.JoinReturnsExitValue | ulpt-noodlez102/threads.c:224-235 | A join made after any run returns a value if and only if the thread passed that value to pthread_exit. |
| ThreadLaws.HandlesAreSlots | ulpt-noodlez102/threads.c:162-189 | The handles of a run are the slots in order: distinct, and never more than there are. |
| ThreadLaws.QueueIsFifo | ulpt-noodlez102/threads.c:317-356 | Over any run, earlier waiters followed by arrivals equal the wake-ups followed by those who still wait. |
| ThreadLaws.KthWaiterKthWake | ulpt-noodlez102/threads.c:352-356 | The k-th waiter is woken by the k-th unlock that finds a waiter. |
| ThreadLaws.WakeIsReal | ulpt-noodlez102/threads.c:353-364 | The thread an unlock wakes was blocked, and is ready or current afterwards. |
| ThreadLaws.WaitAnswersMinusOne | ulpt-noodlez102/threads.c:316-342 | A lock call that had to wait answers -1 when its thread goes on, whatever the other threads did meanwhile. |
| ThreadCalls.WakerAnswersZero | ulpt-noodlez102/threads.c:351-365 | An unlock call that found a waiter answers 0 when its thread goes on, whatever the other threads did meanwhile. |
| ThreadCalls.ReturnsOnce | ulpt-noodlez102/threads.c:340-366 | An interrupted call returns once, and its return changes nothing else. |
| ThreadCalls.LockAtOnce | ulpt-noodlez102/threads.c:310-316 | A lock answers 0 at once exactly if the mutex was unlocked; the mutex is locked afterwards, and no other mutex changes. |
| ThreadCalls.UnlockAtOnce | ulpt-noodlez102/threads.c:345-362 | An unlock answers 0 at once exactly if it finds no waiter; the mutex stays locked only if more than one waited. |
| ThreadCalls.NewMutexIsFree | ulpt-noodlez102/threads.c:277-316 | The first lock of a new mutex answers 0 at once. |
| ThreadCalls.CreateAnswers | ulpt-noodlez102/threads.c:162-194 | The handle is an empty slot, which becomes ready, and all else stays; -1 exactly if no slot is empty. |
| ThreadCalls.SwitchLeaves | ulpt-noodlez102/threads.c:48-93 | After a switch the new current thread runs, the one that let go is exited, blocked or ready by its call, and of the others only a woken waiter changes. |
| ThreadCalls.StepFrame | ulpt-noodlez102/threads.c:48-367 | Exit values change only by an exit, mutexes only by calls on them, and only the current thread's pending answer changes. |
| ThreadLaws.ExclusionIsKept | ulpt-noodlez102/threads.c:307-367 | In each reading of who is inside, a step keeps one-inside-and-flag-right if and only if it is not the unlock that breaks it: one waiter, or more than one. |
| ThreadLaws.ExclusionOverRuns | ulpt-noodlez102/threads.c:307-367 | In each reading, a run has at most one thread inside and a right flag in every state if and only if it has no such unlock. |
| ThreadLaws.LooseExactly | ulpt-noodlez102/threads.c:345-367 | If a woken waiter counts as inside, the flag goes wrong, with one thread inside an unlocked mutex, exactly at an unlock that finds one waiter, and the next unlock puts it right. |
| ThreadLaws.BargesExactly | ulpt-noodlez102/threads.c:307-367 | From one inside, flag right or wrong in that way, a step lets a second thread in if and only if it is a lock of the unlocked mutex by another thread while one is inside. |
| ThreadLaws.SingleOverRuns | ulpt-noodlez102/threads.c:307-367 | In that reading, at most one thread is inside in every state of a run if and only if no other thread locks the mutex between an unlock that finds one waiter and the unlock of the thread it woke. |
| ThreadLaws.AnsweredExcludes | ulpt-noodlez102/threads.c:307-367 | If only an answer of 0 lets a thread in, there is never more than one inside, in any run. |
| ThreadLaws.LockedOut | ulpt-noodlez102/threads.c:357-362 | In that reading, a mutex locked with nobody inside stays so over every run, and its waiters are never woken. |
| ThreadRuns.TwoInside | ulpt-noodlez102/threads.c:360-362 | A run after which two threads are inside one mutex, if a woken waiter counts as inside. |
| ThreadRuns.EverybodyOut | ulpt-noodlez102/threads.c:340-342 | A run after which the mutex is locked and nobody is inside, if only an answer of 0 lets a thread in. |
| WaitQueue.MutexCell.Enqueue | ulpt-noodlez102/threads.c:319-339 | The head and tail pointers append to the queue in all three branches. |
| WaitQueue.MutexCell.Dequeue | ulpt-noodlez102/threads.c:353-359 | The head leaves the queue, and the tail pointer stays right. |
| UserThreads.Library.Schedule | ulpt-noodlez102/threads.c:48-93 | The scanning loop ends and switches to the thread the model says. |
| UserThreads.Library.Self | ulpt-noodlez102/threads.c:216-222 | The number of the current slot, which is the handle its creator got. |
| UserThreads.Library.Create | ulpt-noodlez102/threads.c:123-195 | The first slot without a stack is the number of threads so far, which is also the handle; -1 when all slots were given out. |
| UserThreads.Library.Exit | ulpt-noodlez102/threads.c:197-214 | Refines the model's exit. |
| UserThreads.Library.Join | ulpt-noodlez102/threads.c:226-234 | One turn of the join loop returns the exit value or switches. |
| UserThreads.Library.Lock | ulpt-noodlez102/threads.c:307-343 | Locks a free mutex and answers 0, or blocks the caller at the end of the queue and switches, to answer -1 later. |
| UserThreads.Library.Unlock | ulpt-noodlez102/threads.c:345-367 | Unlocks, or wakes the first waiter and switches, to answer 0 later. |
| UserThreads.Library.Return | ulpt-noodlez102/threads.c:340-366 | An interrupted call ends with its answer once its thread goes on: -1 after a wait (`WaitAnswersMinusOne`), 0 after a wake-up (`WakerAnswersZero`). |
| UserThreads.Library.Run | ulpt-noodlez102/threads.c:48-367 | Any run of steps acts on the tables and linked queues as it acts on the model, with the same outcomes. |
| Barrier.GatheringSteps | ulpt-noodlez102/threads.c:418-420 | Until the last participant arrives, nobody leaves the spin loop. |
| Barrier.ReleasingSteps | ulpt-noodlez102/threads.c:418-431 | Going round from the last arriver, each spinner leaves the loop before that thread has its next turn. |
| Barrier.BarrierRound | ulpt-noodlez102/threads.c:395-446 | Whoever is back, all have arrived and nobody spins any more; the last arriver alone has the serial value, and is back first. |
| Barrier.NobodyIsStranded | ulpt-noodlez102/threads.c:418-446 | Once all have arrived, every participant is back after the scheduler went round twice. |
| BarrierCalls.BarrierCell.Wait | ulpt-noodlez102/threads.c:392-447 | What the code does from one call of schedule to the next is the model's action, resetting the count and setting the flag included. |
| BarrierCalls.BarrierCell.Run | ulpt-noodlez102/threads.c:392-447 | Any run of barrier segments and other library steps goes as the model's round does, so the results on rounds hold of it. |

## Left out

- `fs_delete`: it compares bitmap bytes with an inode number and leaves the inode marked used, so block ownership does not survive it; sessions are free of deletions.
- `umount_fs` and a second `mount_fs`: metadata blocks are not reserved and the tables are not written back consistently, so nothing of a session survives a remount.
- Errors of `block_read` and `block_write`: `disk.c` is an array of blocks that always answers.
- FileSystem.Session.constructor: the byte layout of directory entries and inodes in blocks is not modelled; blocks of zeros are taken as unused entries.
- FileSystem.Session.Read: does not cover a read through a stranded descriptor that would go beyond the bytes ever stored; the code then returns what lies in other positions of the blocks, or block 0, and moves the offset so that later writes leave gaps. With no descriptor stranded every read is covered (`FsSessions.QuietRuns`).
- FileSystem.Session.Run: the same; `FileSystem.Session.RunSettled` asks nothing of reads.
- FileSystem.Session.Write: does not cover offset plus length over `MAX_FILESIZE`, where the code indexes past the direct blocks.
- FileSystem.Session.Create: an inode's double and single indirect fields, which nothing reads, are not modelled.
- Arguments over 2^31 bytes, where the `int` counters of the read and write loops would overflow, lie outside `MAX_FILESIZE`.
- ThreadStorage.Registry.Create: demands a free slot; with none the code stores at index -1 of the table.
- ThreadStorage.Registry.Write: demands that the end of a range in bounds fits a signed `int`, the type of the loop counter; the same for reads.
- The page-fault handler of the thread storage, failures of `mmap`, `mprotect` and `calloc`, and the release of memory: a released page is one that is no longer mapped.
- The `pages` array of a storage and the memory of a page are sequences held in fields, and each thread-storage call is one atomic step.
- Signals, timers, signal masks, `setjmp` and `longjmp`, stacks and registers: a context switch is the end of a step, and where an interrupted call goes on is a table entry.
- Library calls before the first `pthread_create`, which is what initializes the scheduler: the model starts after `scheduler_init`.
- UserThreads.Library.Join: is one turn of the loop; the turns that follow are later steps of the same thread. A join of a number that is no slot is excluded.
- UserThreads.Library.Exit: demands that another thread is ready; with none the scheduler scans for ever. The same for a lock that blocks.
- `pthread_mutex_destroy` and `pthread_barrier_destroy`, which only release memory.
- BarrierCalls.BarrierCell.Wait: is one round on the path with `init` equal to 1; the queue branch of the barrier and a second round, in which `serialed` is never reset, are not modelled.
- Barrier.BarrierRound: takes the calls of schedule inside `pthread_barrier_wait` as the only places where a participant lets go there, as when the timer does not fire in it.
- ParserShell.PipelineBuild: demands that the argument lists fit the array, which `ArgumentBound` shows for every line of at most `MAX_LINE_LENGTH` characters.
- Heap release after a failed parse, where the argument list may be unterminated, and failures of `malloc`.
- Redirects written `>` then `<`: the code rejects them, and so does the model; the printer writes `<` first.
- `myshell.c` (processes and pipes), printing of messages, and the test programs.
