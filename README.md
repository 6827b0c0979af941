# cs61 systems programs, modelled and verified in Dafny

This project models the core of a systems-programming course repository and proves properties of the model in Dafny. The course code is C++; each of its core files below becomes a Dafny module (or a few), written in the form of that file:

- **io61** (`psets/pset4/io61.cc`): a single-slot buffered I/O library over a file descriptor. Each operation (`fdopen`, `readc`, `read`, `writec`, `write`, `flush`, `seek`) is a function from one cache snapshot to the next. Lemmas state what those steps mean for the bytes a program reads and writes. A `File` class performs the same steps in place on a `buf` array. Modules: `Io61`, `Io61Properties`, `Io61File`.
- **m61** (`pset1/m61.cc`): a debugging allocator that puts a header in front of every block and keeps statistics, a doubly linked list of live blocks, and invalid-free and double-free checks. The header layout is modelled, and heap memory as a map from addresses to bytes (`M61`, `M61Properties`). An `Allocator` class keeps the same state in fields (`M61Alloc`).
- **WeensyOS kernels**: `psets/pset3/kernel.cc` (pset 3: virtual memory, `fork`, `exit`, `page_alloc`), `kernel8/kernel.cc` (the pipe lecture kernel) and `kernel4/kernel.cc` (the identity-mapped lecture kernel). Each is a `Kernel` class over arrays for the process table, the physical page reference counts and physical memory (`Pset3Kernel`, `Kernel8`, `Kernel4`). The shared types (page tables as values, processes, register files) and the shared identity-mapping proofs are in `WeensyCommon`.
- **sh61**: the full shell `psets/pset5/sh61.cc` (which parses into a tree of commands with subshells and redirections and runs conditionals and pipelines) and the handout shell `pset5/sh61.cc`. The modules are `Sh61Common` (chains of links and the conditional walk), `Sh61` and `Sh61ParseProperties` (parser, a parse/unparse round trip), `Sh61Run` (the runner), and `Sh61Handout`.
- **pong61** (`pset6/pong61.cc`): the HTTP/1.0 client connection. It covers request sending, response header and body parsing, and truncation. The modules are `Pong61` (values), `Pong61Properties` and `Pong61Connection` (the `Connection` class over a growable buffer).
- **lectures**:
  - `net8/sqmatrix.hh`: in-place transpose (`SqMatrix`).
  - `asm6/src/f31.cc`: a 64-bit sum of 32-bit ints (`F31Sum`).
  - `asm6/src/f27.cc`: recursive comma splitting (`F27Split`).
  - `lectures/net6/bbuffer-cond.cc`: a bounded buffer (`BoundedBuffer`).
  - `lectures/kernel8/p-pipereader.cc`: a pipe reader's message loop (`PipeReaderProcess`).
  - `net5/wdbclientloop.cc`: the weensydb command-line client (`WdbClient`).

I/O, system calls and hardware are replaced by parameters. Examples are the result of `read`, whether `fork` fails, the status `waitpid` reports, and the bytes a server sends. The outcome of each call is then a function of those parameters.

The modules import one another, so all the `.dfy` files form one program: `dafny verify *.dfy`.

## Model

| member | source | states |
|---|---|---|
| SqMatrix.Transposed | net8/sqmatrix.hh:48-56 | the reference transpose of an n×n matrix: it is square and element (i,j) is the old (j,i) |
| SqMatrix.TransposeTwice | net8/sqmatrix.hh:48-56 | transposing twice gives the matrix back |
| SqMatrix.Matrix.constructor | net8/sqmatrix.hh:9-14 | a `size × size` matrix is allocated, with `sz == size` |
| SqMatrix.Matrix.Size | net8/sqmatrix.hh:23-27 | the dimension is the array's extent in both directions |
| SqMatrix.Matrix.At | net8/sqmatrix.hh:29-46 | element (i,j) is row i, column j of the matrix value |
| SqMatrix.Matrix.Transpose | net8/sqmatrix.hh:48-56 | in place, every element (i,j) becomes the old (j,i); the new rows equal `Transposed` of the old rows; the size and the array stay the same |
| SqMatrix.TransposeTwiceRestores | net8/sqmatrix.hh:48-56 | two in-place transposes restore every element |
| F31Sum.TotalBounds | asm6/src/f31.cc:4-10 | a sum of k int32 values lies within k times the int32 range, so the `long` accumulator cannot overflow |
| F31Sum.F | asm6/src/f31.cc:4-10 | the result is the mathematical sum of `v[0..n)` and 0 when `n <= 0`; each 64-bit addition stays in range |
| F27Split.CStr | asm6/src/f27.cc:5-14 | the C string at a position contains no NUL |
| F27Split.StrChrComma | asm6/src/f27.cc:6 | `strchr(s, ',')`: the first comma before the NUL, or none exactly when the C string has no comma |
| F27Split.Split | asm6/src/f27.cc:5-14 | at least one segment, and no segment contains a comma |
| F27Split.JoinSplit | asm6/src/f27.cc:5-14 | joining the segments with commas gives the string back: the split loses nothing |
| F27Split.SplitCount | asm6/src/f27.cc:5-14 | a string with k commas splits into k + 1 segments |
| F27Split.StrCmpMeaning | asm6/src/f27.cc:10 | the `strcmp` sign is 0 exactly for equal strings, swaps sign with the operands, and lies in -1..1 |
| F27Split.RelChar | asm6/src/f27.cc:11 | `'<' + (cmp >= 0) + (cmp > 0)` is `<`, `=` or `>` by the sign of cmp |
| F27Split.ReportOrder | asm6/src/f27.cc:7-12 | one printed line per adjacent pair of segments; because the recursion runs before the print, the lines run from the last pair to the first |
| F27Split.CutCommas | asm6/src/f27.cc:8 | overwriting the commas keeps the length and leaves everything before the string unchanged |
| F27Split.CutAtComma | asm6/src/f27.cc:6-9 | writing NUL at the first comma splits the segments into the left part and the segments of the rest, which are unchanged |
| F27Split.F | asm6/src/f27.cc:5-14 | returns `s`. Every comma of the string becomes NUL, so the string now reads as its first segment. The printed lines are `Report` of the segments |
| F27Split.NoCommaNoChange | asm6/src/f27.cc:7 | without a comma, nothing is written and nothing is printed |
| F27Split.LinesPerComma | asm6/src/f27.cc:5-14 | `f` prints exactly as many lines as the string has commas |
| BoundedBuffer.Slot | lectures/net6/bbuffer-cond.cc:34 | the slot of the k-th buffered byte is `(bpos + k) % capacity`, written without `%` |
| BoundedBuffer.Advance | lectures/net6/bbuffer-cond.cc:57 | advancing `bpos` by at most one turn is `(pos + n) % capacity` |
| BoundedBuffer.SlotsDistinct | lectures/net6/bbuffer-cond.cc:33-38 | different offsets below the capacity use different slots, so the copy loop overwrites no buffered byte |
| BoundedBuffer.BBuffer.constructor | lectures/net6/bbuffer-cond.cc:11-19 | an empty, open buffer of 128 slots |
| BoundedBuffer.BBuffer.Write | lectures/net6/bbuffer-cond.cc:26-47 | a closed buffer fails the `assert`. A full buffer would wait (`Blocked`, nothing changes). Otherwise the first `min(sz, room)` bytes are appended to the FIFO contents and that count is returned, or -1 when none were copied and `sz > 0`; `bpos` does not move |
| BoundedBuffer.BBuffer.Read | lectures/net6/bbuffer-cond.cc:49-69 | an empty open buffer would wait (`Empty`). Otherwise the first `min(sz, blen)` bytes leave in FIFO order and are returned, with that count, or -1 when none were read, `sz > 0` and writes are open; `bpos` advances by the count modulo the capacity |
| BoundedBuffer.BBuffer.PushBack | lectures/net6/bbuffer-cond.cc:34-36 | one copy-loop step of `write`: the byte is appended to the contents |
| BoundedBuffer.BBuffer.PopFront | lectures/net6/bbuffer-cond.cc:56-58 | one copy-loop step of `read`: the oldest byte leaves and `bpos` moves one slot |
| BoundedBuffer.BBuffer.ShutdownWrite | lectures/net6/bbuffer-cond.cc:71-75 | sets the closed flag; the buffered bytes stay |
| PipeReaderProcess.FirstNewline | lectures/kernel8/p-pipereader.cc:12 | `memchr`: the first newline, and none exactly when the buffer holds no newline |
| PipeReaderProcess.PipeReadReply | kernel8/kernel.cc:378-394 | `syscall_piperead` answers 0 exactly when there is no room, 1 when the one-byte pipe is full, -1 when it is empty |
| PipeReaderProcess.Received | lectures/kernel8/p-pipereader.cc:18-23 | the bytes that the successive calls delivered, at most one per call |
| PipeReaderProcess.ReceivedSnoc | lectures/kernel8/p-pipereader.cc:18-23 | one more call appends its byte, if the pipe held one, after the earlier ones |
| PipeReaderProcess.ReceivedAtMostOnePerCall | kernel8/kernel.cc:378-394 | the number of delivered bytes is exactly the number of calls that found the pipe full |
| PipeReaderProcess.Reader.constructor | lectures/kernel8/p-pipereader.cc:4-6 | an empty 200-byte buffer and no reads yet |
| PipeReaderProcess.Reader.ReadMessage | lectures/kernel8/p-pipereader.cc:8-33 | `nreads` counts the calls. A message is the pending bytes plus what arrived, up to and including the first newline, and the rest stays pending. Without a newline the process keeps waiting with all bytes pending. A full buffer without a newline panics, because the next call has no room and returns 0 |
| PipeReaderProcess.Reader.TakeMessage | lectures/kernel8/p-pipereader.cc:27-33 | the message is the first `messagelen` pending bytes and the rest stays pending |
| PipeReaderProcess.Reader.PipeRead | lectures/kernel8/p-pipereader.cc:17-23 | the reply is `PipeReadReply` for the remaining room; on 1 the byte is appended and `nreads` grows by one |
| PipeReaderProcess.Reader.Shift | lectures/kernel8/p-pipereader.cc:32-33 | `memmove` down: the pending bytes lose their first m |
| Io61.ReadAt | psets/pset4/io61.cc:72 | `read(fd, _, n)` from offset off returns `min(n, size − off)` bytes, and none past the end |
| Io61.Overwrite | psets/pset4/io61.cc:217 | the file after `write` at p: the written bytes are at p..p+n, bytes past the old end are zero-filled, everything else is unchanged |
| Io61.Splice | psets/pset4/io61.cc:198 | `memcpy` into the cache keeps its length |
| Io61.OverwriteCompose | psets/pset4/io61.cc:196-211 | writing a and then b right after it is the same as writing a + b |
| Io61.ReadAtSplit | psets/pset4/io61.cc:110-126 | reading sz bytes is reading the first n, then the remaining sz − n |
| Io61.Open | psets/pset4/io61.cc:32-42 | `io61_fdopen` sets all tags to 0. The new file satisfies the invariants of both modes, is coherent with the file and has nothing pending |
| Io61.Refill | psets/pset4/io61.cc:118 | `read(fd, buf, BUFSIZE)` either fails with -1 and changes nothing, or reads `ReadAt(disk, offset, BUFSIZE)` and moves the descriptor past those bytes; the tags are untouched |
| Io61.Readc | psets/pset4/io61.cc:60-82 | write mode returns -1 and changes nothing; the invariant `Inv` is kept and the file is untouched |
| Io61.ReadcRefill | psets/pset4/io61.cc:69-81 | the refill path of `readc` keeps the invariant and never changes the file |
| Io61.CachedRest | psets/pset4/io61.cc:110-134 | the cached bytes not read yet, `end_tag − pos_tag` of them; for a coherent cache they are the file's bytes at those positions |
| Io61.Read | psets/pset4/io61.cc:92-146 | write mode returns -1 and hands out nothing; tags out of order fail the asserts on lines 100-101; the invariant is kept and the file is untouched |
| Io61.ReadRefill | psets/pset4/io61.cc:108-127 | the refill path of `read` keeps the invariant and never changes the file |
| Io61.ReadRefillCompose | psets/pset4/io61.cc:108-127 | the refill path hands out the cached rest followed by what the refill copies. It returns -1, after the cached rest was already copied, when the refill fails |
| Io61.FillAndCopy | psets/pset4/io61.cc:117-127 | after the refill, up to `want` bytes copied from `buf[seek_idx]`; their count is returned, or -1 with nothing copied when the refill fails |
| Io61.ReadDirect | psets/pset4/io61.cc:128-143 | the direct path keeps the invariant and never changes the file |
| Io61.Flush | psets/pset4/io61.cc:233-253 | read mode returns 0 and changes nothing; on success `tag` becomes `pos_tag`; the assertion fails only in write mode, on a count from `write` other than -1 and the pending length (a short write), and the invariant is kept in every case |
| Io61.Append | psets/pset4/io61.cc:196-200 | `memcpy` into the cache and both tags advance: the pending bytes grow by the data, and the logical file is the old one with the data written at `pos_tag` |
| Io61.Writec | psets/pset4/io61.cc:153-173 | read mode returns -1 and changes nothing; the invariant is kept; it aborts only when its flush does |
| Io61.Write | psets/pset4/io61.cc:181-225 | read mode returns -1 and changes nothing; each of the three cases keeps the invariant |
| Io61.WriteFillFlush | psets/pset4/io61.cc:201-211 | the fill/flush/refill case keeps the invariant |
| Io61.WriteDirect | psets/pset4/io61.cc:212-222 | the direct case keeps the invariant for every count the direct `write` may return |
| Io61.CRem | psets/pset4/io61.cc:266 | C's `%` on `off_t`: equal to Dafny's `%` for non-negative offsets, truncated toward zero (never positive) for negative ones, and `off − r` is a multiple of BUFSIZE |
| Io61.Seek | psets/pset4/io61.cc:260-281 | returns 0 or -1, unless the flush of a write-mode seek fails its assertion (a short write); the invariant is kept for every non-negative position, whenever -1 is returned and after an abort |
| Io61Properties.ReadcFromFile | psets/pset4/io61.cc:60-82 | on a coherent cache, `readc` returns the byte at the read position, or EOF at the end of the file, and moves one byte on |
| Io61Properties.ReadcRefillFromFile | psets/pset4/io61.cc:69-81 | the refill path of `readc` returns the file's byte at `pos_tag`, or EOF at the end of the file |
| Io61Properties.RefillCoherent | psets/pset4/io61.cc:117-122 | a refill of a dropped cache at the descriptor position makes the cache coherent |
| Io61Properties.MovePos | psets/pset4/io61.cc:262-264 | moving `pos_tag` inside the cache keeps it coherent |
| Io61Properties.ReadFromFile | psets/pset4/io61.cc:92-146 | on a coherent cache, `read` hands out exactly the file's next sz bytes (fewer at the end), returns their count and advances `pos_tag` past them, in all three cases |
| Io61Properties.ReadRefillFromFile | psets/pset4/io61.cc:108-127 | the refill case hands out the file's next sz bytes |
| Io61Properties.FillFromFile | psets/pset4/io61.cc:117-127 | refill and copy hand out the file's bytes from `end_tag` and keep the cache coherent |
| Io61Properties.FillOut | psets/pset4/io61.cc:123-125 | the bytes copied after the refill are the file's bytes from `end_tag` |
| Io61Properties.FillCoherent | psets/pset4/io61.cc:122-127 | after the refill and copy, the cache is coherent with `pos_tag` past the copied bytes |
| Io61Properties.ReadAtPrefix | psets/pset4/io61.cc:123 | reading n bytes gives a prefix of reading m ≥ n bytes |
| Io61Properties.RefillContents | psets/pset4/io61.cc:118 | a refill puts the bytes it read at the front of the cache |
| Io61Properties.ReadAtAfterCache | psets/pset4/io61.cc:110-134 | the bytes from the read position are the cached rest followed by the file from `end_tag` |
| Io61Properties.ReadDirectFromFile | psets/pset4/io61.cc:128-143 | the direct case hands out the cached rest plus the direct read: exactly the file's next sz bytes |
| Io61Properties.ReadDirectError | psets/pset4/io61.cc:136-139 | a failing direct read returns the number of cached bytes already copied, or -1 when there were none, and changes nothing |
| Io61Properties.ReadRefillErrorAfterCopy | psets/pset4/io61.cc:110-121 | as written: a failed refill returns -1 although the cached rest was already copied out, and those bytes count as consumed |
| Io61Properties.ReadcIgnoresReadError | psets/pset4/io61.cc:72-80 | as written: a failed refill in `readc` returns a stale cache byte and not EOF, and leaves `pos_tag > end_tag`, so the next `read` fails its assert |
| Io61Properties.SeekReadCoherent | psets/pset4/io61.cc:261-272 | a read-mode seek keeps the cache coherent and puts the next read at pos; inside the cache it only moves `pos_tag` |
| Io61Properties.SeekIdxNotFolded | psets/pset4/io61.cc:266-271 | as written: after a seek one past a block boundary, the first two `readc` both return the byte at pos, because `seek_idx` never moves `pos_tag` |
| Io61Properties.SeekOutsideCache | psets/pset4/io61.cc:265-271 | a read-mode seek outside the cache moves the descriptor and every tag to the block boundary below pos and sets `seek_idx` to the distance |
| Io61Properties.SeekNegative | psets/pset4/io61.cc:260-281 | a negative pos succeeds exactly when the aligned offset is 0 (read mode, pos > −BUFSIZE) or when pos is −1 (write mode, where `lseek` returns −1 == pos); the file is then left outside the invariant |
| Io61Properties.OverwriteEmpty | psets/pset4/io61.cc:243 | an empty write leaves the file unchanged |
| Io61Properties.FlushWritesPending | psets/pset4/io61.cc:243-251 | `flush` writes exactly the pending bytes and returns their count. The file becomes the logical file and nothing stays pending |
| Io61Properties.FlushError | psets/pset4/io61.cc:244-247 | a failing `write` makes `flush` return -1 and change nothing |
| Io61Properties.FlushShortAborts | psets/pset4/io61.cc:244-248 | a `write` that takes only w of the pending bytes fails the assertion in `flush`: those w bytes are in the file and nothing else changes; `writec` on a full cache and a write-mode seek abort with it |
| Io61Properties.WriteShortFlushAborts | psets/pset4/io61.cc:200-218 | a short `write` in the flush of the filling case of `io61_write`, or in the flush before its direct case, aborts the write |
| Io61Properties.WritecAppends | psets/pset4/io61.cc:158-172 | `writec` writes `ch` as an unsigned char at `pos_tag` of the logical file, advances by one and returns 0, flushing first when the cache is full |
| Io61Properties.WritecError | psets/pset4/io61.cc:162-165 | a full cache whose flush fails makes `writec` return -1 and change nothing |
| Io61Properties.WriteAppends | psets/pset4/io61.cc:181-225 | in each of the three cases, `write` puts the data at `pos_tag` of the logical file, keeps `pos_tag == end_tag` and returns sz |
| Io61Properties.WriteFillFlushAppends | psets/pset4/io61.cc:201-211 | the fill/flush/refill case writes the data in order and returns sz |
| Io61Properties.ComposeAt | psets/pset4/io61.cc:203-211 | writing `data[..e]` and then `data[e..]` right after it is writing data |
| Io61Properties.WriteDirectAppends | psets/pset4/io61.cc:212-222 | the direct case flushes, then writes all of the data after what was written before, and sets every tag to `end_tag + sz` |
| Io61Properties.WriteDirectShort | psets/pset4/io61.cc:217-221 | a direct `write` that writes only w bytes makes `io61_write` return w; exactly those bytes follow what was written before and the tags move by w |
| Io61Properties.WriteFlushErrorKeepsPart | psets/pset4/io61.cc:203-208 | as written: a write that fills the cache and then fails to flush returns -1, although its first part is now pending |
| Io61Properties.SeekWriteFlushes | psets/pset4/io61.cc:273-279 | a write-mode seek writes out what is pending, then moves the descriptor and every tag to pos |
| Io61Properties.SeekWriteDropsPending | psets/pset4/io61.cc:274 | as written: the flush result is ignored, so a failed flush still lets the seek return 0 and the pending bytes are lost |
| Io61File.File.constructor | psets/pset4/io61.cc:32-42 | the new file's state is `Open` over the descriptor's bytes |
| Io61File.File.CopyIn | psets/pset4/io61.cc:198-209 | `memcpy` into `buf` leaves `Splice` of the old bytes |
| Io61File.File.Refill | psets/pset4/io61.cc:118 | in place, the new state and the count are those of `Io61.Refill` |
| Io61File.File.Readc | psets/pset4/io61.cc:60-82 | in place, the new state and the character are those of `Io61.Readc`, so `ReadcFromFile` applies |
| Io61File.File.Read | psets/pset4/io61.cc:92-146 | in place, the new state, the result and the bytes handed out are those of `Io61.Read`, so `ReadFromFile` applies |
| Io61File.File.ReadRefill | psets/pset4/io61.cc:108-127 | in place, the result is `Io61.ReadRefill` |
| Io61File.File.FillAndCopy | psets/pset4/io61.cc:117-127 | in place, the result is `Io61.FillAndCopy` |
| Io61File.File.ReadDirect | psets/pset4/io61.cc:128-143 | in place, the result is `Io61.ReadDirect` |
| Io61File.File.Flush | psets/pset4/io61.cc:233-253 | in place, the new state and the result are those of `Io61.Flush`, so `FlushWritesPending` applies |
| Io61File.File.Append | psets/pset4/io61.cc:198-200 | in place, the new state is `Io61.Append` |
| Io61File.File.Writec | psets/pset4/io61.cc:153-173 | in place, the new state and the result are those of `Io61.Writec` |
| Io61File.File.Write | psets/pset4/io61.cc:181-225 | in place, the new state and the result are those of `Io61.Write`, so `WriteAppends` applies |
| Io61File.File.WriteFillFlush | psets/pset4/io61.cc:201-211 | in place, the result is `Io61.WriteFillFlush` |
| Io61File.File.WriteDirect | psets/pset4/io61.cc:212-222 | in place, the result is `Io61.WriteDirect` |
| Io61File.File.Seek | psets/pset4/io61.cc:260-281 | in place, the new state and the result are those of `Io61.Seek`; the file stays valid unless a negative pos was accepted and 0 returned |
| M61.Wrap | pset1/m61.cc:65-68 | unsigned 64-bit arithmetic: the result is in [0, 2^64) and equals x when x is already in range |
| M61.Top | pset1/m61.cc:74-75 | the corrected upper end of a block: at least ptr and at least its last byte `ptr + sz − 1` |
| M61.Reclaim | pset1/m61.cc:42 | `base_malloc` may reuse freed memory: exactly the headers the new region does not overlap remain, unchanged |
| M61.Neighbours | pset1/m61.cc:52-58 | an active block's `next` and `prev` are null or active, differ from the block and from each other, and `prev` is null exactly at `front` |
| M61.FrontLive | pset1/m61.cc:58 | `front` is null or an active block |
| M61.RecordAlloc | pset1/m61.cc:64-76 | the corrected statistics update: `ntotal`, `nactive` +1 and `total_size`, `active_size` +sz (mod 2^64); failure counts unchanged; `heap_min`/`heap_max` only widen and cover ptr and its last byte |
| M61.RecordAllocAsWritten | pset1/m61.cc:64-76 | the update exactly as written: the same as `RecordAlloc` for sz > 0. For sz == 0, `heap_max` can stay below ptr |
| M61.LinkFront | pset1/m61.cc:52-58 | the new header becomes the front, with `next` = old front and `prev` = null; the old front's `prev` points to it; nothing else changes |
| M61.MallocAsWritten | pset1/m61.cc:34-82 | `m61_malloc` as written: the same pointer, list and headers as `Malloc`, and the same result whenever sz > 0 or the call fails |
| M61.RecordFree | pset1/m61.cc:147-149 | `nactive` −1 and `active_size` −size (mod 2^64); every other statistic unchanged |
| M61.Unlink | pset1/m61.cc:136-145 | the block is marked freed, its predecessor's `next` skips it and its successor's `prev` points past it. No other header changes, and no block's contents change |
| M61.MulBound | pset1/m61.cc:167-168 | a request that passed the overflow test has `nmemb * sz` within `size_t` |
| M61.Zeros | pset1/m61.cc:176 | `memset(ptr, 0, n)`: n zero bytes |
| M61.CallocAsWritten | pset1/m61.cc:162-179 | `m61_calloc` exactly as written: the corrected `Calloc` whenever sz != 0 (a division by zero for sz == 0, see `CallocDividesByZero`) |
| M61Properties.RecordFreeTally | pset1/m61.cc:147-149 | `RecordFree` takes one block of its size off the active count and size |
| M61Properties.RecordAllocTally | pset1/m61.cc:64-68 | `RecordAlloc` adds one block of sz bytes to the active count and size |
| M61Properties.SizeSumRemove | pset1/m61.cc:149 | taking a block off the list takes its size off the size sum |
| M61Properties.MallocFails | pset1/m61.cc:77-80 | an oversized request or a null `base_malloc` returns null. It adds 1 to `nfail` and sz to `fail_size` (mod 2^64), changes nothing else, and keeps the invariants |
| M61Properties.MallocMem | pset1/m61.cc:45-62 | the new header records its own address as checksum, the size, the site, `next` = old front, `prev` = null, not freed, and the terminator after the data. The old front's `prev` becomes the new block, and no other header changes |
| M61Properties.MallocChain | pset1/m61.cc:52-58 | after a malloc, `next`/`prev` of every block follow the list with the new block in front |
| M61Properties.MallocListed | pset1/m61.cc:52-58 | the new list has no repeats, and holds exactly the active blocks |
| M61Properties.MallocLinks | pset1/m61.cc:52-58 | a successful malloc leaves the heap linked as `[new] + old list` |
| M61Properties.MallocStats | pset1/m61.cc:60-76 | the pointer is one header past the block. The four counts and sizes grow by one block of sz bytes, the failure counts are unchanged, and `heap_min`/`heap_max` widen to the pointer and its end |
| M61Properties.MallocTally | pset1/m61.cc:65-68 | after a malloc, `nactive` and `active_size` still count the listed blocks and their sizes |
| M61Properties.MallocCovers | pset1/m61.cc:70-76 | `[heap_min, heap_max]` still covers every active block |
| M61Properties.MallocCounted | pset1/m61.cc:34-82 | a successful malloc keeps the whole invariant for the new list |
| M61Properties.MallocSucceeds | pset1/m61.cc:34-82 | a successful malloc keeps the invariant. The statistics grow by the block, the bounds only widen and cover `[ptr, ptr + sz − 1]`, and the block holds its data, terminator and site. Other blocks are unchanged |
| M61Properties.Without | pset1/m61.cc:136-145 | the list with position i removed keeps the order of the others |
| M61Properties.LiveHeader | pset1/m61.cc:45-50 | a listed block has a well-formed header, is not freed, and its pointer is a non-null address |
| M61Properties.LinkedChained | pset1/m61.cc:52-58 | a linked heap's list is without repeats and non-null, and each block's links point to its list neighbours |
| M61Properties.UnlinkReady | pset1/m61.cc:138-145 | in a chained list a block's links are its list neighbours, which are in memory and distinct |
| M61Properties.WithoutNeighbours | pset1/m61.cc:138-145 | the neighbours in the shortened list are the old ones, except around the removed position |
| M61Properties.UnlinkAt | pset1/m61.cc:136-145 | after `Unlink`, each remaining block links to its neighbours in the shortened list |
| M61Properties.FreeChain | pset1/m61.cc:136-145 | after `m61_free` of an active block, every remaining block links to its neighbours in the shortened list |
| M61Properties.WithoutMembers | pset1/m61.cc:136-145 | removing a position from a list without repeats keeps it without repeats and removes exactly that element |
| M61Properties.FreeParts | pset1/m61.cc:90-152 | freeing a releasable block succeeds. The statistics become `RecordFree`, `front` becomes the next block when the freed block was the front, and only the freed block changes its freed flag |
| M61Properties.FreeListed | pset1/m61.cc:136-145 | after the free the shortened list holds exactly the active blocks, and the freed block is not active |
| M61Properties.FreeFront | pset1/m61.cc:138-142 | after the free `front` is the head of the shortened list, and every header is still well formed |
| M61Properties.FreeTally | pset1/m61.cc:147-149 | after the free, `nactive`/`active_size` count the shortened list |
| M61Properties.FreeCovers | pset1/m61.cc:90-152 | the free leaves the bounds and the sizes alone, so the bounds still cover the remaining blocks |
| M61Properties.FreeLinks | pset1/m61.cc:136-145 | the free leaves the heap linked as the shortened list; the remaining blocks keep their order |
| M61Properties.FreeCounted | pset1/m61.cc:90-152 | the free keeps the whole invariant for the shortened list |
| M61Properties.ActiveReleasable | pset1/m61.cc:95-104 | every block on a valid list passes the range and checksum tests |
| M61Properties.FreeSucceeds | pset1/m61.cc:90-152 | freeing an active block with an intact terminator succeeds and keeps the invariants. The block is no longer active, `nactive` −1 and `active_size` −size, and no other statistic and no block's contents change |
| M61Properties.FreeStats | pset1/m61.cc:147-149 | the statistics and block contents after freeing an active block |
| M61Properties.FreeTwice | pset1/m61.cc:121-127 | freeing the same block again is reported as a double free, and nothing changes |
| M61Properties.FreeUnknown | pset1/m61.cc:95-120 | a pointer with no header before it aborts as "not in heap" or "not allocated", and nothing changes |
| M61Properties.FreeAborts | pset1/m61.cc:93-151 | every failed check leaves the allocator untouched, and `m61_free(nullptr)` changes nothing |
| M61Properties.RecordRoundTrip | pset1/m61.cc:147-149 | the free's statistics update undoes the malloc's active count and size and keeps its totals |
| M61Properties.MallocThenFree | pset1/m61.cc:34-152 | `m61_free(m61_malloc(sz))` succeeds and restores `nactive`, `active_size` and `front`; the totals keep the allocation |
| M61Properties.ZeroSizeFreeAborts | pset1/m61.cc:74-99 | as written: a first `m61_malloc(0)` sets `heap_max` one below its pointer, so freeing that pointer aborts "not in heap". With the corrected update the free succeeds |
| M61Properties.Poke | pset1/m61.cc:62 | a program store into a block's data, or past it over its terminator, changes only that byte of that block |
| M61Properties.Relabel | pset1/m61.cc:45-58 | the invariants read only the statistics, the front and each header's links, sizes and shape |
| M61Properties.PokeValid | pset1/m61.cc:62 | stores into an active block keep the invariants |
| M61Properties.WildWriteDetected | pset1/m61.cc:128-134 | a store over the terminator that changes it makes the free abort with "wild write" and nothing changed; a store inside the data does not, and the free succeeds |
| M61Properties.CallocTestExact | pset1/m61.cc:167 | for sz > 0, the test `nmemb <= SIZE_MAX / sz` admits exactly the requests whose product fits in `size_t` |
| M61Properties.CallocZeroes | pset1/m61.cc:162-179 | a successful calloc is a malloc of `nmemb * sz` bytes with the same statistics, whose data are all zero |
| M61Properties.ReplaceData | pset1/m61.cc:176 | replacing a block's data with as many bytes keeps the invariants |
| M61Properties.CallocShape | pset1/m61.cc:167-177 | calloc returns malloc's pointer and differs from it only in the new block's bytes, which are zero |
| M61Properties.CallocZeroSize | pset1/m61.cc:157-158 | the corrected `m61_calloc(nmemb, 0)` returns a fresh non-null pointer when `base_malloc` supplies memory |
| M61Properties.CallocOverflow | pset1/m61.cc:169-173 | an overflowing calloc returns null and adds 1 to `nfail`, but nothing to `fail_size`; nothing else changes |
| M61Properties.CallocDividesByZero | pset1/m61.cc:167 | as written: `m61_calloc` with sz == 0 divides by zero whatever nmemb is. The corrected `Calloc` returns malloc's pointer instead |
| M61Properties.ReportLists | pset1/m61.cc:208-213 | the leak report has one line per listed block, front first, with its pointer, size and allocation site |
| M61Properties.ReportIsActive | pset1/m61.cc:208-213 | on a valid heap, the report names exactly the active blocks, and `nactive` is its length mod 2^64 |
| M61Properties.InsideIff | pset1/m61.cc:109-117 | the blocks the not-allocated diagnostic names are exactly the listed blocks that strictly contain the pointer |
| M61Alloc.ReportStep | pset1/m61.cc:209 | one step of the leak-report walk appends one line |
| M61Alloc.InsideStep | pset1/m61.cc:110-117 | one step of the diagnostic's walk appends the block when it contains the pointer |
| M61Alloc.Walkable | pset1/m61.cc:209 | walking `next` from `front` visits the listed blocks in order and ends at null |
| M61Alloc.Releases | pset1/m61.cc:136-149 | freeing an active block (found at position i) is the unlink plus the statistics update, and leaves the list without position i |
| M61Alloc.ListedAt | pset1/m61.cc:24 | every active block sits somewhere on the list |
| M61Alloc.FreeShape | pset1/m61.cc:136-149 | once the checks pass, `m61_free` is exactly `RecordFree`, the front update and `Unlink` |
| M61Alloc.RefillLinked | pset1/m61.cc:176 | overwriting a block's bytes leaves the list linked |
| M61Alloc.Allocator.constructor | pset1/m61.cc:24-26 | no blocks, and `g_stats` as initialised (`heap_min` = UINTPTR_MAX) |
| M61Alloc.Allocator.Malloc | pset1/m61.cc:34-82 | the new state and pointer are those of `M61.Malloc`; a success puts the block in front of the list |
| M61Alloc.Allocator.Free | pset1/m61.cc:90-152 | the new state and outcome are those of `M61.Free`. For "not allocated" it also returns the blocks the diagnostic names. A successful free removes exactly that block from the list |
| M61Alloc.Allocator.Release | pset1/m61.cc:136-149 | the unlinking and statistics updates in place: the state is `M61.Free`'s |
| M61Alloc.Allocator.InsideScan | pset1/m61.cc:110-117 | the loop collects exactly `Inside`: the listed blocks strictly containing the pointer |
| M61Alloc.Allocator.Calloc | pset1/m61.cc:162-179 | follows `CallocAsWritten`: sz == 0 traps on the division by zero and changes nothing; otherwise the state and pointer are the calloc's |
| M61Alloc.Allocator.CallocSized | pset1/m61.cc:166-178 | with a nonzero sz, the new state and pointer are those of the corrected `M61.Calloc`, and a success puts the block in front of the list |
| M61Alloc.Allocator.GetStatistics | pset1/m61.cc:185-187 | a copy of `g_stats` |
| M61Alloc.Allocator.LeakReport | pset1/m61.cc:208-213 | walking `next` from `front` gives `Report` of the list, which `ReportIsActive` relates to the active blocks |
| WeensyCommon.NextPage | kernel4/kernel.cc:70-73 | stepping a page-aligned address by `PAGESIZE` stays page-aligned |
| WeensyCommon.RoundDown | kernel8/kernel.cc:142 | `round_down(a, PAGESIZE)` is the page-aligned address of the page holding `a` |
| WeensyCommon.CyclicFirst | psets/pset3/kernel.cc:122-133 | a cyclic scan of `k` slots from `first`; a result it returns is a slot whose test holds |
| WeensyCommon.CyclicFirstSpec | psets/pset3/kernel.cc:122-133 | the scan returns the first slot, in cyclic order from `first`, whose test holds, and returns nothing exactly when none of the `k` probed slots passes |
| WeensyCommon.CyclicFirstStable | psets/pset3/kernel.cc:122-133 | once a slot is found, scanning further finds the same slot |
| WeensyCommon.CyclicFirstFullCycle | psets/pset3/kernel.cc:122-133 | a scan over the whole cycle finds nothing iff no slot passes its test |
| WeensyCommon.RunnableMask | kernel4/kernel.cc:279-290 | slot `p` is marked iff process `p` is `P_RUNNABLE` |
| WeensyCommon.NextRunnableRoundRobin | kernel4/kernel.cc:279-290 | `schedule` picks the first runnable pid after the current one in round-robin order; it finds none iff no process is runnable (the source then spins) |
| WeensyCommon.ScanRunnable | kernel4/kernel.cc:279-290 | the loop over `(pid + 1) % NPROC` returns the slot the round-robin order picks |
| WeensyCommon.FreeMask | psets/pset3/kernel.cc:122-133 | page `pn` is free iff it is allocatable and its refcount is 0 |
| WeensyCommon.SegImage | kernel4/kernel.cc:125-128 | a segment's image in memory has the segment's size |
| WeensyCommon.Splice | kernel4/kernel.cc:125-128 | writing a block at an address changes exactly those bytes to the block's and keeps every other byte |
| WeensyCommon.Memset | kernel4/kernel.cc:126 | `memset(p, v, n)` sets bytes `p .. p+n` to `v` and leaves every other byte |
| WeensyCommon.Memcpy | kernel4/kernel.cc:127 | `memcpy(p, data, n)` writes `data` at `p` and leaves every other byte |
| WeensyCommon.KernelPartStep | kernel8/kernel.cc:109-113 | one step of the loop copying the kernel's mappings below `PROC_START_ADDR` keeps the copied prefix equal to the kernel table's |
| WeensyCommon.KernelRangeStep | kernel4/kernel.cc:70-80 | one step of kernel_start's page-table loop maps the next address as the source's three branches say and keeps every other entry |
| WeensyCommon.KernelRangeDone | kernel4/kernel.cc:70-80 | at the end of the loop every physical address has its kernel mapping and the entries above physical memory are unchanged |
| WeensyCommon.MapKernelRange | kernel4/kernel.cc:70-80 | kernel_start's loop: the console page is present, writable and user-accessible; every other nonzero physical page is present and writable (and in pset3 user-accessible from `PROC_START_ADDR`); address 0 is unmapped; nothing above physical memory changes |
| WeensyCommon.KernelMappedAccessible | kernel4/kernel.cc:259-264 | under the kernel page table a byte range is accessible to the kernel iff every page it touches is present, so a user buffer including address 0 faults |
| WeensyCommon.LastCover | kernel4/kernel.cc:113-128 | the last segment covering an address, or none when no segment covers it |
| WeensyCommon.LastCoverSnoc | kernel4/kernel.cc:113-122 | appending a segment makes it the last cover of what it covers and leaves the rest |
| WeensyCommon.StackInWindow | kernel4/kernel.cc:134-138 | the stack page, one page below the window's end, is a page-aligned page of the process's window |
| WeensyCommon.IdentityInit | kernel4/kernel.cc:113-122 | before the mapping loop nothing is mapped for the process and the refcounts are the initial ones |
| WeensyCommon.IdentityStart | kernel4/kernel.cc:114 | a segment's page loop starts at the page holding its first address |
| WeensyCommon.IdentityStep | kernel4/kernel.cc:115-121 | mapping one unused page of a segment identity-maps it present, writable and user-accessible with refcount 1 and extends the mapped set by that page |
| WeensyCommon.IdentityPoint | kernel4/kernel.cc:115-121 | after one step every virtual address is mapped exactly as the extended loop state says |
| WeensyCommon.IdentityDone | kernel4/kernel.cc:113-122 | once the loop passes a segment's end the whole segment is mapped |
| WeensyCommon.LoadIdentity | kernel4/kernel.cc:125-128 | the copy loop's result keeps the memory's size |
| WeensyCommon.IdentityLoaded | kernel4/kernel.cc:125-128 | after the copy loop the last segment's bytes are its data followed by zeros up to its size |
| WeensyCommon.IdentityLoadFrame | kernel4/kernel.cc:125-128 | a byte that no segment covers is not changed by the copy loop |
| WeensyCommon.LoadIdentityStep | kernel4/kernel.cc:125-128 | one more segment of the copy loop is the memset-then-memcpy of that segment on the previous memory |
| WeensyCommon.LoadSegmentAt | kernel4/kernel.cc:126-127 | memset then memcpy writes one segment's image at its own address and nothing else |
| WeensyCommon.LoadIdentitySegments | kernel4/kernel.cc:125-128 | the copy loop succeeds iff every segment lies in kernel-accessible memory, and then memory is the reference copy of all segments in order |
| Kernel4.Kernel.constructor | kernel4/kernel.cc:56-89 | kernel_start's state before any process: every slot has its own pid and is `P_FREE`, no page is in use, ticks is 1 |
| Kernel4.Kernel.InitKernelPagetable | kernel4/kernel.cc:70-80 | the kernel page table maps the physical range as kernel_start's loop says and keeps everything above it |
| Kernel4.Kernel.SetProc | kernel4/kernel.cc:141 | writes one process descriptor and changes no other |
| Kernel4.Kernel.InstallPage | kernel4/kernel.cc:118-121 | one page gets refcount 1 and its identity mapping; no other page or entry changes |
| Kernel4.Kernel.MapIdentityPage | kernel4/kernel.cc:115-121 | the loop body succeeds iff the page was unused (the source's assertion), and then extends the identity mapping by that page |
| Kernel4.Kernel.MapIdentitySegment | kernel4/kernel.cc:114-122 | mapping a whole segment, when it succeeds, adds the segment to the identity-mapped set |
| Kernel4.Kernel.MapIdentitySegments | kernel4/kernel.cc:113-122 | process_setup's mapping loop, when it succeeds, identity-maps every page of every segment, each with refcount 1 |
| Kernel4.Kernel.MapStack | kernel4/kernel.cc:134-138 | the stack page below the window's end is identity-mapped with refcount 1 |
| Kernel4.Kernel.ProcessSetup | kernel4/kernel.cc:97-142 | when no assertion fails: every segment page and the stack page are identity-mapped, memory holds the program's segments, and the slot is `P_RUNNABLE` with `rip` the entry point, `rsp` the window's end and the kernel page table |
| Kernel4.Kernel.Run | kernel4/kernel.cc:297-311 | a runnable process is resumed and becomes current; otherwise the assertion halts the kernel |
| Kernel4.Kernel.Schedule | kernel4/kernel.cc:279-290 | resumes the round-robin choice after the current process, or idles when none is runnable |
| Kernel4.Kernel.Exception | kernel4/kernel.cc:157-218 | the registers are saved into the current slot; a timer interrupt bumps ticks and schedules; every other exception panics |
| Kernel4.Kernel.GetSysname | kernel4/kernel.cc:259-264 | the NUL-terminated name is copied to the user buffer and 0 returned when the buffer is kernel-accessible; otherwise the kernel faults and memory is unchanged |
| Kernel4.Kernel.Syscall | kernel4/kernel.cc:229-272 | the registers are saved in the current slot; PANIC and any unknown number halt with the table otherwise untouched; GETPID returns the pid; YIELD stores `rax = 0` and schedules; GETSYSNAME returns 0 with the name and its NUL spliced into memory at `rdi` when that buffer is kernel-accessible, else faults; memory changes only under GETSYSNAME |
| Kernel8.StrncpyImage | kernel8/kernel.cc:323-329 | `strncpy(buf, osname, bufsz)` writes exactly `bufsz` bytes: a prefix of the name when it does not fit, otherwise the name padded with NULs |
| Kernel8.SysnameTerminated | kernel8/kernel.cc:323-329 | the copied name is NUL-terminated iff the buffer is longer than the name; a buffer of at most 12 bytes receives no terminator |
| Kernel8.FirstFitLowest | kernel8/kernel.cc:186-193 | kalloc's scan from address 0 finds the lowest free page, and finds none iff no page is free |
| Kernel8.LowTableExists | kernel8/kernel.cc:106-116 | a user page table that holds the kernel's low mappings has its low-region table allocated |
| Kernel8.Kernel.constructor | kernel8/kernel.cc:57-87 | kernel_start's state before any process: every slot has its own pid and is `P_FREE`, no page is in use, the pipe is empty, ticks is 1 |
| Kernel8.Kernel.InitKernelPagetable | kernel8/kernel.cc:68-81 | the kernel page table maps the physical range as kernel_start's loop says and keeps everything above it |
| Kernel8.Kernel.KAlloc | kernel8/kernel.cc:184-196 | a request above a page, or no free page, returns null and changes nothing; otherwise the lowest free page is returned with refcount 1 and filled with `0xCC` |
| Kernel8.Kernel.FindFirstFree | kernel8/kernel.cc:186-193 | the loop returns the lowest free page number, or -1 iff there is none |
| Kernel8.Kernel.KAllocPagetable | kernel8/kernel.cc:107 | a new page-table page comes from kalloc and is zeroed; null iff no page is free, and then nothing changes |
| Kernel8.Kernel.TryMap | kernel8/kernel.cc:149 | `vmiter::map` sets exactly one entry (or clears it for a non-present entry); it fails with -1, changing nothing, only when the needed table page cannot be allocated |
| Kernel8.Kernel.KallocUserPagetable | kernel8/kernel.cc:106-116 | a null root leaves memory and refcounts unchanged; on success the new table maps every address below `PROC_START_ADDR` as the kernel table does, and the refcounts and memory are the old ones with the first free page granted as the root and the next first free page as the low leaf table (refcount 1, zeroed), nothing else changed |
| Kernel8.Kernel.MapKernelPart | kernel8/kernel.cc:109-114 | the loop copies every kernel mapping below `PROC_START_ADDR` into the fresh table, keeping the root and leaving the second leaf slot empty; the only allocation is the low leaf table, granted as `kalloc_pagetable` grants pages (first free page, refcount 1, zeroed), and with no leaf table nothing changes |
| Kernel8.Kernel.SetProc | kernel8/kernel.cc:171 | writes one process descriptor and changes no other |
| Kernel8.Kernel.MapIdentityPage | kernel8/kernel.cc:145-149 | the loop body succeeds iff the page was unused (the source's assertion), and then extends the identity mapping in the process's own table by that page |
| Kernel8.Kernel.MapIdentitySegment | kernel8/kernel.cc:142-150 | mapping a whole segment, when it succeeds, adds the segment to the identity-mapped set |
| Kernel8.Kernel.MapIdentitySegments | kernel8/kernel.cc:141-151 | process_setup's mapping loop, when it succeeds, identity-maps every page of every segment user-accessible with refcount 1 |
| Kernel8.Kernel.MapStack | kernel8/kernel.cc:164-168 | the stack page below the window's end is identity-mapped with refcount 1 |
| Kernel8.Kernel.ProcessSetup | kernel8/kernel.cc:125-172 | when nothing fails: `r1` and `mapped` are the old refcounts and memory with only the two table pages granted and zeroed; the process table holds the kernel's low mappings, every segment page and the stack page are identity-mapped, memory is `mapped` with the segments loaded, and the slot is `P_RUNNABLE` with `rip` the entry point and `rsp` the window's end |
| Kernel8.Kernel.Run | kernel8/kernel.cc:419-433 | a runnable process is resumed and becomes current; otherwise the assertion halts the kernel |
| Kernel8.Kernel.Schedule | kernel8/kernel.cc:401-412 | resumes the round-robin choice after the current process, or idles when none is runnable |
| Kernel8.Kernel.ResumeOrSchedule | kernel8/kernel.cc:274-278 | the current process is resumed if still runnable; otherwise the scheduler runs |
| Kernel8.Kernel.Exception | kernel8/kernel.cc:211-279 | the registers are saved; a timer interrupt bumps ticks and schedules; a fault from user mode marks the process `P_BROKEN` and schedules; a fault in kernel mode panics |
| Kernel8.Kernel.PipeWrite | kernel8/kernel.cc:356-372 | size 0 returns 0; a full one-byte buffer returns -1; otherwise the user's first byte enters the buffer and 1 is returned |
| Kernel8.Kernel.PipeRead | kernel8/kernel.cc:378-394 | size 0 returns 0; an empty buffer returns -1; otherwise the buffered byte is written to the user's buffer, the buffer empties and 1 is returned |
| Kernel8.Kernel.GetSysname | kernel8/kernel.cc:323-330 | the `strncpy` image of the name is written to the user buffer and the name's length 12 returned, whatever the buffer size; an inaccessible buffer faults |
| Kernel8.Kernel.Syscall | kernel8/kernel.cc:290-344 | the registers are saved in the current slot; PANIC and unknown numbers halt; GETPID, GETTICKS and YIELD return the pid, the tick count, or schedule with `rax = 0`, leaving memory and the pipe alone; GETSYSNAME writes the `strncpy` image of the name at `rdi` when accessible and leaves the pipe alone; PIPEWRITE leaves memory alone and on 1 holds the user byte in the buffer; PIPEREAD leaves the buffer alone and on 1 writes the old byte at `rdi` and empties it; any other result leaves the pipe unchanged |
| Pset3Kernel.StartPage | psets/pset3/kernel.cc:120-122 | the page number the scan starts from is a page of physical memory (a `start` at `MEMSIZE_PHYSICAL` wraps to page 0) |
| Pset3Kernel.KFreed | psets/pset3/kernel.cc:142-148 | `kfree(pa)` decrements the refcount of `pa`'s page by one, never below 0, and ignores null; no other page changes |
| Pset3Kernel.FreeSlotMask | psets/pset3/kernel.cc:377-382 | slot `i + 1` is a candidate for fork iff it is `P_FREE` |
| Pset3Kernel.ForkSlot | psets/pset3/kernel.cc:377-382 | a slot found for the child is a `P_FREE` pid in `1 .. NPROC-1` |
| Pset3Kernel.ForkSlotLowest | psets/pset3/kernel.cc:377-387 | the child's slot is the lowest free pid from 1, and there is none iff no slot from 1 is free |
| Pset3Kernel.KallocScanAsWritten | psets/pset3/kernel.cc:120-133 | kalloc's loop exactly as written, with `pa` wrapping to 0 and stopping only when `pa + PAGESIZE == start`; a page it returns is free (`None` is a loop that does not stop within the fuel) |
| Pset3Kernel.KallocAsWrittenHangs | psets/pset3/kernel.cc:120-133 | with `start == 0` and no free page, the loop as written never stops, whatever the fuel |
| Pset3Kernel.KallocScanAsWrittenAgrees | psets/pset3/kernel.cc:120-133 | in every other case (a nonzero `start`, or some page free) the loop as written stops with the same page as the cyclic first-fit scan, or null when the scan finds none |
| Pset3Kernel.LoadImage | psets/pset3/kernel.cc:187-191 | the copy loop's result keeps the memory's size |
| Pset3Kernel.LastSegmentLoaded | psets/pset3/kernel.cc:187-191 | after the copy loop the last segment's image lies at the kernel address of its first virtual address |
| Pset3Kernel.KernelPartDone | psets/pset3/kernel.cc:161-166 | once the kernel's low mappings are copied, the table maps no program segment yet |
| Pset3Kernel.SegmentPagesHeldGrows | psets/pset3/kernel.cc:172-184 | a segment page keeps being held while refcounts only grow |
| Pset3Kernel.SegPartDone | psets/pset3/kernel.cc:172-184 | when a segment's page loop passes its end, the segment is mapped with its permissions and its pages are held |
| Pset3Kernel.Kernel.ZeroedFreePage | psets/pset3/kernel.cc:367 | zeroing a page that was free leaves it all zero and changes no byte of a page in use |
| Pset3Kernel.Kernel.CopiedPageKept | psets/pset3/kernel.cc:394-435 | a page the fork loop copied stays a copy while later iterations only touch free pages |
| Pset3Kernel.Kernel.ForkStopped | psets/pset3/kernel.cc:401-431 | a failing fork iteration leaves, from the start of the fork, memory in use unchanged and each refcount its old value plus the child's holdings (plus the orphan copy page when `try_map` failed after kalloc) |
| Pset3Kernel.Kernel.ForkInvStep | psets/pset3/kernel.cc:394-435 | one successful iteration of the copy loop extends the forked prefix of the child's address space by one page |
| Pset3Kernel.Kernel.ForkInvDone | psets/pset3/kernel.cc:394-435 | a copy loop that reaches `MEMSIZE_VIRTUAL` has forked the whole address space |
| Pset3Kernel.Kernel.constructor | psets/pset3/kernel.cc:56-87 | kernel_start's state before any process: every slot has its own pid and is `P_FREE`, no page is in use, kalloc starts at 0, ticks is 1 |
| Pset3Kernel.Kernel.InitKernelPagetable | psets/pset3/kernel.cc:68-81 | the kernel page table maps the physical range as kernel_start's loop says, user-accessible from `PROC_START_ADDR` and at the console, and keeps everything above it |
| Pset3Kernel.Kernel.KAlloc | psets/pset3/kernel.cc:115-135 | a request above a page, or no free page, returns null and changes nothing; otherwise the first free page cyclically from `start` is returned, refcount 1, and `start` moves past it; no page in use changes |
| Pset3Kernel.Kernel.FindFreePage | psets/pset3/kernel.cc:122-133 | the scan returns the first free page cyclically from `start`, or -1 iff there is none |
| Pset3Kernel.Kernel.GrantPage | psets/pset3/kernel.cc:125-130 | a free page gets refcount 1 and `start` moves past it; no page in use changes |
| Pset3Kernel.Kernel.KFree | psets/pset3/kernel.cc:142-148 | the refcounts become `KFreed` of the old ones |
| Pset3Kernel.Kernel.TryMap | psets/pset3/kernel.cc:362 | `try_map` sets exactly one entry (or clears it for a non-present entry); it returns -1, changing nothing, only when the needed table page cannot be allocated; no page in use changes |
| Pset3Kernel.Kernel.FindFreeSlot | psets/pset3/kernel.cc:376-382 | the loop returns the lowest free pid from 1, or -1 iff there is none |
| Pset3Kernel.Kernel.Fork | psets/pset3/kernel.cc:375-445 | no free slot returns -1 and changes nothing; success returns the child's pid, the child is the parent's registers with `rax = 0`, `P_RUNNABLE`, and its address space shares the kernel part and read-only user pages and holds fresh copies of writable user pages; a failure returns -1 with every refcount from page 1 at its old value; no page in use changes |
| Pset3Kernel.Kernel.ForkInto | psets/pset3/kernel.cc:389-444 | fork once the free slot `pid` is chosen: `pid` returned means the slot holds the parent's registers with `rax = 0`, `P_RUNNABLE`, and a `ForkedSpace` copy of the parent's space; -1 means only that slot's page table changed and every refcount from page 1 is back at its old value; no page in use changes |
| Pset3Kernel.Kernel.ForkChild | psets/pset3/kernel.cc:394-444 | the copy loop and the child's registers: on a failure the slot is freed again (`syscall_exit`) and every refcount from page 1 is back to its value before fork |
| Pset3Kernel.Kernel.SetProc | psets/pset3/kernel.cc:438-442 | writes one process descriptor and changes no other |
| Pset3Kernel.Kernel.ForkUnwind | psets/pset3/kernel.cc:400-431 | the failure path: `syscall_exit(pid)` and `kfree(ptr)` bring every refcount from page 1 back to its value before fork and free the slot |
| Pset3Kernel.Kernel.CopyAddressSpace | psets/pset3/kernel.cc:394-435 | the copy loop over the whole address space: it either forks all of it, or stops at a failure with the refcounts the unwinding expects |
| Pset3Kernel.Kernel.ForkRound | psets/pset3/kernel.cc:397-433 | one round of the copy loop carries the fork invariant from `va` to `va + PAGESIZE` when it maps; when it stops, the references are those the partial child table holds (plus the orphan copy page) and memory in use is kept |
| Pset3Kernel.Kernel.ForkStep | psets/pset3/kernel.cc:397-434 | one iteration: below `PROC_START_ADDR` the parent's entry is shared; a read-only user page is shared with its refcount raised; a writable user page is replaced by a fresh copy; other addresses stay unmapped |
| Pset3Kernel.Kernel.ForkShare | psets/pset3/kernel.cc:397-433 | a shared page enters the child with the parent's exact entry; a user page's refcount goes up by one |
| Pset3Kernel.Kernel.ForkCopy | psets/pset3/kernel.cc:406-423 | a writable page is copied into a page that was free, mapped with the parent's permissions; kalloc failing returns with nothing changed, `try_map` failing leaves the copy page as an orphan to free |
| Pset3Kernel.Kernel.AllocCopy | psets/pset3/kernel.cc:407-415 | a fresh page from kalloc receives the page's bytes, or null with nothing changed |
| Pset3Kernel.Kernel.CopyPage | psets/pset3/kernel.cc:415 | `memcpy(dst, src, PAGESIZE)` writes the source page at the destination and changes no other byte |
| Pset3Kernel.Kernel.Exit | psets/pset3/kernel.cc:451-468 | every page's refcount drops by the number of references the process's table held to it (user pages, table pages, root), and the slot becomes `P_FREE` |
| Pset3Kernel.Kernel.FreeUserPages | psets/pset3/kernel.cc:453-459 | each user mapping from `PROC_START_ADDR` is kfreed once |
| Pset3Kernel.Kernel.FreeTables | psets/pset3/kernel.cc:462-465 | each leaf table page, then the root, is kfreed once |
| Pset3Kernel.Kernel.ZeroPage | psets/pset3/kernel.cc:367 | the page is zeroed and no other byte changes |
| Pset3Kernel.Kernel.PageAlloc | psets/pset3/kernel.cc:351-369 | a misaligned address or one outside `[PROC_START_ADDR, MEMSIZE_VIRTUAL)` returns -1 and changes nothing; success maps a zeroed page that was free at `addr`, writable and user-accessible, after kfreeing the old mapping; any failure returns -1 with refcounts and the process table unchanged |
| Pset3Kernel.Kernel.PageAllocMap | psets/pset3/kernel.cc:360-368 | after kalloc: the old page is kfreed and the new one mapped and zeroed, or all of it undone |
| Pset3Kernel.Kernel.PageAllocRemap | psets/pset3/kernel.cc:362-368 | `try_map` then memset, or kfree of the new page on failure; the kfree of the old mapping is undone too on failure |
| Pset3Kernel.Kernel.InstallZeroed | psets/pset3/kernel.cc:367 | the process's table is replaced and the new page zeroed; nothing else changes |
| Pset3Kernel.Kernel.Run | psets/pset3/kernel.cc:498-512 | a runnable process is resumed and becomes current; otherwise the assertion halts the kernel |
| Pset3Kernel.Kernel.Schedule | psets/pset3/kernel.cc:474-491 | resumes the round-robin choice after the current process, or idles when none is runnable |
| Pset3Kernel.Kernel.ResumeOrSchedule | psets/pset3/kernel.cc:276-280 | the current process is resumed if still runnable; otherwise the scheduler runs |
| Pset3Kernel.Kernel.Exception | psets/pset3/kernel.cc:220-281 | the registers are saved; a timer interrupt bumps ticks and schedules; a user-mode page fault marks the process `P_BROKEN` and schedules; anything else panics |
| Pset3Kernel.Kernel.Syscall | psets/pset3/kernel.cc:296-343 | the registers are saved in the current slot; PANIC and unknown numbers halt with the table and refcounts otherwise untouched; GETPID returns the pid; YIELD stores `rax = 0` and schedules; PAGE_ALLOC has `PageAllocEffect` and FORK `ForkEffect` (the contracts of `PageAlloc` and `Fork`); EXIT drops each refcount by the references the space held, frees the slot and schedules; memory and the allocator cursor change only under PAGE_ALLOC and FORK |
| Pset3Kernel.Kernel.MapFreshPage | psets/pset3/kernel.cc:176-179 | a fresh page from kalloc, unchecked as in the source (also at 198-201), is mapped at `va` with the given permissions |
| Pset3Kernel.Kernel.SetupKernelPart | psets/pset3/kernel.cc:160-166 | the new table holds the kernel's mappings below `PROC_START_ADDR` and no user mapping |
| Pset3Kernel.Kernel.CopyKernelEntry | psets/pset3/kernel.cc:165 | one round maps `va` in the new table to the kernel's own entry for it (or leaves it unmapped when that entry is not present); reference counts only grow and memory in use is kept |
| Pset3Kernel.Kernel.MapSegment | psets/pset3/kernel.cc:173-183 | every page of one segment is mapped, writable iff the segment is, and held |
| Pset3Kernel.Kernel.MapSegmentPage | psets/pset3/kernel.cc:175-182 | one page of a segment is mapped and held |
| Pset3Kernel.Kernel.MapSegments | psets/pset3/kernel.cc:172-184 | every page of every segment is mapped with its segment's permissions and held |
| Pset3Kernel.Kernel.LoadSegment | psets/pset3/kernel.cc:187-191 | one segment's copy succeeds iff its kernel address range is accessible, and writes its image there |
| Pset3Kernel.Kernel.LoadSegments | psets/pset3/kernel.cc:187-191 | the copy loop succeeds iff every segment is loadable, and then memory is the reference image |
| Pset3Kernel.Kernel.BuildPagetable | psets/pset3/kernel.cc:160-184 | the new table has the kernel part and every segment mapped and held; no page in use changes |
| Pset3Kernel.Kernel.ProcessSetup | psets/pset3/kernel.cc:156-205 | on success: the table has the kernel part and all segments, memory holds the segments at their mapped pages, the stack page is mapped at `MEMSIZE_VIRTUAL - PAGESIZE`, and the slot is `P_RUNNABLE` with `rip` the entry and `rsp` `MEMSIZE_VIRTUAL`; failure changes no slot |
| Pong61.CString | pset6/pong61.cc:272-276 | a C string is never longer than its buffer |
| Pong61.DigitRun | pset6/pong61.cc:572 | the digits `strtoul` can read are a prefix of the input |
| Pong61.StrToUL | pset6/pong61.cc:572 | `strtoul(s, nullptr, 0)` yields a value within `ULONG_MAX` |
| Pong61.FindCRLF | pset6/pong61.cc:556-583 | the header loop's scan finds the first CR LF at or after `i`, and -1 means there is none |
| Pong61.FirstCRLFAt | pset6/pong61.cc:556-583 | a CR LF with none before it is the one the scan finds |
| Pong61.NoCRLF | pset6/pong61.cc:557-558 | the loop's `i + 2 <= len_` test: with no CR LF before `i` and no room after it, no line is complete |
| Pong61.ConsumeAt | pset6/pong61.cc:559-579 | consuming the line before the first CR LF, then moving the rest down, continues the header loop unchanged |
| Pong61.HeaderLineKeepsData | pset6/pong61.cc:560-574 | parsing a header line changes only the status, the state and the length fields, never the buffered bytes |
| Pong61.ConsumeShape | pset6/pong61.cc:556-583 | the header loop keeps the EOF flag, keeps a suffix of the bytes, and stops while the headers are still open only when no complete line is left |
| Pong61.ProcessHeadersShape | pset6/pong61.cc:555-589 | `process_response_headers` asks for more only when not at EOF and no complete line is left; at EOF the connection is broken; the buffer keeps a suffix of its bytes |
| Pong61.BeforeNewline | pset6/pong61.cc:272-275 | the text before the first newline: a prefix with no newline, followed by a newline when shorter |
| Pong61.Cut | pset6/pong61.cc:271-280 | `truncate_response` only overwrites bytes, so the buffer keeps its length |
| Pong61Connection.Connection.constructor | pset6/pong61.cc:78-97 | a fresh idle connection on the socket with a `BUFSIZ`-byte buffer and no data |
| Pong61Connection.Connection.SendRequest | pset6/pong61.cc:177-182 | after the request: the state is waiting, the status is -1, the length 0 with no Content-Length, and no bytes held |
| Pong61Connection.Connection.ShiftDown | pset6/pong61.cc:577 | `memmove` moves the bytes after the consumed line, and the NUL after them, to the front |
| Pong61Connection.Connection.ParseLine | pset6/pong61.cc:560-574 | the fields change exactly as the reference parse of the line says; the buffer does not |
| Pong61Connection.Connection.TakeLine | pset6/pong61.cc:559-579 | one iteration at the first CR LF: the line is parsed and dropped, and the rest of the loop's result is unchanged |
| Pong61Connection.Connection.ConsumeLines | pset6/pong61.cc:556-583 | the loop leaves the connection as the reference header loop does |
| Pong61Connection.Connection.ProcessHeaders | pset6/pong61.cc:555-589 | the new state and the result are the reference `process_response_headers` |
| Pong61Connection.Connection.CheckBody | pset6/pong61.cc:595-609 | the new state and the result are the reference `check_response_body` |
| Pong61Connection.Connection.Grow | pset6/pong61.cc:200-207 | the buffer is doubled when `len_ + BUFSIZ` exceeds its size, so a full read and its NUL fit; the held bytes are kept |
| Pong61Connection.Connection.ReadMore | pset6/pong61.cc:200-218 | grow, then take in what `read` returned: bytes are appended and NUL-terminated, 0 sets EOF, EINTR/EAGAIN changes nothing, another error exits |
| Pong61Connection.Connection.Truncate | pset6/pong61.cc:271-280 | the buffer's bytes become the reference cut and the text returned is the reference truncation of the C string |
| Pong61Connection.Connection.ReadHeaders | pset6/pong61.cc:199-228 | the read loop and the status test leave the state and the outcome of the reference loop over the given reads |
| Pong61Connection.Connection.ReceiveResponseHeaders | pset6/pong61.cc:190-229 | a broken or closed connection returns at once; otherwise as the reference `receive_response_headers` over the given reads |
| Pong61Connection.Connection.ReceiveResponseBody | pset6/pong61.cc:236-265 | a broken or closed connection returns at once; otherwise as the reference `receive_response_body` over the given reads |
| Pong61Properties.Dec | pset6/pong61.cc:563-564 | a decimal numeral: at least one digit, all digits, no leading zero |
| Pong61Properties.DecValue | pset6/pong61.cc:563-564 | the numeral denotes its number |
| Pong61Properties.CStringShape | pset6/pong61.cc:272-276 | the C string is the longest prefix without NUL |
| Pong61Properties.CStringWhole | pset6/pong61.cc:272-276 | a buffer with no NUL is all C string |
| Pong61Properties.CStringCut | pset6/pong61.cc:272-277 | writing a NUL inside a C string cuts it there |
| Pong61Properties.RunOf | pset6/pong61.cc:572 | the digit run of digits followed by a non-digit is exactly those digits |
| Pong61Properties.MagnitudeDec | pset6/pong61.cc:572 | the magnitude of a decimal numeral is its number |
| Pong61Properties.StrToULDec | pset6/pong61.cc:572 | `strtoul` reads back every decimal numeral up to `ULONG_MAX` |
| Pong61Properties.ScanDec | pset6/pong61.cc:563-564 | a `%d` conversion reads a decimal numeral followed by a non-digit and leaves the rest |
| Pong61Properties.StatusLineShape | pset6/pong61.cc:563-564 | a status line is "HTTP/1." then the minor version, a blank and the code |
| Pong61Properties.StatusLineScans | pset6/pong61.cc:561-568 | the `sscanf` test accepts every `HTTP/1.x` status line of section 6.1 of RFC 1945 and yields its code |
| Pong61Properties.NotHttp1Breaks | pset6/pong61.cc:561-568 | a first line that does not start with "HTTP/1." breaks the connection and nothing else changes |
| Pong61Properties.LeadingZeroIsOctal | pset6/pong61.cc:572 | base 0 reads "010" as 8, not the ten the Content-Length of section 10.4 of RFC 1945 means |
| Pong61Properties.MinusOneWraps | pset6/pong61.cc:572 | a Content-Length of "-1" wraps to `ULONG_MAX` |
| Pong61Properties.FirstCRLF | pset6/pong61.cc:556-583 | the header loop takes the line before the first CR LF and goes on with the rest |
| Pong61Properties.HeaderLineData | pset6/pong61.cc:560-574 | a line's effect does not depend on the bytes in the buffer |
| Pong61Properties.ConsumeLine | pset6/pong61.cc:559-579 | consuming "line CR LF rest" is parsing the line, then consuming the rest |
| Pong61Properties.FieldsIgnored | pset6/pong61.cc:569-574 | header fields other than Content-Length are skipped without effect |
| Pong61Properties.ContentLengthLine | pset6/pong61.cc:571-573 | a Content-Length field in any letter case sets the body length to `strtoul` of its value and sets its flag |
| Pong61Properties.EmptyLine | pset6/pong61.cc:569-570 | an empty line ends the headers and the bytes after it are the body |
| Pong61Properties.LengthLine | pset6/pong61.cc:571-573 | the exact field "Content-Length: n" sets the length to `n` |
| Pong61Properties.HeadPart | pset6/pong61.cc:556-583 | skipped fields, the Content-Length field and the empty line leave the body state with that length and the body bytes |
| Pong61Properties.ResponseParses | pset6/pong61.cc:555-589 | a well-formed response with a Content-Length is parsed into its status code, its length and its body, and the headers are done |
| Pong61Properties.ProcessHeadersIdempotent | pset6/pong61.cc:555-589 | processing again without new bytes changes nothing |
| Pong61Properties.BodyCompleteByLength | pset6/pong61.cc:596-600 | with a Content-Length, more is read iff fewer bytes than that are held; then the connection is idle |
| Pong61Properties.BodyDelimitedByClose | pset6/pong61.cc:596-608 | without a Content-Length the body ends exactly when the server closes, and the connection is then closed |
| Pong61Properties.ShortBodyBroken | pset6/pong61.cc:601-607 | a connection closed before the Content-Length bytes arrived is broken |
| Pong61Properties.EofFinishes | pset6/pong61.cc:601-608 | at EOF every connection ends closed or broken, with its bytes kept |
| Pong61Properties.CheckBodyIdempotent | pset6/pong61.cc:595-609 | checking again changes nothing |
| Pong61Properties.ResponseCompletes | pset6/pong61.cc:555-609 | a complete response leaves the connection idle with its status, length and body, ready for the next request |
| Pong61Properties.SendThenNothing | pset6/pong61.cc:177-182 | right after `send_request`, with no bytes yet, the header loop asks for more and changes nothing |
| Pong61Properties.GrowthRoom | pset6/pong61.cc:200-209 | after the growth test a read of `BUFSIZ - 1` bytes and its NUL fit, and the size either stays or doubles |
| Pong61Properties.HeadersLoopEnds | pset6/pong61.cc:199-228 | when `receive_response_headers` returns normally the headers are done, and it exits (overloaded) iff the status is 500 or more |
| Pong61Properties.BodyLoopEnds | pset6/pong61.cc:244-264 | when `receive_response_body` returns normally no body is pending |
| Pong61Properties.BodyLoopKeepsBytes | pset6/pong61.cc:254-263 | the reads append their bytes, in order, to the held bytes |
| Pong61Properties.TruncatedShape | pset6/pong61.cc:271-280 | the truncated text is a prefix of at most one line and at most 100 characters, and a short single line is kept whole |
| Pong61Properties.CutText | pset6/pong61.cc:271-280 | the bytes `truncate_response` leaves spell the truncated text |
| Sh61Common.PipelineEnd | psets/pset5/sh61.cc:280-282 | following `|` links from a command reaches a command of the list that is not linked by `|` |
| Sh61Common.CondType | psets/pset5/sh61.cc:238-246 | `get_cond_type` answers only `&&`, `||` or none |
| Sh61Common.CondTypeAtEnd | psets/pset5/sh61.cc:238-246 | `get_cond_type` is the link of the last command of the pipeline if that is `&&` or `||`, and none otherwise |
| Sh61Common.PipelineMembersRange | psets/pset5/sh61.cc:222-231 | `run_pipeline` starts exactly the commands from `c` to the end of its pipeline, in order |
| Sh61Common.ChainEnd | psets/pset5/sh61.cc:354-356 | `run`'s seek loop reaches a command of the list linked by `;` or `&` |
| Sh61Common.ChainEndFirst | psets/pset5/sh61.cc:354-356 | the seek stops at the first such command |
| Sh61Common.ChainEndThroughPipeline | psets/pset5/sh61.cc:280-282 | following `|` links stays inside the conditional chain |
| Sh61Common.Skip | psets/pset5/sh61.cc:297-302 | the skip loop ends at the end of a pipeline that is not followed by the operator it skips on |
| Sh61Common.SkipStaysInChain | psets/pset5/sh61.cc:297-310 | the skip loop never leaves the conditional chain it is in |
| Sh61Common.SkipStopsBefore | psets/pset5/sh61.cc:297-310 | the skip loop stops at a command that is not linked by the operator it skips on |
| Sh61Common.SourceChainIsWalk | psets/pset5/sh61.cc:276-320 | the loop of `run_conditional` starts exactly the pipelines an independent reading of `&&`/`||` runs: after a pipeline, the next runs unless the operator before it is the one the status makes irrelevant, which also skips everything joined to it by that operator |
| Sh61Common.SourceChainStep | psets/pset5/sh61.cc:276-320 | one round of the loop: the pipeline at `c` runs, then the loop ends at `;`/`&` or continues after the skipped commands |
| Sh61Common.SourceChainGrows | psets/pset5/sh61.cc:276-320 | the pipelines started so far grow by one per round |
| Sh61Common.SourceChainFirst | psets/pset5/sh61.cc:278 | the first pipeline of a chain always runs |
| Sh61Common.WalkRunsAnyway | psets/pset5/sh61.cc:276-320 | a pipeline that runs does not depend on what ran before it |
| Sh61Common.SkipWalk | psets/pset5/sh61.cc:297-310 | the skip loop passes over exactly the pipelines the reference reading does not run |
| Sh61Common.SkippedWalk | psets/pset5/sh61.cc:297-310 | a pipeline that does not run leaves the decision to what ran before it |
| Sh61Common.WalkRuns | psets/pset5/sh61.cc:276-320 | a pipeline that runs is followed by what its own status decides |
| Sh61Common.AfterSkipLoop | psets/pset5/sh61.cc:297-319 | after the skip loop the next pipeline runs unless the chain has ended |
| Sh61Common.AfterSkipped | psets/pset5/sh61.cc:297-319 | after skipping on `op`, the next pipeline runs unless the chain has ended |
| Sh61Common.WalkOrdered | psets/pset5/sh61.cc:276-320 | each pipeline of the chain runs at most once, in list order, and inside the chain |
| Sh61Common.SourceChainOrdered | psets/pset5/sh61.cc:276-320 | `run_conditional` starts each pipeline of its chain at most once, in order, within the chain |
| Sh61Common.ListRanStep | psets/pset5/sh61.cc:351-362 | `run` starts the chain at `c`, then the rest of the list after the chain's `;` or `&` |
| Sh61Common.ListRanOverHas | psets/pset5/sh61.cc:351-362 | a chain the list reaches whose first pipeline is started does appear among what `run` starts |
| Sh61Common.ListRanOverOrdered | psets/pset5/sh61.cc:351-362 | chains one after another start their pipelines in list order |
| Sh61Common.ChainStartsRun | psets/pset5/sh61.cc:263-278 | every conditional chain of the list has its first pipeline started, unless it is a background chain whose shell cannot be forked |
| Sh61Common.ChainRansAscending | psets/pset5/sh61.cc:276-320 | each chain's pipelines start in order inside it |
| Sh61Common.ListRanAtMostOnce | psets/pset5/sh61.cc:351-362 | `run` starts each pipeline of the list at most once, in list order |
| Sh61.LeadingDigits | psets/pset5/sh61.cc:405 | the digits `std::stoi` reads are a prefix of the operator |
| Sh61.Words | psets/pset5/sh61.cc:390-428 | the inner loop stops at a token that is neither a word nor a redirection, within the stream, or aborts (the failed assert on a redirection without a word after it, or `op.at(0)` on an empty operator); it never aborts on a stream whose every redirection is followed by a word |
| Sh61.Group | psets/pset5/sh61.cc:383-430 | one command: its subshell, words and redirections, and a link equal to the type of the token that stopped them; an abort in the subshell or in the words aborts it, which cannot happen on a well-formed stream |
| Sh61.List | psets/pset5/sh61.cc:369-437 | `parse_list` stops within the stream, or aborts when one of its commands does; it never aborts on a well-formed stream |
| Sh61.SplitOperator | psets/pset5/sh61.cc:402-413 | the fd (`std::stoi` of the leading digits, or -1) and the operator without its digits |
| Sh61.AddRedirect | psets/pset5/sh61.cc:415-425 | the redirection is recorded as the reference `Redirect` says |
| Sh61.ParseWords | psets/pset5/sh61.cc:390-428 | the loop builds the reference arguments and redirections and stops where they do, or reports the abort exactly when the reference aborts |
| Sh61.ParseGroup | psets/pset5/sh61.cc:383-430 | the loop body builds the reference command, or reports the abort exactly when the reference aborts |
| Sh61.ParseList | psets/pset5/sh61.cc:369-437 | the loop builds the reference command list and stops where it does, or reports the abort exactly when the reference aborts |
| Sh61.ParseLine | psets/pset5/sh61.cc:444-448 | `parse_line` gives a command list for every stream whose redirections are all followed by a word, and none when the shell dies parsing it |
| Sh61ParseProperties.WordTokens | psets/pset5/sh61.cc:392-394 | one word token per argument |
| Sh61ParseProperties.WordTokensPlain | psets/pset5/sh61.cc:392-394 | the `k`-th word token holds the `k`-th argument |
| Sh61ParseProperties.UnparseNoRedirects | psets/pset5/sh61.cc:396 | a written-out plain list holds no redirection |
| Sh61ParseProperties.WordsRun | psets/pset5/sh61.cc:390-394 | words followed by a non-word are all collected as arguments, in order |
| Sh61ParseProperties.WordsStop | psets/pset5/sh61.cc:390 | the inner loop does nothing at a token that is neither word nor redirection |
| Sh61ParseProperties.WordsAbortIff | psets/pset5/sh61.cc:390-401 | the inner loop aborts exactly when it reaches a redirection operator that is empty or is not followed by a word |
| Sh61ParseProperties.EchoRedirectAborts | psets/pset5/sh61.cc:397-399 | `echo >`: the redirection has no file and the shell dies at the assert |
| Sh61ParseProperties.SequenceAfterRedirectAborts | psets/pset5/sh61.cc:397-399 | `cat < ; ls`: a `;` where the file should be is not a word and the shell dies at the assert |
| Sh61ParseProperties.GroupOfWords | psets/pset5/sh61.cc:390-430 | a command that does not open with `(` is its words, linked by the next token |
| Sh61ParseProperties.GroupSubshell | psets/pset5/sh61.cc:384-388 | a command that opens with `(` holds the list up to the `)` as its subshell, then its words |
| Sh61ParseProperties.ListParen | psets/pset5/sh61.cc:430-434 | a command closed by `)` is the last of its list, linked as by `;` |
| Sh61ParseProperties.PlainGroup | psets/pset5/sh61.cc:390-430 | the first command of a written-out plain list is read back |
| Sh61ParseProperties.UnparseLayout | psets/pset5/sh61.cc:373-435 | a written-out plain list lies command after command in the stream |
| Sh61ParseProperties.ListStep | psets/pset5/sh61.cc:373-435 | `parse_list` is the first command then the list after its operator |
| Sh61ParseProperties.ListAtEnd | psets/pset5/sh61.cc:373 | at the end of the stream the list is empty |
| Sh61ParseProperties.ListLastAtEnd | psets/pset5/sh61.cc:373-436 | a command that ends at the end of the stream is the last one |
| Sh61ParseProperties.ListRun | psets/pset5/sh61.cc:369-437 | plain commands laid out one after another parse back to themselves |
| Sh61ParseProperties.ListLastBeforeParen | psets/pset5/sh61.cc:430-434 | words closed by `)` make the last command of a subshell list |
| Sh61ParseProperties.UnparseOpenLayout | psets/pset5/sh61.cc:384-388 | a written-out subshell list lies command after command up to its `)` |
| Sh61ParseProperties.ListUntilParen | psets/pset5/sh61.cc:369-437 | the list inside `( ... )` is its commands, the last ended as by `;`, up to the `)` |
| Sh61ParseProperties.ParseUnparse | psets/pset5/sh61.cc:444-448 | `parse_line` inverts writing out a list of plain commands: words become arguments in order, each operator becomes its command's link |
| Sh61ParseProperties.EndClosesCommand | psets/pset5/sh61.cc:373-436 | words running to the end of the line make one command linked as by `;` |
| Sh61ParseProperties.SubshellParses | psets/pset5/sh61.cc:383-434 | `( list ) op` parses to one command whose subshell is the list, last command ended as by `;`, linked by `op` |
| Sh61ParseProperties.SubshellInner | psets/pset5/sh61.cc:384-388 | inside `( list ) op` the list is read up to the `)` |
| Sh61ParseProperties.SubshellNoRedirects | psets/pset5/sh61.cc:396 | the tokens of `( list ) op` hold no redirection |
| Sh61ParseProperties.WordsUntouched | psets/pset5/sh61.cc:390-428 | the inner loop never sets pid, readfd or sub_bg |
| Sh61ParseProperties.GroupUntouched | psets/pset5/sh61.cc:383-430 | a command built by the loop body keeps the constructor's pid, readfd and sub_bg, in subshells too |
| Sh61ParseProperties.ListUntouched | psets/pset5/sh61.cc:369-437 | every command `parse_list` builds has pid -1, readfd -1 and sub_bg false |
| Sh61ParseProperties.DefaultRedirects | psets/pset5/sh61.cc:415-425 | `<` redirects standard input; `>` and `>>` redirect standard output, truncating or appending |
| Sh61ParseProperties.LeadingDigitsOf | psets/pset5/sh61.cc:405 | the leading digits of digits followed by a non-digit are those digits |
| Sh61ParseProperties.NumberedOperator | psets/pset5/sh61.cc:404-410 | leading digits give the fd, the remaining non-digit characters the raw operator |
| Sh61ParseProperties.RawTwoOut | psets/pset5/sh61.cc:404-410 | `2>` is fd 2 and `>` |
| Sh61ParseProperties.RawTenIn | psets/pset5/sh61.cc:404-410 | `10<` is fd 10 and `<` |
| Sh61ParseProperties.RawTwoDup | psets/pset5/sh61.cc:404-410 | `2>&` has the raw operator `>&` |
| Sh61ParseProperties.NumberedRedirects | psets/pset5/sh61.cc:404-425 | `2>` names fd 2 and `10<` fd 10; `2>&` and `<>` are not recorded |
| Sh61ParseProperties.LaterRedirectWins | psets/pset5/sh61.cc:415-424 | a later redirection of the same fd in the same direction replaces the earlier one |
| Sh61Run.Skips | psets/pset5/sh61.cc:294-312 | what each wait status makes the skip loop skip: `||` after exit 0, `&&` after another exit or `SIGINT`, nothing after any other signal |
| Sh61Run.EndWaits | psets/pset5/sh61.cc:288 | one wait status per pipeline that ran; each is that of the pipeline's last command |
| Sh61Run.LastChain | psets/pset5/sh61.cc:351-362 | the chain `run`'s recursion ends on: one reached from `i` chain by chain, and ending at the last command of the list |
| Sh61Run.ListStatusStep | psets/pset5/sh61.cc:357-361 | `run` returns the status of the rest of the list, or of the chain itself when it is last; a background chain gives -1 |
| Sh61Run.SignalsKeepStatus | psets/pset5/sh61.cc:294-312 | pipelines killed by a signal other than `SIGINT` do not change the exit status |
| Sh61Run.LastCountedStatus | psets/pset5/sh61.cc:294-312 | the status is that of the last pipeline that exited, or 1 when it was interrupted |
| Sh61Run.AllSignalsKeepStatus | psets/pset5/sh61.cc:261-312 | when every pipeline is killed by a signal other than `SIGINT`, the status keeps its starting value (-1 in `run_conditional`) |
| Sh61Run.StatusStep | psets/pset5/sh61.cc:294-312 | waiting one more pipeline updates the status by its wait status |
| Sh61Run.RunPipeline | psets/pset5/sh61.cc:222-231 | the loop starts the reference pipeline members |
| Sh61Run.SeekPipelineEnd | psets/pset5/sh61.cc:280-282 | the loop reaches the end of the pipeline |
| Sh61Run.SkipPipelines | psets/pset5/sh61.cc:297-302 | the nested loops stop where the reference skip does |
| Sh61Run.HandleWait | psets/pset5/sh61.cc:294-312 | the status and the skip position are those the reference gives for the wait status |
| Sh61Run.RunRound | psets/pset5/sh61.cc:278-312 | one round: run the pipeline, seek its end, wait and skip |
| Sh61Run.RunChain | psets/pset5/sh61.cc:276-320 | the loop starts the reference pipelines and returns the status of the last one waited for |
| Sh61Run.RunConditional | psets/pset5/sh61.cc:254-328 | a background chain runs in a forked shell, nothing when the fork fails, and returns -1; a foreground chain runs here and returns its status |
| Sh61Run.Run | psets/pset5/sh61.cc:351-362 | `run` starts the reference pipelines of the whole list and returns the reference status |
| Sh61Run.OrAfterSuccess | psets/pset5/sh61.cc:297-302 | `a || b` where `a` exits 0 runs only `a`, status 0 |
| Sh61Run.AndAfterInterrupt | psets/pset5/sh61.cc:303-310 | `a && b` where `a` is interrupted runs only `a`, status 1 |
| Sh61Run.AndAfterOtherSignal | psets/pset5/sh61.cc:294-312 | `a && b` where another signal kills `a` still runs `b`, whose status is the chain's |
| Sh61Run.PipelineStatus | psets/pset5/sh61.cc:280-298 | `a | b && c` with `a` exiting 0 and `b` exiting 1: the pipeline's status is `b`'s, so `c` is skipped and the chain returns 1 |
| Sh61Run.FailedForkSkipsChain | psets/pset5/sh61.cc:265-268 | `a & b` with a failing fork runs only `b` |
| Sh61Handout.WordsEnd | pset5/sh61.cc:266-273 | the run of words stops at the first non-word token or the end |
| Sh61Handout.ParseWords | pset5/sh61.cc:266-273 | the inner loop collects the words of the run into a new command |
| Sh61Handout.ParseLineLoop | pset5/sh61.cc:248-278 | the loop builds the reference command list |
| Sh61Handout.LineStep | pset5/sh61.cc:257-276 | one command from `i` and the rest after its operator, or the last one at the end |
| Sh61Handout.LineKeepsWords | pset5/sh61.cc:248-278 | `parse_line` keeps every word of the line, in order, and nothing else |
| Sh61Handout.LineLinks | pset5/sh61.cc:269-275 | each operator links one command, in order, and a line ending in a word gets one more link `;` |
| Sh61Handout.LinksAreOperators | pset5/sh61.cc:275 | no command is linked by a word |
| Sh61Handout.ParsedListTerminated | pset5/sh61.cc:248-278 | every `|`, `&&` and `||` of the parsed list has a command after it iff the line is not empty and ends in a word, `;` or `&` |
| Sh61Handout.WordsOnly | pset5/sh61.cc:266-272 | a line of words only is one command holding them all, linked by `;` |
| Sh61Handout.RenderedCommand | pset5/sh61.cc:257-276 | a command written out, then anything, parses to that command first |
| Sh61Handout.LineShift | pset5/sh61.cc:257-276 | the commands built from a position depend only on the tokens from there on |
| Sh61Handout.ParseRender | pset5/sh61.cc:248-278 | `parse_line` inverts writing out a list of commands |
| Sh61Handout.Skips | pset5/sh61.cc:182-191 | what each wait status makes the skip loop skip: `||` after exit 0, `&&` after another exit, nothing after a signal |
| Sh61Handout.RunPipeline | pset5/sh61.cc:126-134 | the recursion starts the reference pipeline members |
| Sh61Handout.HandleWait | pset5/sh61.cc:182-191 | the skip position the reference gives for the wait status |
| Sh61Handout.RunChain | pset5/sh61.cc:168-199 | the loop starts the reference pipelines |
| Sh61Handout.RunConditional | pset5/sh61.cc:156-206 | a background chain runs in a forked shell, nothing when the fork fails; a foreground chain runs here |
| Sh61Handout.Run | pset5/sh61.cc:230-240 | `run` starts the reference pipelines of the whole list |
| Sh61Handout.ExitsAgree | pset5/sh61.cc:182-191 | when every pipeline exits normally, the handout and the final shell skip the same operators |
| Sh61Handout.ExitsRunTheSame | pset5/sh61.cc:230-240 | and then they start the same pipelines |
| Sh61Handout.InterruptDiffers | pset5/sh61.cc:182-191 | `a && b` with `a` interrupted: the handout runs `b`, the final shell does not |
| WdbClient.ParseArgs | net5/wdbclientloop.cc:65-109 | a command is read exactly when the verb at `optind` is `get`, `set`, `delete`, `exch` or `cas`, enough words follow and the keys pass `is_valid_key` (both keys for `exch`, the first only for the others); it takes its arguments from the next words and moves `optind` past them; otherwise `usage(1)` |
| WdbClient.Decimal | net5/wdbclientloop.cc:75 | `%zu` prints at least one decimal digit, with no leading zero |
| WdbClient.DecimalRoundTrip | net5/wdbclientloop.cc:75 | a length printed with `%zu` reads back as that length |
| WdbClient.Until | net5/wdbclientloop.cc:68 | the text before the first delimiter contains no delimiter, and the delimiter and the rest follow it |
| WdbClient.Expect | net5/wdbclientloop.cc:68 | the rest follows the literal |
| WdbClient.DecodeWire | net5/wdbclientloop.cc:65-105 | every command the client writes, with keys free of spaces and carriage returns, is read back exactly by a server parsing the same format, whatever bytes follow it |
| WdbClient.DecodeSetLine | net5/wdbclientloop.cc:74-78 | `set KEY LEN\r\nVALUE\r\n` reads back as that `set`, for any value bytes |
| WdbClient.DecodeCasLine | net5/wdbclientloop.cc:98-104 | `cas KEY OLDLEN NEWLEN\r\nOLDNEW\r\n` reads back as that `cas`, split by the two lengths |
| WdbClient.DecodeGetWire | net5/wdbclientloop.cc:68 | `get KEY\r\n` reads back as that `get` |
| WdbClient.DecodeDeleteWire | net5/wdbclientloop.cc:84 | `delete KEY\r\n` reads back as that `delete` |
| WdbClient.DecodeExchWire | net5/wdbclientloop.cc:91-92 | `exch KEY1 KEY2\r\n` reads back as that `exch` |
| WdbClient.WireAllSnoc | net5/wdbclientloop.cc:61-110 | the bytes of a batch grow by each command's bytes in order |
| WdbClient.DecodeStream | net5/wdbclientloop.cc:61-110 | the commands of a batch are read back as the same commands in the same order |
| WdbClient.Run | net5/wdbclientloop.cc:61-110 | `k` commands read in a row have all their checked keys valid, and `optind` stays between the first command word and `argc` |
| WdbClient.RunNext | net5/wdbclientloop.cc:62-64 | the next command is read where the last stopped, wrapping to the first command word at `argc` |
| WdbClient.ReadCommand | net5/wdbclientloop.cc:62-67 | wrapping `optind` to the first command word at `argc`, then reading the command there, is the next step of `Run`; None exactly when `Run` stops with `usage(1)` |
| WdbClient.Batch | net5/wdbclientloop.cc:61-114 | a batch writes the 10000 commands `Run` gives, then `error\r\n`, and leaves `optind` where they stop; or it stops at the first command that calls `usage(1)`, having written the ones before it; `ncommands` grows by the commands written |
| WdbClient.BatchDecodes | net5/wdbclientloop.cc:61-114 | when `is_valid_key` admits only keys the wire can carry, a server reads back a batch's commands in order and then finds `error\r\n` |
| WdbClient.KeysCarry | net5/wdbclientloop.cc:65-97 | such keys give commands whose every key the wire can carry |

## Left out

Weaker or corrected on purpose:

- Pset3Kernel.Kernel.KAlloc: uses the corrected scan. It looks at each of the NPAGES pages once, in cyclic order from `start`, and returns null after a full cycle. The loop in psets/pset3/kernel.cc:120-133 never ends when `start` is still 0 and no page is free. `Pset3Kernel.KallocScanAsWritten` models that loop as written. `Pset3Kernel.KallocAsWrittenHangs` shows the hang. `Pset3Kernel.KallocScanAsWrittenAgrees` proves that the two agree wherever the loop as written ends.
- M61.RecordAlloc: widens `heap_max` to cover the returned pointer even when sz == 0. The source sets it to `addr + sz - 1`, one below the pointer (pset1/m61.cc:74-75). `M61.RecordAllocAsWritten` and `M61.MallocAsWritten` model that update as written. `M61Properties.ZeroSizeFreeAborts` shows how freeing such a block then aborts.
- M61.Malloc: uses `M61.RecordAlloc`, the corrected update above.
- M61Alloc.Allocator.Malloc: keeps statistics by the corrected `M61.RecordAlloc`.
- M61.Calloc: for sz == 0 it allocates `nmemb * 0 == 0` bytes. The source computes `SIZE_MAX / sz` first, a division by zero (pset1/m61.cc:167). That case is modelled by `M61.CallocAsWritten`, and by `M61Alloc.Allocator.Calloc`, which reports a trap.
- Sh61Common.Terminated: every walk over a command list requires that the list is non-empty and that its last link is `;` or `&`. The source follows `next` without a null check after a trailing `|`, `&&` or `||` and crashes. The model does not describe that crash. `Sh61Handout.ParsedListTerminated` states exactly which handout lines produce a terminated list.
- Sh61.FdOf: reads the digits before a redirection operator as an unbounded number. `std::stoi` throws `std::out_of_range` when they do not fit an `int`, and that exception is not modelled.
- Sh61.KindAt: the tokenizer of sh61.hh is not part of this model, so the parser works on a finished token list. Reading past the end counts as `;` (`Sh61.KindAt`), and `++it` stays at the end once there (`Sh61.Advance`). These are the end-of-stream conventions of the token iterator as the parser uses it.
- Pong61.HeadersLoop: the socket is a finite list of read results. When that list runs out while the loop still wants input, the model ends with `Starved`, an outcome that exists only in the model; the source would block in `read`. The same holds for `Pong61.BodyLoop` and the `Pong61Connection.Connection` receive methods.
- WdbClient.Batch: models one batch of the inner loop (the 10000 commands and `error\r\n`). Not modelled: the `while (true)` outer loop, the reply loop with `fgets` up to `ERROR\r\n`, the timing line, and the `getopt` loop. `first` is where `getopt` left `optind`. `is_valid_key` is defined in a header that is not part of this model and is a parameter.
- WdbClient.String: a string is a sequence of `char`, one per byte, so lengths are byte counts as `strlen` gives them. Multibyte encodings and bytes outside that range are not distinguished.
- BoundedBuffer.BBuffer.Write: the mutex, the condition variables and the threads of `bbuffer` are not modelled. A write that would wait on `nonfull_` returns `Blocked` with nothing changed, and a read that would wait on `nonempty_` returns `Empty` (`BoundedBuffer.BBuffer.Read`).

Page tables, system calls and hardware:

- Page tables are values: a root page, one leaf table page per 2 MiB region, and a map from page-aligned virtual addresses to present entries. `vmiter`/`ptiter` and the x86-64 four-level layout (k-vmiter.hh) are not part of this model. Whether an allocation can fail is modelled: `try_map` may need a leaf table page from `kalloc`, and mapping a non-present entry never allocates.
- lib.hh is not part of this model, so the system call numbers of `Kernel4`, `Kernel8` and `Pset3Kernel` are placeholders: `SYSCALL_GETPID` 1, `SYSCALL_YIELD` 2, `SYSCALL_PANIC` 3, and so on in the order the kernel tests them. The other constants come from unseen headers and take the WeensyOS values: PAGESIZE 4096, MEMSIZE_PHYSICAL 0x200000, MEMSIZE_VIRTUAL 0x300000, PROC_START_ADDR 0x100000, CONSOLE_ADDR 0xB8000 and NPROC 16. `allocatable_physical_address` is a parameter.
- Hardware and display are not modelled: `init_hardware`, `init_timer`, `lapicstate::ack`, `console_*`, `check_keyboard`, `memshow`, `log_printf`, `check_pagetable` and `exception_return`. The fault address and error code are inputs to `exception`. `run` sets `current` and stops, and a `schedule` that finds nothing runnable after one full pass ends as `Idle` (the source spins).
- `program_image` is a given list of segments (address, size, data, writable) plus an entry point.

Operating system calls, I/O and libraries:

- Io61.Flush: after a short `write` fails the assertion, the model puts the bytes written in the file but leaves the descriptor's offset where it was; the process has died and no later operation reads it.
- io61: the file descriptor is an abstract file (read results, write counts and `lseek` results are parameters). `read`/`write` return counts are plain integers, so the `size_t`/`ssize_t` casts and `errno` are not modelled. `io61_close`, `io61_open_check` and `io61_filesize` are not modelled.
- m61: `base_malloc`/`base_free` are parameters: the address returned and the junk bytes in the new block. The leak report's printing and the heavy-hitter report are not modelled. Header pointer arithmetic is replaced by a map from block addresses to headers.
- sh61: `make_child` (fork, exec, pipes, `dup2`, `setpgid`, `chdir`), `claim_foreground`, `waitpid` and signal delivery are not modelled. The wait status of each command and whether a background fork fails are inputs. The prompt and read loop of `main` is not modelled.
- pong61: threads, mutexes, condition variables, sockets, `getaddrinfo`, sleeps and retry backoff, proxy-latency selection, `strtod` on the body and `main` are not modelled.
- net8/sqmatrix.hh: the constructor, destructor and `at` are stubs in the source. The model backs the matrix with an `n × n` array of a generic element type.
- asm6/src/f31.cc: `long` and `int` are taken as 64 and 32 bits. The sum cannot wrap around: each addition is done in a 64-bit newtype, so that is checked at every step.

## Findings

| source | as written | input that shows it | evidently intended | confidence | as-written member | corrected member |
|---|---|---|---|---|---|---|
| psets/pset3/kernel.cc:120-133 | `kalloc` repeats its do/while until `pa`, always at least PAGESIZE after the step, equals `start`; on the first call `start` is 0 | the first `kalloc(PAGESIZE)` when no allocatable page is free: the loop never ends | return null after one full cycle of the pages | not executed | Pset3Kernel.KallocAsWrittenHangs | Pset3Kernel.Kernel.KAlloc |
| pset1/m61.cc:74-75 | `heap_max` grows to `addr + sz - 1` | `m61_malloc(0)` as the highest block, then `m61_free` of its pointer: `heap_max` is one below the pointer, so the free reports "not in heap" and aborts | the heap range covers every pointer that `m61_malloc` returns | not executed | M61Properties.ZeroSizeFreeAborts | M61.RecordAlloc |
| pset1/m61.cc:167 | the overflow test divides `SIZE_MAX` by `sz` | `m61_calloc(n, 0)` for any n: a division by zero | sz == 0 allocates a zero-size block, as `m61_malloc(0)` does | not executed | M61Properties.CallocDividesByZero | M61Properties.CallocZeroSize |
