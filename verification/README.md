# Verified model of pipeserve, nanorc/expand.py and trimnl

This project models five pieces of sequential logic from the `utility`
repository in Dafny and proves what each promises.

- **The per-descriptor line buffer of pipeserve** (`buffer.dfy`, module
  `LineBuffers`). `buffer_t` is the class `LineBuffer`. Its fields are the
  descriptor, a fixed array of `BUFFER_SIZE` bytes, `end` (as an offset) and
  `shift`. The `buffers` table is the class `BufferTable`, holding the
  sequence of entries. `buffer_readline_r` is `BufferTable.ReadLineR`, which
  does the following:
  - it finds or lazily creates the entry;
  - it compacts away the previously returned line with an in-place `memmove`;
  - it runs the `for (;;)` read loop.

  The loop is proved against the reference function `ReadLineSpec`. Lemmas
  about that function establish three things. No byte is lost or repeated.
  The return value follows the C rules exactly. The raw window
  (`*rdata`, `*rsize`) is this call's bytes. `buffer_clear` is
  `BufferTable.Clear`.
- **The integer list** (`list.dfy`, module `IntList`). `list_add` builds a new
  node in front of the list. `list_del` is a cursor loop proved to remove
  exactly the first occurrence.
- **pipeserve's handlers** (`pipeserve.dfy`, module `PipeServe`). They are:
  - `handle_io`, the dispatch classification;
  - `server_io`, the accept loop;
  - `client_io`, which peeks a window and consumes through the first `'\n'`
    or a full `BUFFER` chunk;
  - `stdin_io`, which accumulates into `stdin_buffer`, broadcasts each chunk
    to every client and shifts the rest down with `memmove`.

  These are methods of the class `Server`, which holds the program's globals.
  Each loop is proved against a recursive specification function. Lemmas
  about those functions state conservation of bytes, framing and fan-out.
- **The nanorc macro preprocessor** (`expand.dfy`, module `NanorcExpand`). It
  covers `#include` inlining with cycle detection along the current chain.
  It covers the `#define` pass into an ordered dictionary (`Defs`). It covers
  the memoised `%NAME%` expansion, which writes each result back into the
  dictionary. It covers the final substitution. The memoised expansion is
  compared with a plain recursive substitution, `Resolve`.
- **trimnl** (`trimnl.dfy`, module `TrimNl`). It covers `read_line`, with its
  growing buffer, `fgets` and `strlen`. It covers `main`'s strip-and-join
  loop, proved to output its input minus at most one trailing `'\n'`.

`io.dfy` (module `Io`) is shared by all of them. It holds bytes, the
`memchr` search for `'\n'`, `memmove`, and the descriptor model.

Every descriptor is an abstract sequence of events that successive
`read(2)`/`recv(2)` calls report:

- `Again` is -1 with `EAGAIN`/`EWOULDBLOCK`.
- `Failure` is -1 with any other errno.
- `Eof` is 0. It is sticky: every later read returns 0 again.
- `Bytes(d)` is data. A read offered `n` bytes takes at most `n` and leaves
  the rest queued.

Files for the preprocessor are a map from name to contents. Standard input
for trimnl is an object holding the unread bytes and the end-of-file flag.

What the code does:

- `client_io` never uses the line buffer. It peeks with `MSG_PEEK` and writes
  each chunk to stdout, not to the worker.
- `stdin_io` frames lines and sends them to the clients. It does not forward
  raw bytes to the worker.
- `child_io` is empty, so the worker's output is never forwarded or
  broadcast.
- `buffer_clear` is never called by pipeserve.c.
- At end of stream `buffer_readline_r` returns 0 and keeps the partial line
  buffered. It does not report a separate end-of-stream outcome.

## Model

| member | source | states |
|---|---|---|
| `LineBuffers.BufferTable.Lookup` | pipeserve/buffer.c:24-38 | the first entry for `fd` is used; only when there is none is a new empty one added, so the table never holds two entries for a descriptor |
| `LineBuffers.Find` | pipeserve/buffer.c:25-31 | the lookup loop returns the first entry whose fd matches, and finds none exactly when no entry has that fd |
| `LineBuffers.BufferTable.Add` | pipeserve/buffer.c:32-38 | a new entry for an unknown fd starts empty, is added to the table and keeps the table consistent |
| `LineBuffers.LineBuffer.constructor` | pipeserve/buffer.c:33-36 | a new buffer has `end` at `data[0]`, `shift == 0` and nothing pending |
| `LineBuffers.LineBuffer.Compact` | pipeserve/buffer.c:40-45 | the bytes `data[shift..end)` move to the front in order, `end -= shift`, `shift = 0` |
| `Io.MemMove` | pipeserve/buffer.c:41-42 | memmove to offset 0 puts the source bytes at the front in order and leaves the rest of the array untouched |
| `LineBuffers.LineBuffer.ReadOnce` | pipeserve/buffer.c:51-61 | one pass reads into the free space (never zero), appends the bytes and either continues, or sets the result and `shift` |
| `LineBuffers.LineBuffer.Fill` | pipeserve/buffer.c:50-62 | the read loop stores exactly the bytes the reference loop reads, keeps `shift <= end <= BUFFER_SIZE` and sets `shift` to a positive result |
| `LineBuffers.LineBuffer.ReadLineR` | pipeserve/buffer.c:40-68 | compaction then the read loop give the result, line, window and pending bytes of the reference definition |
| `LineBuffers.BufferTable.ReadLineR` | pipeserve/buffer.c:23-69 | `buffer_readline_r` matches the reference definition on `fd`'s entry; the table is unchanged, or, when `fd` had no entry, gains exactly one entry for it at the head; every other entry stays in the table unchanged |
| `LineBuffers.BufferTable.ReadLine` | pipeserve/buffer.c:19-21 | `buffer_readline` is `buffer_readline_r` without the window, with the same table shape: `fd` has an entry afterwards, only it can be new, and every other entry stays unchanged |
| `LineBuffers.ReadLoopBytes` | pipeserve/buffer.c:50-62 | the loop reads the next bytes of the stream, none lost, repeated or reordered |
| `LineBuffers.ReadLoopFits` | pipeserve/buffer.c:51-55 | the bytes read fit in the buffer after those it already held |
| `LineBuffers.ReadLoopResult` | pipeserve/buffer.c:50-62 | the loop returns -1/0 only without a new '\n' and with room left; otherwise it returns the length through the first new '\n', or `BUFFER_SIZE` when the buffer filled without one |
| `LineBuffers.ReadLineConserves` | pipeserve/buffer.c:40-66 | pending bytes plus the stream equal the line, then what stays pending, then the unread stream; the window `*rdata`/`*rsize` is this call's bytes and fits in the buffer |
| `LineBuffers.ReadLineResult` | pipeserve/buffer.c:53-64 | -1 or 0 exactly when no '\n' arrived and room is left; `*line` set exactly when the result is not -1; 0 is a sticky end of stream; a positive result ends in the first '\n' of the bytes read this call (carried-over bytes are not searched) or is the whole full buffer |
| `LineBuffers.BufferTable.Clear` | pipeserve/buffer.c:71-80 | `buffer_clear` as intended: the entry for `fd` is removed, the others stay in order, and an absent fd changes nothing |
| `LineBuffers.Splice` | pipeserve/buffer.c:73-78 | the splicing loop gives exactly the table without the entries for `fd` |
| `LineBuffers.WithoutSpec` | pipeserve/buffer.c:71-80 | removal leaves no entry for `fd`, keeps every other entry, adds none, and is the identity when `fd` is absent |
| `LineBuffers.ClearLastCrashes` | pipeserve/buffer.c:73-76 | the loop as written dereferences NULL when the entry removed is the last node |
| `LineBuffers.ClearOnlyEntryCrashes` | pipeserve/buffer.c:73-79 | the smallest case: clearing the only entry crashes |
| `IntList.DelUndoesAdd` | pipeserve/list.c:4-9 | `list_add` puts the value at the head of the unchanged list, one longer, and `list_del` of that value gives the list back |
| `IntList.ListDel` | pipeserve/list.c:11-22 | the cursor loop removes exactly the first node holding the value, and returns the list unchanged when the value is absent |
| `IntList.RemoveFirstAbsent` | pipeserve/list.c:13-21 | deleting an absent value returns the same sequence |
| `IntList.RemoveFirstSplice` | pipeserve/list.c:13-19 | only the first occurrence is removed, and the first element can be removed too |
| `IntList.RemoveFirstLength` | pipeserve/list.c:11-22 | the length drops by one if and only if the value was present |
| `IntList.RemoveFirstKeepsOrder` | pipeserve/list.c:12-21 | the remaining elements keep their relative order |
| `IntList.RemoveFirstMultiset` | pipeserve/list.c:11-22 | exactly one copy of the value leaves the list, and nothing else does |
| `PipeServe.DispatchSpec` | pipeserve/pipeserve.c:137-146 | stdin, then the server socket, then the child's outputs, then a registered client are tested in that order; any other fd is ignored |
| `PipeServe.Server.HandleIo` | pipeserve/pipeserve.c:137-146 | the handler chosen by the dispatch runs on that descriptor; `child_io` and unknown fds change nothing |
| `PipeServe.AcceptLoopSpec` | pipeserve/pipeserve.c:148-157 | accepting until EAGAIN prepends every accepted fd, newest first, to the unchanged list; a failed accept ends the process |
| `PipeServe.Server.ServerIo` | pipeserve/pipeserve.c:148-157 | the accept loop updates `clients` as the reference loop does and nothing else |
| `PipeServe.ChunkLengthSpec` | pipeserve/pipeserve.c:173-175 | there is no chunk exactly when the window has no '\n' and fewer than `BUFFER` bytes; otherwise the chunk runs through the first '\n' or is all `BUFFER` bytes |
| `PipeServe.ClientStep` | pipeserve/pipeserve.c:163-177 | a pass that finds a chunk consumes exactly that chunk's bytes from the socket |
| `PipeServe.ClientChunks` | pipeserve/pipeserve.c:173-177 | every chunk consumed is a line through its first '\n' or a full `BUFFER` window without one |
| `PipeServe.ClientConserves` | pipeserve/pipeserve.c:159-185 | the bytes are consumed in order and written unchanged; the loop stops on a partial line only when it is shorter than `BUFFER` without '\n'; a disconnect leaves nothing unread |
| `PipeServe.MarkedExactlyFull` | pipeserve/pipeserve.c:179-181 | the `"\\\n"` marker follows exactly the full `BUFFER` chunks that hold no '\n' |
| `PipeServe.Server.ClientIo` | pipeserve/pipeserve.c:159-185 | stdout and the echo grow by the consumed chunks; on 0 or a non-EAGAIN error the client is removed with `list_del`; on a partial line it returns with the bytes unread, where the loop as written spins |
| `PipeServe.Server.SendToAll` | pipeserve/pipeserve.c:200-203 | the chunk is sent to every client, walking the list from its head |
| `PipeServe.BroadcastAllReaches` | pipeserve/pipeserve.c:200-203 | every client on the list receives every chunk, in order; an fd not on the list receives nothing |
| `PipeServe.BroadcastOnce` | pipeserve/pipeserve.c:200-203 | a client listed once receives one broadcast chunk exactly once |
| `PipeServe.Server.StoreStdin` | pipeserve/pipeserve.c:189-193 | a read into `stdin_buffer + stdin_bytes` appends its bytes and keeps `stdin_bytes <= BUFFER` |
| `PipeServe.Server.SendChunk` | pipeserve/pipeserve.c:200-206 | the chunk goes to every client, then the remainder is moved to the front and `stdin_bytes -= bytes` |
| `PipeServe.Server.StdinIo` | pipeserve/pipeserve.c:187-208 | `stdin_io` with the chunk test before the read keeps `stdin_bytes < BUFFER` and no '\n' buffered between calls, and sends what the reference loop sends |
| `PipeServe.StdinConserves` | pipeserve/pipeserve.c:187-208 | stdin's bytes are sent in order, each exactly once: sent plus buffered plus unread is preserved |
| `PipeServe.StdinChunks` | pipeserve/pipeserve.c:195-206 | only chunks are sent, and the loop never returns with a chunk still buffered |
| `PipeServe.StdinPassAsWritten` | pipeserve/pipeserve.c:188-207 | one pass as written reads first and sends at most one chunk, found anywhere in `stdin_buffer[0..stdin_bytes)` |
| `PipeServe.StdinSpinsAtEnd` | pipeserve/pipeserve.c:189-198 | as written, at end of stdin with no '\n' buffered every pass changes nothing: the loop never returns |
| `PipeServe.StdinReturnsAtEnd` | pipeserve/pipeserve.c:187-208 | the corrected loop returns at end of stdin, keeping its partial line |
| `PipeServe.HeldBackLine` | pipeserve/pipeserve.c:188-207 | as written, two lines from one read followed by EAGAIN leave the second unsent; the corrected loop sends both |
| `PipeServe.ClientSpinsOnPartialLine` | pipeserve/pipeserve.c:160-175 | as written, a peeked partial line shorter than `BUFFER` is never consumed: every pass goes round again with nothing changed, so a following 0 or -1 is never seen |
| `PipeServe.ClientReturnsOnPartial` | pipeserve/pipeserve.c:173-175 | the corrected loop leaves on such a window, with the partial line still unread and the only bytes available |
| `PipeServe.PartialLineThenClose` | pipeserve/pipeserve.c:163-175 | a client that sends "ab" and closes: the loop as written spins for any number of passes; the corrected one returns |
| `NanorcExpand.Include` | nanorc/expand.py:13-22 | including a missing file is an error; every error the pass reports is a missing file that really is absent, or an `#include` cycle whose reported chain extends the current one and ends with a file already on it. The `#include` name is the corrected one, without a CRLF line's '\r' |
| `NanorcExpand.IncludeLineReplaced` | nanorc/expand.py:16-22 | an `#include` line and its '\n' give way to the included file; a file already on the chain is a cycle error |
| `NanorcExpand.OtherLineIncluded` | nanorc/expand.py:22 | a line that is not an `#include` line is kept with its '\n' |
| `NanorcExpand.IncludeSelf` | nanorc/expand.py:14-20 | a file that includes itself is an `#include` cycle |
| `NanorcExpand.IncludedTwice` | nanorc/expand.py:13-22 | cycle detection is per chain: a file included twice by one parent is inlined twice |
| `NanorcExpand.NoInclusions` | nanorc/expand.py:22 | text with no '#' is kept as it is |
| `NanorcExpand.CarriageReturnKept` | nanorc/expand.py:22 | as written the name of a CRLF `#include` line keeps its '\r'; the corrected name drops it |
| `NanorcExpand.DefineAtMatches` | nanorc/expand.py:32 | a match of the `#define` pattern is a name, one space, a value to the end of the line, then the run of line breaks that follows |
| `NanorcExpand.DefineRemoved` | nanorc/expand.py:28-32 | a `#define NAME VALUE` line is removed from the text, and its value is recorded with surrounding whitespace stripped |
| `NanorcExpand.StripPadding` | nanorc/expand.py:30 | `strip()` removes exactly the leading and trailing whitespace |
| `NanorcExpand.RedefinitionOverwrites` | nanorc/expand.py:30 | a later `#define` of a name overwrites its value, and the name keeps its first place in the dictionary |
| `NanorcExpand.NoDefinitions` | nanorc/expand.py:32 | text with no '#' holds no definition and is kept whole |
| `NanorcExpand.ScanRender` | nanorc/expand.py:45 | the left-to-right `%(\w+)%` scan loses and invents no character |
| `NanorcExpand.ExpandName` | nanorc/expand.py:34-46 | `expand(name)` writes its result back into `defns[name]` and returns it, leaving the dictionary's keys unchanged |
| `NanorcExpand.ReferenceChecks` | nanorc/expand.py:38-43 | an undefined reference is reported before the cycle check; a reference to a name on the chain is a cycle error |
| `NanorcExpand.DefinitionCycle` | nanorc/expand.py:34-43 | a definition that reaches itself through any number of references, with any text around them, does not resolve |
| `NanorcExpand.ResolveAvoids` | nanorc/expand.py:38-45 | a definition that resolves reaches only defined names, none on the chain it was reached through, and never itself |
| `NanorcExpand.ResolveAlongPath` | nanorc/expand.py:34-45 | a name reached along references resolves through that chain as it does from the top |
| `NanorcExpand.ExpandErrs` | nanorc/expand.py:34-46 | for values with no stray '%', when the plain substitution of a name fails, the memoised `expand` fails too |
| `NanorcExpand.ChainOffPath` | nanorc/expand.py:34-46 | through a chain that is not a path of references, a value already expanded is not rescanned: memoised and plain expansion then differ, so the error direction needs the path |
| `NanorcExpand.ExpandMatches` | nanorc/expand.py:34-46 | for values with no stray '%', the memoised `expand` of a name reached along references succeeds exactly when the plain substitution does, with the same value |
| `NanorcExpand.ExpandStep` | nanorc/expand.py:48 | expanding one name from the top succeeds exactly when it resolves; a definition that reaches itself is an error |
| `NanorcExpand.SelfReference` | nanorc/expand.py:41-43 | a definition that refers to itself is a cycle error |
| `NanorcExpand.MutualReference` | nanorc/expand.py:35-43 | a definition that reaches itself through another is a cycle error with the whole chain |
| `NanorcExpand.ExpandAgrees` | nanorc/expand.py:34-46 | for values with no stray '%', memoised expansion gives the plain recursive substitution, and every value written back is final |
| `NanorcExpand.MemoRescans` | nanorc/expand.py:45-46 | with a stray '%' in a value, memoisation changes the outcome: a later expansion rescans the written-back value |
| `NanorcExpand.ExpandAll` | nanorc/expand.py:48 | expanding every name in dictionary order keeps order and keys; for values with no stray '%' it succeeds exactly when every definition resolves, so an undefined name or a definition that reaches itself stops it; on success every value is fully expanded |
| `NanorcExpand.SubstituteDefined` | nanorc/expand.py:56-63 | the final substitution succeeds exactly when every reference is defined, and otherwise reports the first undefined name |
| `NanorcExpand.SubstituteResolves` | nanorc/expand.py:56-63 | after the expansion pass, each reference in the text is replaced by the full expansion of its name |
| `NanorcExpand.Preprocess` | nanorc/expand.py:24-65 | the whole script: include errors propagate; for values with no stray '%' that all resolve, the output is the text fully expanded; for such values where one does not resolve, the run fails; a file without '#' or '%' comes out unchanged. It uses the corrected `#include` name, without a CRLF line's '\r' |
| `NanorcExpand.PlainFileKept` | nanorc/expand.py:24-63 | a file without '#' or '%' passes every stage unchanged |
| `TrimNl.Stdin.Fgets` | trimnl/trimnl.c:17 | fgets stores up to n-1 bytes, stopping after a '\n' or at end of input, followed by '\0', and sets the end-of-file flag when it hits the end |
| `TrimNl.ReadPass` | trimnl/trimnl.c:17-20 | a pass ends the line at end of file or at a stored '\n', with `len == strlen(buf)`; otherwise it filled the space offered |
| `TrimNl.ReadLine` | trimnl/trimnl.c:13-24 | with realloc's pointer kept, the buffer holds the next line and its '\n' if any; `len` is its length; the size grows by `BLOCK_SIZE` per full pass; end of file is reached exactly when the line has no '\n' |
| `TrimNl.ReadLineAsWritten` | trimnl/trimnl.c:13-24 | as written, every `fgets` writes into the original block: one of them writes past its end exactly when the line, its '\n' and '\0' included, is longer than the block; otherwise the outcome is `ReadLine`'s |
| `TrimNl.StripNewline` | trimnl/trimnl.c:34 | the final '\n' is replaced by '\0' only when present, so the string is the line without its '\n' |
| `TrimNl.WriteLine` | trimnl/trimnl.c:34-37 | a line is written without its '\n', preceded by '\n' unless it is the first |
| `TrimNl.JoinStep` | trimnl/trimnl.c:31-38 | writing each line this way keeps the output equal to the input read so far minus its last '\n' |
| `TrimNl.TrimLines` | trimnl/trimnl.c:26-41 | the output equals the input with at most one trailing '\n' removed; empty input gives empty output |

## Left out

- pipeserve.c `main` and `setup_io` (pipes, fork/exec, signals, the socket, `atexit`): process, signal and socket setup. The descriptors are constructor parameters of `Server`.
- `child_io` is an empty function in the source. Its dispatch branch changes nothing.
- `check`/`scheck`/`err` become an `exited` flag when a read or accept fails. The process exit itself is not modelled.
- PipeServe.Server.SendToAll: every `send(2)` is taken to succeed, so scheck's exit on a failed send is not modelled.
- PipeServe.Server.ClientIo: the consuming `recv` is taken to succeed, because the bytes were just peeked. `close(client)` is not modelled.
- PipeServe.Server.ClientIo: when the window is a partial line shorter than `BUFFER`, the C loop peeks the same bytes again and again. If the client has closed, it spins forever (see Findings). The model is the corrected loop: it returns with `Waiting` and the bytes unread. A partial line from a client that closed then stays unread, because nothing later consumes it.
- stderr diagnostics (`connect`, `disconnect`, the client prefix): only each echoed chunk and whether the `"\\\n"` marker follows it is recorded.
- pipeserve/buffer.h is not part of this model. `BUFFER_SIZE` is a positive capacity fixed when the table is built.
- `plist`/`plist_add` are not part of this model. The table is a sequence, and the model puts a new entry at the head.
- Lists and the table are sequences, so node allocation, `free` and pointer aliasing are not captured. The cursor loops keep their order of visits.
- `rsize`/`rdata` may be NULL in C. The model always returns the window.
- The `name` allocation in pipeserve.c `main` has an off-by-one. It is argument-handling code outside this model.
- expand.py: argv handling, `--debug` printing and the message texts are left out. `sys.exit(1)` is an `Err` result. A missing file is an error result, where Python raises.
- expand.py: only the three patterns the script uses are modelled. There is no general regular-expression engine.
- NanorcExpand.Include, NanorcExpand.Preprocess: the include pass uses the corrected name, which drops the '\r' of a CRLF `#include` line. The script as written opens a name ending in '\r' (see Findings, `IncludedNameAsWritten`).
- NanorcExpand.ExpandErrs, NanorcExpand.ExpandMatches: stated for names reached along references (`RefPath`), the only way `expand` is called. With an arbitrary chain, a value already expanded would not be rescanned against it.
- trimnl: stdio buffering is left out. A read error (`ferror`, then `safe(NULL)`) is not modelled, and neither is an allocation failure.
- TrimNl.TrimLines: the input must hold no NUL byte, because `strlen` and `fputs` would cut the line there.

## Findings

| source | as written | input that shows it | evidently intended | confidence | as-written member | corrected member |
|---|---|---|---|---|---|---|
| pipeserve/buffer.c:73-76 | after splicing out the last node the cursor becomes NULL, and the loop test reads `prev->tail` through it | a table whose only entry is fd 3, then `buffer_clear(3)` | remove the entry and return | high, not executed | `LineBuffers.ClearLastCrashes` | `LineBuffers.BufferTable.Clear` |
| pipeserve/pipeserve.c:190-198 | `read` returning 0 adds nothing; with no '\n' buffered the loop `continue`s and reads 0 again, forever | stdin at end of stream with `"ab"` buffered | return at end of input | high, not executed | `PipeServe.StdinSpinsAtEnd` | `PipeServe.StdinReturnsAtEnd` |
| pipeserve/pipeserve.c:163-175 | a peeked partial line shorter than `BUFFER` makes the loop `continue` and peek the same bytes again; the 0 of a closed client behind them is never reached | a client that sends `"ab"` and closes | leave the loop and wait for more bytes | high, not executed | `PipeServe.ClientSpinsOnPartialLine` | `PipeServe.ClientReturnsOnPartial` |
| pipeserve/pipeserve.c:195-206 | a pass sends at most one chunk and then reads, so EAGAIN ends the call with a complete line still buffered | one read bringing `"a\nb\n"`, then EAGAIN | send every buffered line before waiting | medium, not executed | `PipeServe.HeldBackLine` | `PipeServe.StdinChunks` |
| trimnl/trimnl.c:22 | the pointer `realloc` returns is discarded, so `fgets` keeps writing into the original 1024-byte block | a line that, with its '\n', is 1024 bytes or longer | keep the pointer `realloc` returns | high, not executed | `TrimNl.ReadLineAsWritten` | `TrimNl.ReadLine` |
| nanorc/expand.py:22 | the greedy `(.*)` takes the '\r' of a CRLF line that `\r?` was meant to consume, so the included name ends in '\r' | a CRLF file holding `#include colors.nanorc` | the file name without '\r' | medium, not executed | `NanorcExpand.CarriageReturnKept` | `NanorcExpand.IncludedName` |
