# Parallel file search and the matrix-squaring pipeline, in Dafny

This project models the core of two operating-systems exercises.

**Parallel file search** (`exp-2-parallel-file-search`). The parts modelled are:

- A searcher thread walks a directory tree. It puts the path of every regular `.txt` file into a bounded ring buffer, then one NULL sentinel per minion. A directory that does not open ends the process, after the puts made so far.
- Controller threads take tasks from the buffer. Each sends the path to its minion process as a length-prefixed frame. It then copies the minion's result frames into the log until a frame of size 0 arrives.
- On a sentinel, the controller sends a size-0 frame and stops.
- The minion reads paths until a size-0 frame arrives. For each path whose file opens, it lowers the query and every line in place. It reports every `strstr` hit as `minion<id>: <file>:<line>:<column>\n`, and sends a size-0 frame after the file. A file that does not open gets no size-0 frame (see "## Findings").

**Interprocess communication** (`exp-1-interprocess-communication`). The parts modelled are:

- A chain of child processes. Each one reads a square matrix from the previous pipe, squares it with the cubic loop nest and passes it on.
- The helpers that close unused pipe ends, size the printed columns and lay out a contiguous 2-D block.

Modules, by source file:

- `CText`: C strings (the bytes before the first NUL) and decimal formatting (`%d`, `%ld`, `%lld`).
- `Framing`: the `size_t` size word plus payload framing that both ends of a controller/minion pipe use, and reading frames back.
- `RingBuffer`: `buffer_t` as a class over an `array`. `create_buffer`, `put_buffer` and `read_buffer` are its constructor and methods. The semaphores are counters, and a blocking wait becomes a precondition.
- `Searcher`: `is_txt`, `search_for_txt` (a recursive method over a directory tree value) and `searcher_routine`.
- `Controller`: `controller_routine` as a method over a buffer and the minion's output stream, proved equal to a functional run of it.
- `Minion`: `to_lower_case` (in place, on an `array`), `search_in_file` and the minion's main loop.
- `Exchange`: one controller and one minion connected back to back, end to end.
- `Matrix`: `square_matrix_mult` on `array2`, the pipeline of repeated squarings, `close_pipefd`, `max_length_in_matrix`, `digit_count` and `malloc_2d_long`.

The file system is a parameter. The searcher sees a tree of classified entries. The minion sees a map from path to the lines `getline` returns. A pipe is a sequence of units, each a whole size word or one byte.

## Model

| member | source | states |
|---|---|---|
| CText.CStr | exp-2-parallel-file-search/main.c:219-221 | the C string of a buffer holds no NUL and is no longer than the buffer |
| CText.CStrPrefix | exp-2-parallel-file-search/main.c:219-221 | the C string is a prefix of its buffer and, when shorter, stops at a NUL |
| CText.CStrOfTerminated | exp-2-parallel-file-search/main.c:219-221 | strlen of a NUL-free text followed by a NUL is that text, whatever follows the NUL |
| CText.CStrIdempotent | exp-2-parallel-file-search/main.c:219-221 | a C string read again is unchanged |
| CText.Decimal | exp-1-interprocess-communication/process.c:292 | `%lld` text of a number: a minus sign for a negative number, then its decimal digits |
| CText.NatDigitsRoundTrip | exp-1-interprocess-communication/process.c:290-293 | the decimal digits printed for n parse back to n |
| CText.DecimalRoundTrip | exp-1-interprocess-communication/process.c:290-293 | `%lld` output, including a leading minus sign, parses back to the number |
| CText.DecimalBytes | exp-1-interprocess-communication/process.c:290-293 | `%lld` output is at least one byte, all digits except a minus sign in front of a negative number |
| CText.NatDigitsLength | exp-1-interprocess-communication/process.c:290-293 | a number with d digits lies in [10^(d-1), 10^d) |
| Framing.CPayload | exp-2-parallel-file-search/main.c:219-221 | the bytes a writer sends for a C string: the string and its NUL |
| Framing.Frame | exp-2-parallel-file-search/main.c:219-221 | one size word holding the payload length, then the payload bytes |
| Framing.CPayloadRoundTrip | exp-2-parallel-file-search/main.c:219-221 | the strlen+1 bytes sent for a path read back as the same C string |
| Framing.ReadFrame | exp-2-parallel-file-search/main.c:225-232 | one blocking frame read: the size-0 frame, a nonzero frame with its payload, a wait for ever on an incomplete frame, or a misframed pipe |
| Framing.ReadFrameSound | exp-2-parallel-file-search/main.c:225-232 | every frame read re-encodes to the units it consumed; a read blocks only on a pipe holding a size word and fewer bytes than announced |
| Framing.ReadFrameRoundTrip | exp-2-parallel-file-search/main.c:225-232 | a written nonzero frame reads back as its payload, and the size-0 frame as the end marker |
| Framing.ReadFrameAdvance | exp-2-parallel-file-search/main.c:225-232 | a read moves the reader just past the frame it consumed |
| Framing.Frames | exp-2-parallel-file-search/minion.c:70-73 | the frames of a run of messages, each sent with its NUL, in order |
| Framing.FramesAppend | exp-2-parallel-file-search/minion.c:70-73 | the frames of two message runs are the frames of each run, in order |
| Framing.DrainFrames | exp-2-parallel-file-search/main.c:224-239 | the inner `while (1)`: read frames until one of size 0, or until the pipe blocks or is misframed |
| Framing.DrainFrameFirst | exp-2-parallel-file-search/main.c:224-239 | one data frame at the front of a pipe is the first payload the inner loop reads |
| Framing.DrainRoundTrip | exp-2-parallel-file-search/main.c:224-239 | draining the frames of a message list and a size-0 frame yields exactly those payloads, and leaves the rest of the pipe |
| RingBuffer.ModSmall | exp-2-parallel-file-search/main.c:282 | the cursor update `% size` is one wrap-around for the cursor values that occur |
| RingBuffer.Buffer.constructor | exp-2-parallel-file-search/main.c:248-267 | a new buffer is empty, with both cursors at 0, `empty` = size and `full` = 0 |
| RingBuffer.Buffer.Put | exp-2-parallel-file-search/main.c:274-286 | writes the slot at `in` and no other slot, advances `in` modulo size, appends the value to the contents and moves one unit from `empty` to `full` |
| RingBuffer.Buffer.Get | exp-2-parallel-file-search/main.c:293-308 | returns the slot at `out`, which is the oldest item, advances `out` modulo size and removes that item |
| RingBuffer.Apply | exp-2-parallel-file-search/main.c:274-308 | one put or get keeps the buffer valid; what a get returns, followed by what stays, is the old contents plus what a put added |
| RingBuffer.Drive | exp-2-parallel-file-search/main.c:274-308 | any operation sequence the semaphores admit keeps 0 <= full <= size, and items come out in put order (FIFO) |
| RingBuffer.ZeroCapacityBlocks | exp-2-parallel-file-search/main.c:262-282 | with capacity 0 no put or get is ever admitted, since `empty` starts at 0 |
| RingBuffer.PutsAppend | exp-2-parallel-file-search/main.c:274-286 | one more operation adds its put value, if any, at the end of the puts |
| Searcher.IsTxt | exp-2-parallel-file-search/main.c:195-198 | is_txt: longer than four bytes and ending in ".txt" |
| Searcher.IsTxtStem | exp-2-parallel-file-search/main.c:195-198 | a name passes is_txt exactly when it is a non-empty stem followed by ".txt" |
| Searcher.IsTxtExamples | exp-2-parallel-file-search/main.c:195-198 | ".txt" alone and "a.TXT" are rejected, "a.txt" is accepted |
| Searcher.JoinPathInjective | exp-2-parallel-file-search/main.c:163-166 | within one directory, different entry names give different sub-paths |
| Searcher.TxtFiles | exp-2-parallel-file-search/main.c:153-188 | the walk as a function: the puts in order, and whether an opendir failed and ended the process at that point |
| Searcher.EntryFiles | exp-2-parallel-file-search/main.c:169-186 | one pass of the readdir loop: recurse into proper sub-directories, put a `.txt` regular file, skip the rest |
| Searcher.SearchForTxt | exp-2-parallel-file-search/main.c:153-188 | the recursive walk puts exactly the paths of the functional walk, in order, and exits exactly where it does, keeping the puts made before the exit |
| Searcher.TxtFilesAreTxtVisits | exp-2-parallel-file-search/main.c:157-187 | the paths put are the regular `.txt` files of a depth-first pre-order visit up to the first unreadable proper sub-directory; the walk exits exactly when there is one; an unreadable root exits with no puts |
| Searcher.EntryFilesAreTxtVisits | exp-2-parallel-file-search/main.c:169-186 | the same for one directory entry: skip pseudo-entries, recurse into directories, put `.txt` regular files, and stop at the first unreadable directory with the puts made before it |
| Searcher.BeforeBlockedAppend | exp-2-parallel-file-search/main.c:157-186 | the visits before the first unreadable directory of two runs of visits: those of the first run if it has one, else all of it and those of the second |
| Searcher.ConcatAllFlatten | exp-2-parallel-file-search/main.c:162-187 | the puts of consecutive entries are the `.txt` paths among their visits concatenated, up to the first unreadable directory, and the listing exits exactly when one of them does |
| Searcher.TxtFilesShape | exp-2-parallel-file-search/main.c:163-198 | every path put starts with the root path and '/', ends in ".txt", and is longer than both |
| Searcher.EntryFilesShape | exp-2-parallel-file-search/main.c:163-198 | the same for the paths put for one entry |
| Searcher.ConcatAllStaysExited | exp-2-parallel-file-search/main.c:157-160 | once an opendir has failed, nothing later in the listing runs: the entries after it add no puts |
| Searcher.ExitKeepsEarlierPuts | exp-2-parallel-file-search/main.c:157-186 | a listing of "a.txt" then an unreadable "sub" puts "r/a.txt" and then exits |
| Searcher.ConcatAllMember | exp-2-parallel-file-search/main.c:162-187 | every path put comes from one entry of the listing |
| Searcher.Sentinels | exp-2-parallel-file-search/main.c:142-144 | `n` sentinels, none for a non-positive count |
| Searcher.SearcherPuts | exp-2-parallel-file-search/main.c:136-146 | the searcher thread as a function: the walk's puts, then `minion_count` sentinels unless the walk exited |
| Searcher.SearcherRoutine | exp-2-parallel-file-search/main.c:136-146 | the searcher thread's puts are those of the walk followed by the sentinels, or only the walk's when it exited |
| Searcher.SearcherExits | exp-2-parallel-file-search/main.c:136-160 | a searcher whose walk exits has put the `.txt` paths before the unreadable directory and no sentinel |
| Searcher.SearcherSentinels | exp-2-parallel-file-search/main.c:140-144 | after a walk that does not exit, the searcher puts exactly one sentinel per minion, all after every path |
| Searcher.SentinelsCount | exp-2-parallel-file-search/main.c:142-144 | the sentinel loop puts `minion_count` sentinels |
| Searcher.NoSentinelInPaths | exp-2-parallel-file-search/main.c:183-186 | the walk itself never puts a sentinel |
| Searcher.CountSentinelsAppend | exp-2-parallel-file-search/main.c:138-144 | sentinels of the walk followed by the sentinel loop add up |
| Controller.ControllerRun | exp-2-parallel-file-search/main.c:211-240 | the controller as a function of its tasks and the minion's output: what it writes, logs and dequeues, and how it stops |
| Controller.ControllerRoutine | exp-2-parallel-file-search/main.c:208-241 | writes, logs and dequeues exactly what the functional controller run does on the buffer's contents and the minion's output, and how it stops (finished, waiting forever, misframed) |
| Controller.TakeTask | exp-2-parallel-file-search/main.c:212 | read_buffer hands out the next task in buffer order |
| Controller.ServePath | exp-2-parallel-file-search/main.c:219-239 | sending one path and copying its results advances the controller along its functional run |
| Controller.Collect | exp-2-parallel-file-search/main.c:224-239 | the controller while collecting results: log each frame's C string, return to the buffer on size 0, stop on a blocked or misframed pipe |
| Controller.CopyResults | exp-2-parallel-file-search/main.c:224-239 | the inner loop logs the C strings of exactly the frames before the size-0 frame, and resumes right after it |
| Controller.CollectDrains | exp-2-parallel-file-search/main.c:224-239 | collecting results is draining frames until the size-0 frame, then going back to the buffer; a blocked or garbled pipe stops the controller there |
| Controller.FinishesAtFirstSentinel | exp-2-parallel-file-search/main.c:211-217 | the controller finishes only on a sentinel, and it takes only paths before that sentinel |
| Controller.CollectTakes | exp-2-parallel-file-search/main.c:211-239 | the same, from the point where results are being collected |
| Controller.OuterStep | exp-2-parallel-file-search/main.c:211-222 | a sentinel ends the run with one size-0 frame; a path sends strlen+1 bytes and goes on to collect results |
| Controller.InnerStep | exp-2-parallel-file-search/main.c:224-239 | the inner loop, seen from the outer loop: the drained payloads are logged and the run resumes on what follows |
| Controller.DrainAfterFrames | exp-2-parallel-file-search/main.c:224-239 | draining after payloads already read is draining from the current point with those payloads in front |
| Controller.PrependTwice | exp-2-parallel-file-search/main.c:211-240 | two stretches of the controller's output compose |
| Minion.ToLowerByte | exp-2-parallel-file-search/minion.c:92 | tolower never yields a capital, changes exactly 'A'..'Z', each by +32, and maps letters to letters |
| Minion.LowerIdempotent | exp-2-parallel-file-search/minion.c:89-94 | lowering twice equals lowering once, and leaves no upper-case letter |
| Minion.LowerCStr | exp-2-parallel-file-search/minion.c:91 | lowering neither adds nor moves a NUL |
| Minion.LowerInPlace | exp-2-parallel-file-search/minion.c:89-94 | the buffer after to_lower_case, byte by byte up to the first NUL |
| Minion.LowerInPlaceSplit | exp-2-parallel-file-search/minion.c:89-94 | to_lower_case lowers the C string and leaves the bytes from the NUL on untouched |
| Minion.LowerInPlaceFacts | exp-2-parallel-file-search/minion.c:89-94 | it keeps the buffer length, its C string is the lowered C string, and it is idempotent |
| Minion.ToLowerCase | exp-2-parallel-file-search/minion.c:89-94 | the loop leaves the array holding the lowered C string, then its unchanged tail |
| Minion.StrStr | exp-2-parallel-file-search/minion.c:65 | a hit lies within the line, at or after the search start |
| Minion.StrStrFirst | exp-2-parallel-file-search/minion.c:65 | strstr returns the first occurrence at or after the start, and fails only when there is none |
| Minion.ColumnsFrom | exp-2-parallel-file-search/minion.c:63-76 | the inner `while` of search_in_file: the 1-based columns of each strstr hit, restarting one byte after the hit |
| Minion.ColumnsIncreasing | exp-2-parallel-file-search/minion.c:63-76 | the columns reported for a line strictly increase and stay within the line |
| Minion.ColumnsExact | exp-2-parallel-file-search/minion.c:63-76 | a column is reported if and only if the query occurs at the 0-based position before it, so overlapping hits all count |
| Minion.OverlappingExample | exp-2-parallel-file-search/minion.c:65-75 | "aa" in "aaa" is reported at columns 1 and 2 |
| Minion.TagMember | exp-2-parallel-file-search/minion.c:66-68 | a line's matches are exactly its line number paired with its columns |
| Minion.FileMatches | exp-2-parallel-file-search/minion.c:59-78 | the (line, column) matches of a file's lines, in scan order |
| Minion.FileMatchesExact | exp-2-parallel-file-search/minion.c:59-78 | (line, column) is reported if and only if the line exists (1-based) and the lowered query occurs at column-1 of the lowered line |
| Minion.FileMatchesOrdered | exp-2-parallel-file-search/minion.c:59-78 | matches come out ordered by line, then column, on line numbers 1..n |
| Minion.FooBarExample | exp-2-parallel-file-search/minion.c:54-78 | query "FOO" over "foo bar\n", "nofoobar\n" yields line 1 column 1, then line 2 column 3 |
| Minion.ScannedPlain | exp-2-parallel-file-search/minion.c:61 | a line with no NUL and no capital is searched as read |
| Minion.OneLineMatches | exp-2-parallel-file-search/minion.c:59-78 | a one-line file reports that line's columns on line 1 |
| Minion.TwoLineMatches | exp-2-parallel-file-search/minion.c:59-78 | a two-line file reports line 1's columns, then line 2's |
| Minion.Message | exp-2-parallel-file-search/minion.c:68 | the `sprintf` result line for one match |
| Minion.LocationRoundTrip | exp-2-parallel-file-search/minion.c:68 | the line and column read back from the end of the message that reports them |
| Minion.LocationOfTail | exp-2-parallel-file-search/minion.c:68 | the last two colon-separated numbers of any message-shaped text read back |
| Minion.MessageNulFree | exp-2-parallel-file-search/minion.c:68-73 | a message holds no NUL when id and file hold none, so the controller logs it whole |
| Minion.ScanReply | exp-2-parallel-file-search/minion.c:54-80 | the reply to a file that opened: the query lowered, one frame per match, then the size-0 frame |
| Minion.SearchReplyAsWritten | exp-2-parallel-file-search/minion.c:48-83 | search_in_file as written: an unopened file gets no frame at all |
| Minion.SearchReply | exp-2-parallel-file-search/minion.c:48-83 | search_in_file as corrected: an unopened file gets the size-0 frame and leaves the query as it was |
| Minion.SearchReplyFramed | exp-2-parallel-file-search/minion.c:48-83 | the corrected reply is one frame per message, then the size-0 frame, and the query's C string keeps its length |
| Minion.SearchReplyLowersQuery | exp-2-parallel-file-search/minion.c:54 | the query buffer is lowered in place when the file opens, and later tasks see the lowered query |
| Minion.SearchReplyIgnoresCase | exp-2-parallel-file-search/minion.c:54-61 | the reply is the same for the query and for its lowered form |
| Minion.LastIndexOf | exp-2-parallel-file-search/minion.c:68 | the position found holds the byte and no later byte is that byte; none means the byte is absent |
| Minion.ScanLine | exp-2-parallel-file-search/minion.c:63-76 | the inner loop sends one framed message per column of the line, in order |
| Minion.ScanLines | exp-2-parallel-file-search/minion.c:59-80 | the line loop sends one framed message per match of the file, in order, then the size-0 frame |
| Minion.SearchInFile | exp-2-parallel-file-search/minion.c:48-83 | search_in_file sends, records and leaves in the query buffer exactly the corrected reply |
| Minion.MinionRun | exp-2-parallel-file-search/minion.c:26-39 | the main loop as a function of its input pipe, with the corrected reply: the replies to each path until the size-0 frame |
| Minion.SearchReplyAgreement | exp-2-parallel-file-search/minion.c:48-83 | the as-written and corrected replies are equal exactly when the file opens, and always leave the same query |
| Minion.MinionRunAsWritten | exp-2-parallel-file-search/minion.c:26-39 | the main loop as written, answering each path with the as-written reply |
| Minion.MinionServe | exp-2-parallel-file-search/minion.c:35-37 | one pass of the main loop on a nonzero frame: search the file it names with the corrected reply, then read on with the updated query |
| Minion.MinionStep | exp-2-parallel-file-search/minion.c:26-38 | a nonzero frame is one path: its corrected reply goes out, then the loop resumes right after the frame with the updated query |
| Minion.Serve | exp-2-parallel-file-search/minion.c:35-37 | one loop pass reads one frame and serves it, moving the read position forward |
| Minion.Minion | exp-2-parallel-file-search/minion.c:26-39 | the main loop's output, messages, final query and way of stopping are those of the functional minion run |
| Minion.MinionRunIgnoresCase | exp-2-parallel-file-search/minion.c:26-39 | the minion's output does not depend on the case of the query |
| Exchange.ReplyListIgnoreCase | exp-2-parallel-file-search/minion.c:54 | the replies to a task list are the same for the query and for its lowered form |
| Exchange.ReplyNulFree | exp-2-parallel-file-search/minion.c:68 | the messages of one reply hold no NUL |
| Exchange.CStrsOfPayloads | exp-2-parallel-file-search/main.c:231-235 | logging the payloads of NUL-free messages logs the messages themselves |
| Exchange.MinionAnswers | exp-2-parallel-file-search/minion.c:26-83 | with the corrected reply: given the framed paths and the size-0 frame, the minion exits after sending each path's reply in turn |
| Exchange.ControllerServesOne | exp-2-parallel-file-search/main.c:219-239 | a path task with its full reply waiting sends the path, logs the reply's messages and moves to the next task |
| Exchange.ControllerCollects | exp-2-parallel-file-search/main.c:208-241 | with one complete reply per path, the controller sends every path, logs every reply, takes the sentinel and finishes |
| Exchange.ExchangeRoundTrip | exp-2-parallel-file-search/main.c:208-241 | with the corrected reply: one controller and its minion terminate, and the log receives exactly the minion's messages, in order |
| Exchange.MinionAsWrittenAgrees | exp-2-parallel-file-search/minion.c:26-83 | when every path names a file that opens, the minion as written runs exactly as the corrected one |
| Exchange.ExchangeRoundTripAsWritten | exp-2-parallel-file-search/main.c:208-241 | for the program as written, when every file opens: one controller and its minion terminate, and the log receives exactly the minion's messages, in order |
| Exchange.FileRepliesNulFree | exp-2-parallel-file-search/minion.c:68-73 | no message of a whole exchange holds a NUL |
| Exchange.UnopenedFileDeadlocksAsWritten | exp-2-parallel-file-search/minion.c:49-53 | as written, a file that does not open gets no size-0 frame, so the controller blocks in its read and the minion blocks waiting for its next task |
| Exchange.UnopenedFileFinishes | exp-2-parallel-file-search/minion.c:49-53 | as corrected, the same exchange finishes, with nothing logged |
| Matrix.SquareMatrixMult | exp-1-interprocess-communication/process.c:197-212 | the result array is newly allocated and holds the matrix product of the input with itself |
| Matrix.AccumulateEntry | exp-1-interprocess-communication/process.c:204-207 | the `k` loop sets entry (i, j) to the dot product of row i and column j, and changes no other entry |
| Matrix.MulAssociative | exp-1-interprocess-communication/process.c:197-212 | the product is associative |
| Matrix.AssociativeEntry | exp-1-interprocess-communication/process.c:205-207 | the (i, j) entries of (AB)C and A(BC) agree |
| Matrix.MatPowAdd | exp-1-interprocess-communication/process.c:124 | M^a · M^b = M^(a+b) |
| Matrix.SquarePower | exp-1-interprocess-communication/process.c:124 | squaring M^(2^p) yields M^(2^(p+1)) |
| Matrix.InputPipe | exp-1-interprocess-communication/process.c:120 | each process reads the pipe whose writer precedes it in the ring |
| Matrix.InputPipeUnique | exp-1-interprocess-communication/process.c:120-129 | a process has exactly one input pipe |
| Matrix.Pipeline | exp-1-interprocess-communication/process.c:54-136 | after pcount-1 children each square the matrix, the main process reads M^(2^(pcount-1)) |
| Matrix.ClosePipefd | exp-1-interprocess-communication/process.c:162-172 | a process closes every pipe end except its own input read end and output write end: 2·pcount-2 ends |
| Matrix.DigitCount | exp-1-interprocess-communication/process.c:290-293 | digit_count: the length of the `%lld` output |
| Matrix.DigitCountMagnitude | exp-1-interprocess-communication/process.c:290-293 | digit_count is at least 1, is 1 for 0, counts the minus sign, and a d-digit magnitude lies in [10^(d-1), 10^d) |
| Matrix.RowMaxIsMax | exp-1-interprocess-communication/process.c:274-280 | a row's running value bounds every |entry| of the row, and is 0 or equals one of them |
| Matrix.MatMaxIsMax | exp-1-interprocess-communication/process.c:269-281 | the same over the whole matrix |
| Matrix.ScanRow | exp-1-interprocess-communication/process.c:274-280 | the `j` loop raises the running maximum to the row's largest magnitude |
| Matrix.MaxLengthInMatrix | exp-1-interprocess-communication/process.c:269-283 | the width is the digit count of the largest magnitude, plus 2 |
| Matrix.WidthAtLeastThree | exp-1-interprocess-communication/process.c:282 | every column is at least three characters wide |
| Matrix.Malloc2DLong | exp-1-interprocess-communication/process.c:301-320 | the block and the row table are newly allocated; the block holds m·n cells, and row i starts at i·n with its n cells inside the block |
| Matrix.RowInBlock | exp-1-interprocess-communication/process.c:317-319 | every row i < m ends within the block |
| Matrix.RowMajorInRange | exp-1-interprocess-communication/process.c:304 | every cell (i, j) lies inside the block |
| Matrix.RowMajorInjective | exp-1-interprocess-communication/process.c:317-319 | two cells share an offset only if they are the same cell: rows do not overlap |
| Matrix.RowMajorOnto | exp-1-interprocess-communication/process.c:304-319 | every offset of the block belongs to one cell |

## Left out

- Threads, semaphores and the log mutex. The buffer is driven by one admissible sequence of operations. Each controller is modelled on its own, so interleavings of several controllers and of log writes are not modelled.
- The `main` functions' wiring: argument parsing with `atoi`, `fork`, `pipe`, `dup2`, `execvp`, `pthread_create` and `pthread_join`, and the number of controllers and minions. Neither program reaps its child processes, and that is not modelled either.
- Partial reads and writes, and the native width and byte order of `size_t` on the pipes. A size word is one unit.
- The file system. `opendir`, `readdir`, `stat` and the `d_type` fallback become a tree of classified entries that records whether each directory opens. `fopen` and `getline` become a map from path to lines.
- `printf`, `fprintf`, the log and `.out` headers and `print_matrix`'s layout. Only the width `max_length_in_matrix` computes is modelled.
- `scan_matrix`, `create_pipefd`, `free_pipefd`, `free_2d_long`, `malloc`/`free` and their failure exits.
- Matrix.Pipeline: keeps the matrices passed between processes as a sequence of arrays in one process. It does not model the pipes' file descriptors or the order in which processes run.
- Matrix.SquareMatrixMult: uses unbounded integers. The source's `long long` arithmetic can overflow. The same holds for `-matrix[i][j]` on `LLONG_MIN` in MaxLengthInMatrix.
- Matrix.Malloc2DLong: does not model `int` overflow of `m * n`. `array<nat>` row offsets stand for the row pointers.
- Minion.SearchInFile: requires a non-empty query, because with an empty query `strstr` matches at every position and the loop then steps past the line's NUL. Messages are not cut at the 256-byte `message` buffer. Line numbers and columns are not limited to `int` and `long`.
- RingBuffer.Buffer.constructor: requires a capacity of at least 1. With size 0 the `empty` semaphore starts at 0, so the first put waits for ever (RingBuffer.ZeroCapacityBlocks), and the model builds no such buffer. A negative size is not modelled.
- Exchange.ExchangeRoundTrip, Exchange.MinionAnswers, Minion.MinionRun, Minion.MinionServe, Minion.MinionStep and Minion.SearchReplyFramed: stated of the corrected reply. For the program as written they hold only when every task's file opens (Exchange.ExchangeRoundTripAsWritten). When a file does not open, the as-written exchange deadlocks (see ## Findings).
- A subdirectory that `opendir` cannot open is fatal (`exit(1)`) in the code, just as an unreadable root is. The model follows the code: the walk ends there, and the paths it put before stay in the buffer. Skipping such a directory is not modelled. What controllers and minions do with those paths while the process exits is not modelled.

## Findings

| source | as written | input that shows it | evidently intended | confidence | as-written member | corrected member |
|---|---|---|---|---|---|---|
| exp-2-parallel-file-search/minion.c:49-53 | when `fopen` fails, `search_in_file` returns before writing the size-0 frame | one path whose file does not open: the controller's inner loop reads a size word that never comes and blocks forever, so the searcher's sentinels are never consumed | a file that cannot be opened gets no match messages but still gets the size-0 frame, so the controller moves to its next task | not executed | Exchange.UnopenedFileDeadlocksAsWritten | Exchange.UnopenedFileFinishes |

The as-written reply is `Minion.SearchReplyAsWritten`, and the as-written main loop is `Minion.MinionRunAsWritten`. The corrected reply is `Minion.SearchReply`. `Minion.SearchInFile`, `Minion.Minion`, `Minion.MinionRun` and the exchange lemmas built on them use the corrected reply. `Exchange.MinionAsWrittenAgrees` and `Exchange.ExchangeRoundTripAsWritten` carry the end-to-end guarantee over to the program as written, for runs where every file opens.
