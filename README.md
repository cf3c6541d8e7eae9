# A verified model of three small C programs

This project models three C programs in Dafny and proves properties of the models.

**3coloring** searches for a small set of edges whose removal makes a graph 3-colourable.
- Any number of `generator` processes each colour the nodes at random. Each collects the edges whose two ends got the same colour. When that set is small enough, it publishes the set into a ring of `MAX_DATA` = 50 solutions in shared memory.
- One `supervisor` process reads the ring and keeps the best solution it has seen. It stops when it reads a solution with no edges, which means the graph is 3-colourable.
- The processes synchronise through three POSIX semaphores:
  - `free` starts at 50;
  - `used` starts at 0;
  - a write mutex starts at 1.
- A shared `shmTracker` counts the running generators. The supervisor uses it at shutdown to wake them.

**myexpand** copies text to a file or to stdout and replaces every tab with spaces up to the next tab stop. The tab stop is 8 unless `-t` gives another.

**ClientServer** is a minimal HTTP/1.1 pair.
- The client splits an `http://` URL into a host, a resource and a local file name. It sends a `GET` and checks the status line of the reply. It then skips the header and keeps the body.
- The server classifies the request line as one of the following: 500 when no line can be read, 400 when the line is malformed, 501 when the method is not `GET`, 404 when the document is missing, and 200 otherwise. It builds the document path into a local array. It then writes an error header, or a success header followed by the file.

**How the model is built**
- Concurrency becomes a sequential state machine.
  - Each operation protected by a semaphore is one atomic step.
  - A semaphore is an integer counter, and a wait that would block is a precondition of its step.
  - The shared region is the class `SharedMemory.Shm`. Its value-level twin, `Ring.Shared`, is what its `State()` returns.
  - The ring's step functions take the cursor modulus as a parameter. The same definitions therefore describe the program as written (modulus `MAX_EDGES` = 8) and the corrected ring (modulus 50).
- Inputs that come from the environment become parameters:
  - `rand()` becomes a sequence of draws;
  - the server's file system (`fopen`) is a map from path to contents;
  - the date `strftime` produces is a string;
  - a socket stream is a string.
- The C string routines the programs rely on are functions over `seq<char>` in `CStrings`: `strtok`, `strsep`, `strrchr`, `strcspn`, the first `getline` of a stream, and `strtol`.
- The code that works by changing state in place is written as methods over arrays and the `Shm` class, proved against the functions that specify it. This covers the generator's node table, its recolouring and conflict collection, the ring operations, and myexpand's output loop.

**Modules**

| file | module | models |
|---|---|---|
| `three_color.dfy` | `ThreeColor` | `3color.h`: `MAX_DATA`, `MAX_EDGES`, nodes, edges, `solution_t` |
| `cstrings.dfy` | `CStrings` | `strtok`, `strsep`, `strrchr`, `strcspn`, first line of a stream, `strtol`, `%d` rendering |
| `ring.dfy` | `Ring` | the shared region and semaphores as a value, publish and consume, traces, both ring defects |
| `shared_memory.dfy` | `SharedMemory` | `shm_t` as a class over an array of slots |
| `generator.dfy` | `Generator` | `generator.c` |
| `supervisor.dfy` | `Supervisor` | `1B/supervisor.c` |
| `myexpand.dfy` | `MyExpand` | `myexpand.c` |
| `http_text.dfy` | `HttpText` | the three-token first line shared by the client and the server |
| `client.dfy` | `Client` | `client.c` |
| `server.dfy` | `Server` | `server.c` |
| `exchange.dfy` | `Exchange` | the client and the server run against each other |

## Model

| member | source | states |
|---|---|---|
| ThreeColor.ZeroSolution | 3coloring/3color.h:32-70 | a zeroed `solution_t` has `MAX_EDGES` edge places and no edges |
| Ring.Initial | 3coloring/1B/supervisor.c:139-146 | defines the state after the supervisor's set-up: 50 zeroed slots, quit, cursors and tracker 0, semaphores 50, 0 and 1 (its properties are in `Ring.InitialIsSound`) |
| Ring.Advance | 3coloring/generator.c:228 | a cursor moved by `(pos + 1) % m` stays in [0, m), moves up by one below m - 1, and wraps to 0 at m - 1 |
| Ring.Publish | 3coloring/generator.c:223-232 | publishing keeps the bounds and used + free, stores the solution in `slots[write]`, and leaves every other slot unchanged |
| Ring.Consume | 3coloring/1B/supervisor.c:150-158 | consuming keeps the bounds and used + free, returns `slots[readPos]`, and leaves the slots and the write cursor unchanged |
| Ring.FanOut | 3coloring/1B/supervisor.c:88 | the number of posts of the `size_t` loop is the tracker when it is in range, and the tracker + 2^64 when it is negative |
| Ring.InitialIsSound | 3coloring/1B/supervisor.c:139-146 | the supervisor's initial region meets the bounds for both moduli, keeps used + free = 50, and has no unread solution |
| Ring.Run | 3coloring/1B/supervisor.c:150-158 | a run of steps that does not block ends within the bounds and reads at most one solution per step |
| Ring.RunKeepsInvariants | 3coloring/1B/supervisor.c:144-157 | over any run of publish and consume steps the cursors stay below the modulus, used + free stays 50, and used = used before + published - read |
| Ring.PublishAppends | 3coloring/generator.c:223-232 | with the slot-count modulus, a publish appends its solution to the queue of unread solutions |
| Ring.ConsumePops | 3coloring/1B/supervisor.c:151-157 | with the slot-count modulus, a consume returns the head of the unread queue and leaves its tail |
| Ring.CorrectedRunIsFifo | 3coloring/1B/supervisor.c:155 | the corrected ring (modulus 50) reads exactly the published solutions in publish order: read + still unread = unread before + published |
| Ring.CorrectedReadsPrefix | 3coloring/1B/supervisor.c:155 | from the initial state the corrected ring hands out a prefix of the published solutions |
| Ring.AfterPubs | 3coloring/generator.c:223-232 | after k publishes into the ring as written, write = k mod 8, free = 50 - k, used = k, and the last solution sits at slot (k - 1) mod 8 |
| Ring.FloodFrom | 3coloring/generator.c:228 | from the state after any prefix of the flood, the rest of the flood goes through and reads what slot 0 holds after nine publishes |
| Ring.AsWrittenOverwritesUnread | 3coloring/generator.c:228 | as written, the free semaphore admits nine publishes, and the first read returns the ninth solution instead of the first |
| Ring.Attach | 3coloring/generator.c:266-274 | a generator counts itself (tracker + 1) exactly when quit is not set; otherwise the tracker is unchanged |
| Ring.DetachAsWritten | 3coloring/generator.c:203-204 | defines the generator's `closeUp` as written: the tracker is decremented unconditionally |
| Ring.DetachCorrected | 3coloring/generator.c:203-204 | defines the corrected `closeUp`: only a generator that counted itself decrements the tracker |
| Ring.Replay | 3coloring/generator.c:266-274 | defines the tracker and the number of running counted generators after a sequence of starts, exits and quit events, with either `closeUp` |
| Ring.CorrectedTrackerCountsLive | 3coloring/generator.c:203-204 | with the corrected `closeUp`, the tracker always equals the number of counted generators still running, is never negative, and the fan-out posts once per generator |
| Ring.AsWrittenTrackerUnderflows | 3coloring/generator.c:203-204 | as written, a generator that starts after quit is set drops the tracker to -1, and the bound of the shutdown loop becomes 2^64 - 1 |
| SharedMemory.Shm.Create | 3coloring/1B/supervisor.c:134-146 | for a region and semaphores created fresh, the new region is the initial state: slots zeroed, flags and cursors 0, semaphores 50, 0, 1 |
| Generator.FindNode | 3coloring/generator.c:160-167 | a found position is in range |
| Generator.FindNodeFirst | 3coloring/generator.c:160-167 | the search finds nothing exactly when no node has the index, and otherwise the first node that has it |
| Generator.FindNodeIndicesOnly | 3coloring/generator.c:160-167 | the result of the search depends only on the node indices, not on the colours |
| Generator.Conflicts | 3coloring/generator.c:183-192 | the conflicts among the first n edges number at most n |
| Generator.ConflictsPrefix | 3coloring/generator.c:183-192 | looking at more edges only appends to the conflicts found so far |
| Generator.ConflictsSound | 3coloring/generator.c:186 | every conflict is an edge whose two ends have the same colour |
| Generator.ConflictsComplete | 3coloring/generator.c:186 | every edge among the first n whose ends have the same colour is a conflict |
| Generator.ConflictsCount | 3coloring/generator.c:193 | there are no conflicts iff no edge is monochromatic, and all edges are conflicts iff every edge is |
| Generator.EndpointsHas | 3coloring/generator.c:128-129 | both ends of every edge are among the endpoints |
| Generator.ConvertEdge | 3coloring/generator.c:95-98 | defines the edge read from a token: the values of the digits before and after the '-' (tied to the two `strtok` calls by `Generator.ConvertEdgeIsStrtok`) |
| Generator.DedupSound | 3coloring/generator.c:80-87 | de-duplication keeps each value exactly once, and no other values |
| Generator.ConvertEdgeIsStrtok | 3coloring/generator.c:95-98 | strtok on "-" yields the two digit runs of the token, and the edge holds their values |
| Generator.ConvertEdgeReadsBack | 3coloring/generator.c:95-98 | the token "a-b" printed from two numbers converts back to the edge (a, b) |
| Generator.CheckNodesExisting | 3coloring/generator.c:63-70 | the result is 0 or 1, and 1 iff one of the first `currLen` nodes has the index |
| Generator.AddNodes | 3coloring/generator.c:80-87 | the result is 1 iff the index is new, in which case `nodes[currLen]` becomes (index, colour 0); nothing else changes, and the index list grows by the new index only |
| Generator.AddEndpoints | 3coloring/generator.c:128-129 | the two calls add each endpoint once, keeping the node table equal to the de-duplicated endpoints seen so far, all with colour 0 |
| Generator.ParseInput | 3coloring/generator.c:113-138 | parsing succeeds iff every argument matches the edge pattern; the edges are then the converted arguments, `edgesCount` = argc - 1, and the nodes are the distinct endpoints in order of first appearance, all with colour 0 |
| Generator.ParsedGraphIsCovered | 3coloring/generator.c:119-135 | after a parse no node index is repeated, and both ends of every edge are nodes |
| Generator.RandomNodeColor | 3coloring/generator.c:146-150 | each of the first `nodesCount` nodes gets colour draw % 3, which is in {0, 1, 2}; the indices and the other nodes are unchanged |
| Generator.GetNode | 3coloring/generator.c:160-167 | the loop returns the first of the `currLen` nodes that has the index, or none |
| Generator.CollectConflicts | 3coloring/generator.c:182-195 | the result is 1 iff the conflicts are at most `MAX_EDGES` and fewer than the edges; the solution holds the first min(conflicts, `MAX_EDGES`) conflicts in input order |
| Generator.FindSolution | 3coloring/generator.c:180-196 | recolours from the draws, then returns 1 iff all conflicts fit into the solution and not every edge conflicts; the solution holds the conflicts in input order, at most `MAX_EDGES` of them |
| Generator.CoveredAfterRecolouring | 3coloring/generator.c:146-150 | recolouring keeps every edge's ends among the nodes |
| Generator.WriteToSolutionBuffer | 3coloring/generator.c:223-232 | the shared state after the write is the publish step of the ring |
| Generator.JoinBuffer | 3coloring/generator.c:269-274 | the tracker and the counted flag are those of `Ring.Attach`; nothing else changes |
| Generator.CloseUp | 3coloring/generator.c:202-216 | the tracker is decremented whether or not this generator counted itself; nothing else changes |
| Generator.MainLoopPass | 3coloring/generator.c:278-283 | one pass recolours, and then discards the candidate exactly when `findSolution` rejects it; otherwise it publishes exactly the conflicts into the ring, or blocks without change when free is 0 |
| Supervisor.OverwriteSolutionIfBetter | 3coloring/1B/supervisor.c:65-78 | returns 0 iff the candidate has no edges, 1 iff it has fewer edges than the best (and some), and -1 otherwise; the best is replaced only on 1 and never gets worse |
| Supervisor.InitialBest | 3coloring/1B/supervisor.c:148 | the initial best has `MAX_EDGES` + 1 edges, worse than any solution a generator publishes |
| Supervisor.BestIsMinimum | 3coloring/1B/supervisor.c:150-158 | after reading non-empty solutions, the best kept is the initial best or one of them, and has no more edges than any of them |
| Supervisor.FirstPublishedIsKept | 3coloring/1B/supervisor.c:148 | the first published solution always replaces the initial best |
| Supervisor.Start | 3coloring/1B/supervisor.c:134-148 | the set-up creates the initial shared state and the initial best |
| Supervisor.Iteration | 3coloring/1B/supervisor.c:150-158 | a zero-edge solution takes one used, sets quit, and stops without moving `readPos` or posting free; any other is the ring's consume step; the best is that of `OverwriteSolutionIfBetter` |
| Supervisor.HandleSignal | 3coloring/1B/supervisor.c:28-30 | a signal sets quit and changes nothing else |
| Supervisor.CloseUp | 3coloring/1B/supervisor.c:85-91 | shutdown sets quit and posts free `FanOut(shmTracker)` times |
| MyExpand.DigitsOnly | myexpand/myexpand.c:48-55 | 0 for a string starting with '0'; otherwise 1 iff every character is a decimal digit, the empty string included |
| MyExpand.TabstopValue | myexpand/myexpand.c:121 | the tab stop stored from a digit string is its value modulo 2^32 after `strtol` clamps it at `LONG_MAX`; a value below 2^32 is kept as is |
| MyExpand.TabstopOptionAsWritten | myexpand/myexpand.c:119-125 | as written, `-t` is accepted iff `digits_only` accepts its argument, and the tab stop is then the stored value |
| MyExpand.AsWrittenAcceptsEmptyTabstop | myexpand/myexpand.c:119-125 | as written, `-t ""` is accepted and sets the tab stop to 0 |
| MyExpand.AsWrittenAcceptsWrappingTabstop | myexpand/myexpand.c:121 | as written, every multiple of 2^32 up to `LONG_MAX` is accepted and sets the tab stop to 0 |
| MyExpand.TabstopOption | myexpand/myexpand.c:119-125 | with the corrected check, `-t` is accepted iff its argument is a non-empty digit string without a leading zero whose value fits in an `int`, and the tab stop is that value, at least 1 |
| MyExpand.LeadingDigitPositive | myexpand/myexpand.c:49 | a digit string that does not start with '0' has a value of at least 1 |
| MyExpand.TabWidth | myexpand/myexpand.c:84-88 | a tab emits between 1 and tabstop spaces and ends on a multiple of the tab stop |
| MyExpand.Step | myexpand/myexpand.c:83-95 | defines one pass of the loop: a tab writes `TabWidth` spaces and resets x, a newline is written and resets x, any other character is written and increments x |
| MyExpand.ExpandState | myexpand/myexpand.c:82-96 | defines the output and x after reading the input from x = 0, one `Step` per character |
| MyExpand.MyExpandStream | myexpand/myexpand.c:79-98 | the loop writes the expansion of the whole input, followed by "\n" exactly when the output is stdout |
| MyExpand.Column | myexpand/myexpand.c:89-91 | the output column is at most the length of the output |
| MyExpand.ColumnAfterSpaces | myexpand/myexpand.c:86-88 | writing n spaces moves the column by n |
| MyExpand.StepTracksColumn | myexpand/myexpand.c:83-95 | one step keeps x congruent to the output column modulo the tab stop, and a tab ends on a tab stop |
| MyExpand.ColumnTracksX | myexpand/myexpand.c:82-96 | after any input, x is congruent to the output column modulo the tab stop |
| MyExpand.TabReachesTabStop | myexpand/myexpand.c:83-88 | after every tab, the output column is a multiple of the tab stop |
| MyExpand.NoTabIsVerbatim | myexpand/myexpand.c:82-96 | input without a tab is copied unchanged |
| MyExpand.ExpandLength | myexpand/myexpand.c:82-96 | the expansion is at least as long as the input and at most tabstop times as long |
| MyExpand.StepLength | myexpand/myexpand.c:83-95 | one step writes at least one character and at most tabstop |
| CStrings.Span | ClientServer/client.c:126 | the span is the longest prefix without a delimiter |
| CStrings.SkipDelims | ClientServer/server.c:181 | what `strtok` skips is a run of delimiters, followed by a non-delimiter or the end |
| CStrings.StrTok | ClientServer/server.c:181-183 | `strtok` returns NULL iff the text is all delimiters; otherwise it returns a non-empty token without delimiters and leaves a shorter rest |
| CStrings.StrTokAt | ClientServer/server.c:181-183 | a token that starts the text and is ended by a delimiter is returned as is, and the text after the delimiter is left |
| CStrings.StrTokWhole | ClientServer/server.c:183 | a token that runs to the end of the text leaves nothing |
| CStrings.StrSep | ClientServer/client.c:126 | `strsep` returns the text before the first delimiter and the text after it, or the whole text and NULL when there is no delimiter |
| CStrings.LastIndexOf | ClientServer/client.c:130 | `strrchr` finds nothing iff the character is absent, and otherwise finds its last occurrence |
| CStrings.FirstLine | ClientServer/client.c:238 | `getline` fails iff the stream is empty; otherwise it reads a non-empty prefix with no newline before its end, which ends in a newline unless it is the whole stream |
| CStrings.FirstLineOf | ClientServer/client.c:238 | a line of text without a newline, followed by "\n", is read whole |
| CStrings.FirstLineIs | ClientServer/server.c:169 | a line ending in its only newline is read as that line, whatever follows |
| CStrings.DigitRun | ClientServer/client.c:256 | the digit run is the longest prefix of decimal digits |
| CStrings.StrtolDigits | ClientServer/client.c:256 | `strtol` reads from a suffix of the text, after white space and a sign |
| CStrings.DecimalString | ClientServer/server.c:297-298 | `%lu` renders a non-empty digit string without a leading zero |
| CStrings.DecimalRoundTrip | ClientServer/server.c:297-298 | reading back the rendering of a number gives the number |
| HttpText.SplitLine | ClientServer/server.c:181-186 | a split line has three non-empty tokens: the first two without spaces, the third without CR or LF |
| HttpText.SplitLineOf | ClientServer/server.c:181-183 | writing three tokens as "a b c\r\n" and splitting the line gives them back |
| HttpText.FirstLineOfLine | ClientServer/server.c:169 | a message that starts with "a b c\r\n" has that as its first line |
| Client.FileOf | ClientServer/client.c:130-142 | the file name is never empty and has no '/'; it is the text after the last '/', or all the text when there is no '/', with "index.html" for an empty result or a trailing '/' |
| Client.ParseUrl | ClientServer/client.c:114-152 | a URL is rejected iff it does not start with "http://"; otherwise it is split after the scheme |
| Client.SplitUrl | ClientServer/client.c:124-151 | the host is the longest prefix without `;/?:@=&`; without a delimiter, dir is "" and the file is "index.html"; with one, dir is the text after it and the file is derived from dir |
| Client.ParseUrlOf | ClientServer/client.c:114-152 | "http://host" and "http://host/dir" are split back into the host, dir and file they were written from |
| Client.CheckExecution | ClientServer/client.c:81-88 | the options are accepted iff -o and -d are not both given |
| Client.RequestText | ClientServer/client.c:225 | the request is exactly "GET /<dir> HTTP/1.1\r\nhostname: <host>\r\nConnection: close\r\n\r\n" |
| Client.CheckStatusLine | ClientServer/client.c:238-268 | the verdict is proceed, exit 2 or exit 3; an empty reply is exit 2; proceeding needs code "200" |
| Client.StatusVerdict | ClientServer/client.c:256-268 | proceed iff version "HTTP/1.1" and code "200"; exit 3 iff version "HTTP/1.1", another code, and `strtol` does not read it as 0 (unless it is "0"); exit 2 otherwise |
| Client.VerdictOfLine | ClientServer/client.c:245-268 | the verdict on a reply is the verdict on the three tokens of its first line |
| Client.AfterFirstLine | ClientServer/client.c:238 | reading the first line leaves a shorter suffix of a non-empty stream |
| Client.SkipHeader | ClientServer/client.c:270-274 | skipping the header leaves a suffix of the stream |
| Client.SkipHeaderLines | ClientServer/client.c:270-274 | the `getline` loop stops where `SkipHeader` says, in the stream |
| Client.Received | ClientServer/client.c:238-288 | what the client keeps is the body after the header when it proceeds, and nothing when it exits |
| Client.AcceptsOk | ClientServer/client.c:256-268 | a well-formed "HTTP/1.1 200" status line lets the client proceed, with what follows it |
| Client.RejectsOtherCode | ClientServer/client.c:263-268 | any other code without a leading zero gives exit 3 |
| Client.RejectsMalformed | ClientServer/client.c:256-261 | a status line with another version gives exit 2 |
| Client.NonZeroCode | ClientServer/client.c:256 | `strtol` does not read a digit string without a leading zero as 0 |
| Client.SkipsHeaderLine | ClientServer/client.c:270-274 | a header line other than "\r\n" is skipped |
| Client.BlankLineEndsHeader | ClientServer/client.c:272-273 | the empty line "\r\n" ends the header, and what follows is the body |
| Client.SkipsKeyValue | ClientServer/client.c:270-274 | a line "key: value\r\n" is skipped |
| Server.HandleRequest | ClientServer/server.c:162-252 | the response is 500, 400, 501, 404 or "200 OK"; 500 iff the request is empty; a body iff the code is 200, and then it is one of the files |
| Server.DocumentPath | ClientServer/server.c:213-223 | defines the path that is opened: doc_root, '/', then the index file for the resource "/" and the resource otherwise |
| Server.ResponseOfLine | ClientServer/server.c:181-249 | a request whose first line splits: 400 for another version, then 501 for another method, then the document or 404 |
| Server.ServesGet | ClientServer/server.c:213-249 | a GET with version HTTP/1.1 is answered with the document at its path, or 404 |
| Server.RejectsMethod | ClientServer/server.c:199-211 | a well-formed line with another method gives 501 |
| Server.RejectsVersion | ClientServer/server.c:185-197 | a line with another version gives 400 whatever its method, because the version is checked first |
| Server.RejectsTwoTokens | ClientServer/server.c:181-197 | a line with only two tokens gives 400 |
| Server.AsWrittenPathOverflows | ClientServer/server.c:213 | as written, the path and its NUL overflow the array iff the resource is "/" or the index name is shorter than 2; for "/" they need one place more than there is |
| Server.PathBufferSize | ClientServer/server.c:213 | the corrected size is the path's length plus the NUL |
| Server.StrCpy | ClientServer/server.c:214 | `strcpy` writes the source and a NUL and leaves the rest of the array unchanged |
| Server.StrCat | ClientServer/server.c:215-222 | `strcat` writes the source from the NUL on and ends it with a NUL |
| Server.BuildPath | ClientServer/server.c:213-223 | the path built into an array of the corrected size is doc_root, "/", then the index for "/" or the resource otherwise, and its NUL is in the last place |
| Server.ErrorHeader | ClientServer/server.c:309-312 | the error header is exactly "HTTP/1.1 <code> (<description>)\r\nConnection: close\r\n\r\n" |
| Server.SuccessHeader | ClientServer/server.c:289-299 | the success header is exactly "HTTP/1.1 <code> <description>\r\nDate: <date>\r\nContent-Length: <size>\r\nConnection: close\r\n\r\n", with the size in decimal |
| Server.Reply | ClientServer/server.c:348-355 | a 200 reply is longer than its document |
| Server.RequestFileAsWritten | ClientServer/server.c:162-252 | as written, `request_file` is assigned exactly on the 200 path, and holds the served file there |
| Server.AsWrittenClosesUnassigned | ClientServer/server.c:360-363 | as written, every error response, the empty request's 500 among them, reaches the clean-up with `request_file` unassigned |
| Server.RequestFile | ClientServer/server.c:360-363 | with `request_file` initialised to NULL, the clean-up is always defined, and the field is the served file iff there is a body and NULL otherwise |
| Server.CleanupAlwaysDefined | ClientServer/server.c:360-363 | with the corrected initialisation, the clean-up after any request is defined and closes a file exactly for a 200 response |
| Exchange.RequestIsServed | ClientServer/client.c:225 | the server answers the client's request with the document at the URL's resource, or 404 |
| Exchange.SkipsSuccessHeader | ClientServer/server.c:297-298 | the client skips the header of a success reply and keeps what follows |
| Exchange.ReadsSuccess | ClientServer/server.c:289-299 | the client reads a success reply as exactly the document it carries |
| Exchange.ErrorStatus | ClientServer/server.c:310 | the code and description of every error response fit a status line the client reads as not 200 |
| Exchange.ReadsError | ClientServer/server.c:309-312 | the client reads every error reply as exit 3, with no body |
| Exchange.Fetch | ClientServer/client.c:114-152 | a whole fetch gives the client exactly the document at the URL's path, or exit 3 when there is none; the empty resource fetches the index file |

## Left out

- Real concurrency is not modelled. This covers interleavings of several processes, signal delivery, `atexit` ordering, and the claim that shutdown wakes every blocked generator. Each semaphore-protected operation is one atomic step.
- Supervisor.CloseUp: semaphore values are unbounded integers. `SEM_VALUE_MAX` is not modelled, nor the `EOVERFLOW` failure of `sem_post` beyond it, after which `postSem` (semaphore.c:66-73) exits from inside the exit handler.
- SharedMemory.Shm.Create: only a region and semaphores created fresh are modelled. `shm_open` and `sem_open` are called without `O_EXCL` (sharedmemory.c:31, semaphore.c:35), so a region or semaphore left over under the same name keeps its old slots or value.
- `waitSem` returns without acquiring when a signal interrupts it (3coloring/semaphore.c:51-58). It is treated as an ordinary wait.
- The semaphore and shared-memory wrappers are not modelled: named objects, `mmap`, `ftruncate`, `unlink` and their error exits. 3coloring/sharedmemory.c is reduced to `SharedMemory.Shm`.
- The generator's repeated reads of the volatile `quit` and `shmTracker` fields are each modelled as one read per step.
- `rand`, `srand`, `time` and `getpid` are given as a sequence of draws.
- The edge regex (generator.c:115) is the predicate `EdgeToken`.
- Generator.ParseInput: requires every matching token to have digits on both sides of the '-'. A token such as "-" or "5-" matches the regex but makes `strtok` return NULL, and `strtol` then dereferences it.
- Generator.ParseInput: the `memcpy` at generator.c:126 copies `sizeof(node_t)*argc*2` bytes from a pointer-sized variable. It is modelled as the node table being appended in place, which is what the calls at lines 128-129 reach through it.
- Generator.ConvertEdge: the values are unbounded. The overflow of a node index beyond `int` in `strtol` is not modelled.
- Generator.FindSolution: only the first `numberOfEdges` edge places of the solution are specified. The source leaves the rest zeroed.
- Generator.FindSolution: `getNode` returns NULL for an edge whose end is not a node. The model requires every end to be a node instead, which `ParseInput` establishes (`ParsedGraphIsCovered`).
- `printSolution` and the other printing in both 3coloring programs are left out (I/O).
- MyExpand.MyExpandStream: the input is a sequence of characters. Two aspects of the source are not captured:
  - the source stores `fgetc` in a `char`, so a 0xFF byte ends the input early where `char` is signed;
  - a line longer than 2^31 characters overflows `int x`.
- myexpand's `main` is left out (I/O and option parsing): the `getopt` loop, opening the input and output files, and `close_all`. Only the `-t` handling, `TabstopOption` and its as-written twin, is modelled.
- The client's option loop and `-p` port handling are left out (option parsing). So are `open_file` and the `getaddrinfo`/socket set-up (I/O).
- Client.Received: the body copy (client.c:281-288) uses `fgets`/`fputs`, which stop at a NUL byte. The model keeps the body verbatim, so `Exchange.Fetch` holds for documents without NUL bytes.
- Server.Reply: the server copies the file with `fgets`/`fputs` too (server.c:260-267), which stop at a NUL byte. The model appends the document verbatim.
- The server's header-draining `getline` loops (server.c:172-176 and others) read the rest of the request and do not affect the response. They are not modelled.
- The server's file lookup (server.c:226-238) is a map from path to contents. A file that exists but cannot be opened is not distinguished from a missing one.
- Server.SuccessHeader: the Content-Length is the length of the document. `get_file_size` uses `fseek`/`ftell`, which agree with that on regular files.
- The date is a parameter. The `strftime` format is not modelled.
- forkFFT is left out: floating-point complex arithmetic and `fork`/`pipe`/`exec` plumbing.

## Findings

| source | as written | input that shows it | evidently intended | confidence | as-written member | corrected member |
|---|---|---|---|---|---|---|
| 3coloring/generator.c:228 | both cursors wrap modulo `MAX_EDGES` (8; supervisor.c:155 too), while the free semaphore admits 50 unread solutions | nine publishes before the first read: the ninth overwrites slot 0, and the first read returns it instead of the first | wrap modulo `MAX_DATA` (50), the number of slots | high, not executed | Ring.AsWrittenOverwritesUnread | Ring.CorrectedRunIsFifo |
| 3coloring/generator.c:203-204 | `closeUp` decrements `shmTracker` even when the generator left at line 269 without incrementing it | quit set, then a generator starts: the tracker becomes -1, and the bound of the supervisor's `size_t` loop (supervisor.c:88) becomes 2^64 - 1, so it posts free until `sem_post` fails | decrement only after an increment | high, not executed | Ring.AsWrittenTrackerUnderflows | Ring.CorrectedTrackerCountsLive |
| ClientServer/server.c:213 | `path` has `strlen(doc_root) + strlen(index) + strlen(resource)` places, with no room for the '/' or the NUL | resource "/": the path and its NUL need one place more than the array has; any resource also overflows when the index name has fewer than 2 characters | one place for the '/' and one for the NUL | high, not executed | Server.AsWrittenPathOverflows | Server.BuildPath |
| myexpand/myexpand.c:119-125 | `digits_only` accepts the empty string, and the `(int)` value is stored in an `unsigned int` | `-t ""`, or `-t 4294967296`: the tab stop becomes 0 and `x % tabstop` divides by zero at the first tab | accept only a non-empty number that gives a tab stop of at least 1 | high, not executed | MyExpand.AsWrittenAcceptsEmptyTabstop | MyExpand.TabstopOption |
| ClientServer/server.c:360-363 | `request_file` is assigned only on the 200 path (server.c:250), and the clean-up after each connection reads it and calls `fclose` unless it is NULL | any request answered with an error, for example the empty request (500): `fclose` is called on an indeterminate pointer | initialise `request_file` to NULL in `handle_request` | high, not executed | Server.AsWrittenClosesUnassigned | Server.CleanupAlwaysDefined |
