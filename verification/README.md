# Verified model of pyflame

Pyflame samples a running Python process from outside. It stops the process
with ptrace, reads the interpreter's structures one machine word at a time,
sometimes runs a function inside the process, counts the stacks it finds and
prints them; `flame-chart-json` turns one of the two printed forms into a graph.
This project models these parts and proves what they promise.

| file | what it models |
|---|---|
| `Wrappers.dfy` | optional values and results that can fail |
| `RemoteMemory.dfy` | word-wise reads of the target: `PtracePeek`, `PtracePeekString`, `PtracePeekBytes` |
| `Utf8.dfy`, `PyString.dfy` | PEP 393 strings of the target as UTF-8 (sections 3 and 4 of RFC 3629) |
| `LineTable.dfy` | `co_lnotab` and the scan in `GetLine` |
| `ThreadWalk.dfy` | `FollowFrame` and `GetThreads` over linked lists in the target |
| `RemoteCall.dfy` | `AllocPage`, `PtraceCallFunction`, `PtraceCleanup` on a machine with sibling threads |
| `Session.dfy` | `DoWait`, attaching, `FindSymbols`, and the state of the tracee at every request |
| `Frames.dfy`, `Sampling.dfy` | frame equality and hash, `ProbeLoop`, both printers |
| `Text.dfy`, `FlameChart.dfy` | text as it is written and read back, and the `FCJson` reader |
| `SymbolTable.dfy` | the symbol walk, ABI detection and relocation |
| `GridSearch.dfy` | the best-first search of the test workload |

Conventions. Bytes, addresses and registers are numbers; shifts and masks on
unsigned values are written as division and remainder (`Utf8.BitForm` relates the
two). Memory is the map of mapped bytes, and a peek of a word with an unmapped
byte fails with `PtraceError`, which stands for the exception. `Aborted` stands
for a failed `assert`. `offsetof` values are fields of a record, so the results
hold for every ABI layout. A statement such as `hide F;` in a proof only keeps a
definition out of sight of the solver.

How the remote call is stated. Sibling threads may act before every ptrace
request; what they do is an arbitrary schedule. Ghost state keeps the memory as
the target's own threads wrote it (`genuine`) beside what is mapped for the
profiler (`page`). Memory is *clean* when it is exactly these two. `Sound(trail)`
says that at every point of the run memory is clean or all siblings are stopped,
and that every step of a sibling saw clean memory. `Evolves(s, t, own)` says that
`t` follows `s`, keeping `Sound`: in between siblings have taken steps of the
schedule in its order, and every byte of the target outside `own` is exactly
what the stores of these steps make of it; inside `own` the main thread may have
stored too. `Frozen(s, t)` says that no sibling has taken a step and nothing
changed at all.

How the sampling loop is stated. `At(p, samples, n)` is the target (its state and
the waitpid events still to come) as the sample with number n finds it, `Takes`,
`Ends` and `Caught` say when a sample gets its threads, ends the run or fails,
and `TurnsOf` collects this for a run. All of it depends only on the target at
the start and the samples.

A lemma whose name ends in Means says what a definition comes to in plain terms:
bytes, list positions, literal names and numbers.

## What the proofs show about the code

- `PtraceCleanup` reads the code at `rip` before it pauses the siblings
  (src/ptrace.cc:316-324). A store to that word in between is lost. This is the
  only way in which a sibling can be disturbed: `PtraceCleanup` gives the exact
  condition on the schedule, and `LostStoreExample` and `LostStoreRun` a run in
  which it happens. `AllocPage` runs after the pause and has no such window.
- After a failed `mmap`, `probe_` keeps the error value. Only `MAP_FAILED` itself
  is tested; any other raw `-errno` makes the next poke throw, and after
  `MAP_FAILED` a second call faults and leaves the registers changed.
- The retry of `munmap` is for a positive `EAGAIN`; a raw system call answers
  `-EAGAIN`, which takes the warning branch. Both are covered by the contract.
- A symbol placed exactly at the load base becomes 0 by subtraction and counts as
  missing (`RelocationExact`).
- Symbols of both Python 2 and Python 3.6 in one table make the detected ABI
  depend on table order, and nothing else does (`OrderIndependence`).
- Without line numbers two printed lines can be equal (`UniqueLinesWithoutNumbers`),
  and with them if a name contains a colon (`LinesRepeatWithColons`) or a newline
  (`LinesRepeatWithNewlines`).
- The reader links the nodes of a stack into one chain only if exactly one of the
  last two pieces of its line is not empty, as after a final semicolon
  (`RecordEnds`), and drops white space in front of the outermost frame
  (`NamesExact`).
- A sample that throws a `PtraceException` does not look at the time. On a target
  that stays stopped the deadline ends a run exactly if some sample past it gets
  its threads (`EndOfRun`); a target that is left running by a failed wait makes
  every later sample fail, so that the run does not end at all (`NeverAgain`).
- `InitiatePtrace` continues a forked child once only. If it stops before its exec
  for another reason it stays stopped, and the wait for the exec goes on until
  the child is killed.
- A compact string of the WCHAR kind reads as empty whatever its length
  (`StringDataPython3`).

## Model

| member | source | states |
|---|---|---|
| RemoteMemory.PeekString | src/ptrace.cc:187-203 | returns exactly the bytes before the first NUL for every alignment of it in a word; fails exactly when no string with its last word mapped is there; ends for every memory |
| RemoteMemory.StringUnique | src/ptrace.cc:187-203 | an address holds at most one string, so success and failure above are exact |
| RemoteMemory.NulMakesString | src/ptrace.cc:187-203 | bytes other than NUL and a NUL, mapped up to the end of its word, are such a string |
| RemoteMemory.PeekReads | src/ptrace.cc:152-160 | a peek is the number of its eight bytes, the lowest first, and fails exactly when one of them is unmapped |
| RemoteMemory.PeekBytes | src/ptrace.cc:205-220 | agrees with memory up to the size rounded to a word, and succeeds exactly when those bytes, and none beyond, are mapped |
| RemoteMemory.ToLeFromLe | src/ptrace.cc:195-216 | the bytes copied out of a peeked word are the bytes it was read from |
| Utf8.DecodeEncode | src/frob.cc:151-179 | the grammar of RFC 3629 decodes the output to the text exactly when the text has no surrogate, and rejects it otherwise |
| Utf8.EncodeDecode | src/frob.cc:159-179 | every well-formed byte string is the encoding of what it decodes to, so the output is the shortest form |
| Utf8.CharRoundTrip | src/frob.cc:159-179 | one character, with anything after it, is recognised with its length and value exactly when it is no surrogate |
| Utf8.EncodeCharBytes | src/frob.cc:159-179 | how many bytes each character takes and which of its bits are in which byte |
| Utf8.EncodeConcat | src/frob.cc:127-180 | the output is that of the characters one after the other |
| PyString.StringDataPython3 | src/frob.cc:97-183 | a compact string read through word-wise peeks is the UTF-8 of its characters whatever its kind; nothing but that and objects without units succeeds |
| PyString.StoredMeans | src/frob.cc:103-125 | which bits and words of the header say that a text is stored, of which kind, and where |
| PyString.HoldsBytes | src/frob.cc:127-143 | the characters are the little-endian numbers of one, two or four bytes |
| PyString.EncodeUnits | src/frob.cc:127-180 | the loop encodes the characters of the data, and fails exactly for numbers beyond Unicode and for other kinds with data |
| PyString.CharAt | src/frob.cc:127-143 | the m-th character is the m-th group of kind bytes |
| PyString.PackedIsHeld | src/frob.cc:107-143 | a text packed with any kind that can hold it is stored in the sense of StringDataPython3, so its bytes are the same for all kinds |
| LineTable.ScanTable | src/frob.cc:212-222 | the line is that of the last pair whose address is at most f_lasti |
| LineTable.OneLine | src/frob.cc:212-222 | exactly one line is in effect at each address |
| LineTable.PairsAdd | src/frob.cc:212-222 | the first byte of a pair adds to the address and the second to the line |
| LineTable.ScanMonotone | src/frob.cc:212-222 | lines do not decrease with f_lasti |
| LineTable.ScanFits | src/frob.cc:214-221 | with f_lasti at most INT_MAX - 255 and the result an int, addr and line never overflow |
| LineTable.AssembledLines | src/frob.cc:186-192 | splitting deltas over 255 into pairs changes no line |
| LineTable.SplitShape | src/frob.cc:186-192 | which pairs a large delta is split into, byte by byte |
| LineTable.ScanAssembled | src/frob.cc:186-222 | scanning the pairs of an encoded table gives the line of the unsplit deltas: the decoder undoes the encoder |
| ThreadWalk.StringData | src/frob.cc:56-86 | succeeds with a string exactly when the object holds it, for both string layouts |
| ThreadWalk.GetLine | src/frob.cc:193-223 | f_lineno of a traced frame, else the line in effect at f_lasti; fails exactly when something it needs cannot be read |
| ThreadWalk.LineMeans | src/frob.cc:193-223 | from the words of a frame and its code: f_lineno, or the line in effect at f_lasti for co_firstlineno and the table |
| ThreadWalk.MaskedIsLow | src/frob.cc:195-209 | masking with INT_MAX gives the low half of a word without its sign bit, whatever the high half is |
| ThreadWalk.ReadFrame | src/frob.cc:231-239 | the file, name and line that memory holds for a frame, or failure when it holds none |
| ThreadWalk.FollowFrame | src/frob.cc:230-245 | appends exactly the frames of the whole f_back chain, most recent first, or fails when they cannot all be read |
| ThreadWalk.FramesMean | src/frob.cc:230-245 | a stack has one frame for each address of the chain, in the same order |
| ThreadWalk.WalkMeans | src/frob.cc:286-307 | a list that can be read starts at its start, has each element point to the next and the last to null |
| ThreadWalk.WalkAcyclic | src/frob.cc:286-307 | a list that ends visits no address twice and never null |
| ThreadWalk.FindHead | src/frob.cc:254-283 | without threads the walk starts at the current thread; with threads at the list of the interpreter that the current thread names, else interp_head, else the hint, and when there is none at the current thread |
| ThreadWalk.NamedHead | src/frob.cc:254-283 | the start of the walk depends only on the interpreter that is named, not on the route |
| ThreadWalk.GetThreads | src/frob.cc:249-310 | succeeds exactly when all it visits can be read, and then returns, in list order, exactly the threads whose frame is not null, each with its whole stack; without threads exactly the current one |
| ThreadWalk.ListThreads | src/frob.cc:285-307 | the loop: the threads of the list that starts at the given head, or failure when one of them cannot be read |
| ThreadWalk.VisitsMeans | src/frob.cc:285-307 | which thread states are visited, with and without threads |
| ThreadWalk.ListedMeans | src/frob.cc:286-301 | the listed threads are, one by one and in order, those of the thread states with a frame |
| ThreadWalk.StackOfCell | src/frob.cc:230-300 | a thread state has an empty stack exactly when its frame is null |
| ThreadWalk.GivenHaveFrames | src/frob.cc:286-300 | every thread that GetThreads returns has a frame |
| ThreadWalk.ReadCell | src/frob.cc:288-298 | the id and the stack of one thread state, empty when its frame is null |
| ThreadWalk.CellsUnique | src/frob.cc:249-310 | memory holds at most one such result |
| ThreadWalk.AtMostOneCurrent | src/frob.cc:259-299 | at most one listed thread is current, and none when _PyThreadState_Current is null |
| ThreadWalk.RoutesAgree | src/frob.cc:254-310 | two states of the target that name the same interpreter, by any routes, and share the memory of its threads give the same threads with the same stacks, whatever else differs |
| ThreadWalk.CellPart | src/frob.cc:230-307 | a thread state with its stack is read the same in every memory that contains what it is made of |
| RemoteCall.Tracee.Tick | src/ptrace.cc:268-284 | running siblings act by the next slot of the schedule, stopped ones do not; a clean machine stays clean |
| RemoteCall.Tracee.Poke | src/ptrace.cc:143-150 | changes one word of the profiler's page, or of the target while its siblings are stopped; fails where nothing is mapped |
| RemoteCall.Tracee.SingleStep | src/ptrace.cc:178-185 | over a SYSCALL instruction, maps or unmaps one page for well-formed arguments as the kernel answers |
| RemoteCall.Tracee.ContToTrap | src/ptrace.cc:302-306 | on CALL rax and TRAP runs the function in rax, with stores only below the stack pointer; faults where nothing is mapped |
| RemoteCall.Tracee.PauseChildThreads | src/ptrace.cc:268-272 | stops every sibling, attaching to each in list order, whatever they do meanwhile |
| RemoteCall.Tracee.ResumeChildThreads | src/ptrace.cc:274-278 | releases every sibling; on unclean memory some sibling is then exposed to it |
| RemoteCall.OncePerSibling | src/ptrace.cc:268-278 | each sibling is attached and detached exactly once in a pass and the main thread never |
| RemoteCall.Tracee.RunSyscall | src/ptrace.cc:240-242 | setting the registers, one step and reading rax make the system call and nothing else |
| RemoteCall.Tracee.AllocPage | src/ptrace.cc:227-248 | returns the kernel's answer, restores every register and the patched word, and changes nothing but the fresh page |
| RemoteCall.SyscallMeans | src/ptrace.cc:227-248 | which bytes mmap and munmap change |
| RemoteCall.Tracee.HonestMmapMeans | src/ptrace.cc:227-248 | exactly which answers of mmap are considered |
| RemoteCall.Tracee.ConfinedMeans | src/ptrace.cc:297-308 | exactly which functions are considered: those that store only below the saved rsp |
| RemoteCall.CodeRestored | src/ptrace.cc:227-248 | patching SYSCALL, stepping over it and writing the code back leaves only what the kernel did |
| RemoteCall.Tracee.MapTrampoline | src/ptrace.cc:281-284 | the patch exists only while all siblings are stopped: as if the page had always been there |
| RemoteCall.Tracee.Arm | src/ptrace.cc:281-295 | the page holds `ff d0 cc` after a successful mmap; how each failure of mmap ends |
| RemoteCall.Tracee.PokeTrampoline | src/ptrace.cc:289-294 | the trampoline is written where the page is mapped, and nothing else changes; fails where nothing is mapped |
| RemoteCall.Tracee.CallThrough | src/ptrace.cc:297-308 | returns the callee's rax and restores every register; faults on a failed probe |
| RemoteCall.Tracee.PtraceCallFunction | src/ptrace.cc:280-309 | transparency and interleaving safety of one call in every state of probe: registers restored, every byte exactly what the steps of siblings made of it except below the saved rsp, page mapped at most once, siblings paused and resumed once |
| RemoteCall.EvolvesTrans | src/ptrace.cc:280-348 | this composes over a run: the steps of both parts, in order, and their stores one after the other |
| RemoteCall.StepEvolves | src/ptrace.cc:268-284 | one step of a sibling keeps the layers and, on clean memory, soundness, and is recorded with its stores |
| RemoteCall.EvolvesMeans | src/ptrace.cc:280-348 | what transparency says byte by byte: outside the given addresses every byte is what the steps taken have made of it, and all of these are steps of the schedule |
| RemoteCall.ByteAfterMeans | src/ptrace.cc:268-284 | that is the byte stored by the last step that stores it |
| RemoteCall.SinceMeans | src/ptrace.cc:268-284 | the steps taken are those the trail records |
| RemoteCall.SlotMeans | src/ptrace.cc:268-284 | running siblings act in order and stopped ones do not |
| RemoteCall.StepMeans | src/ptrace.cc:268-284 | a step stores into both layers and records whether it has seen clean memory |
| RemoteCall.Tracee.PeekThenPause | src/ptrace.cc:315-324 | the code word read is the one at the pause exactly when the siblings' slots in between keep it |
| RemoteCall.Tracee.TryUnmap | src/ptrace.cc:326-343 | retries any finite run of EAGAIN; the page goes and probe is cleared exactly when the last answer is 0 |
| RemoteCall.SettledMeans | src/ptrace.cc:326-343 | any number of answers 11 is passed over, and the first other answer decides |
| RemoteCall.Tracee.PtraceCleanup | src/ptrace.cc:311-357 | registers restored, siblings paused and resumed once, page and probe cleared exactly for answer 0; the run is sound exactly when no store to the code falls between its read and the pause |
| RemoteCall.CodeLost | src/ptrace.cc:315-346 | writing back a stale code word leaves memory that the target did not write |
| RemoteCall.LostStoreExample | src/ptrace.cc:311-348 | with an armed page, one sibling and one store, an instance of the condition under which a store is lost |
| RemoteCall.LostStoreRun | src/ptrace.cc:311-348 | the cleanup on this instance: the page is gone and a sibling has been released onto memory that is not its own |
| RemoteCall.Tracee.Calls | src/ptrace.cc:280-309 | any number of calls, each with its own effect, maps exactly one page, keeps the trampoline in it and returns what each function returns |
| RemoteCall.Tracee.CallsThenCleanup | src/ptrace.cc:280-357 | a whole run of calls and cleanup: page set, registers and probe as before exactly when munmap ends with 0, and the run is invisible to the siblings |
| Session.Target.DoWait | src/ptrace.cc:37-70 | ends by the first event that is no SIGCHLD stop, after exactly one Cont for each that is, each on a stopped tracee; which event gives which outcome and which state; a failing waitpid when there is none |
| Session.Target.PtraceInterrupt | src/ptrace.cc:118-123 | without an exception the tracee is stopped; refused only by a tracee that is gone |
| Session.Target.InitiatePtrace | src/prober.cc:316-374 | whether it attaches, with which requests, code, outcome and remaining events: a forked child is followed, with exactly one Cont, to its first exec, and code 1 is returned when it exits or waitpid fails before that; code 0 hands over a stopped tracee |
| Session.AttachesMeans | src/prober.cc:341-368 | exactly when a child gets to its exec, which events are then left, and which Cont was issued |
| Session.Target.LetRun | src/prober.cc:425-427 | Cont and Interrupt: outcome, state, remaining events and the log are exactly those of the wait, and every Cont finds the tracee stopped |
| Session.Target.FindSymbols | src/prober.cc:467-493 | at most MaxRetries detections, all but the last missing; code 0 exactly when one finds the ABI; an exception exactly when a wait between two tries ends badly, and which; the requests are exactly those of these tries, all on a stopped tracee |
| Session.SearchedMeans | src/prober.cc:467-493 | the outcome for each answer of the last try |
| Session.ResumedMeans | src/prober.cc:475-481 | between two tries one Cont and one more for each SIGCHLD stop of the wait |
| Frames.SameIsKey | src/frame.h:41-43 | stacks are equal exactly when their files and lines agree; names do not count |
| Frames.FrameHash | src/frame.h:58-67 | the loop gives the same hash for every equal stack |
| Frames.HashRespectsSame | src/frame.h:41-67 | equal stacks have equal hashes, whatever std::hash is |
| Frames.HashMeans | src/frame.h:58-67 | the hash is made of the indices and the files, one after the other |
| Frames.TextDetermines | src/prober.cc:134-148 | with line numbers and no colon in names, a printed line determines the stack and the count |
| Frames.LineDeterminesNames | src/prober.cc:134-148 | without line numbers two lines are equal exactly when names and counts are |
| Frames.StackTextMeans | src/prober.cc:140-146 | a printed stack, split at its semicolons, is file:name(:line) of its frames, outermost first |
| Sampling.Find | src/prober.cc:127-132 | lookup by hash and equality finds the bucket of an equal stack exactly when there is one |
| Sampling.FillBuckets | src/prober.cc:124-133 | one bucket for each class of equal stacks, with the first of them and its exact multiplicity; the counts sum to the number of stacks |
| Sampling.CountsMeans | src/prober.cc:124-133 | the count of a bucket is the number of places with an equal stack, and it holds the first of them |
| Sampling.BucketFor | src/prober.cc:124-133 | every stack has a bucket |
| Sampling.OtherBucket | src/prober.cc:124-133 | two buckets are of different stacks |
| Sampling.PrintStack | src/prober.cc:140-146 | frames outermost first, joined by semicolons |
| Sampling.PrintFrames | src/prober.cc:112-149 | the header lines and one line for each bucket; the fatal exit exactly when an empty stack was recorded |
| Sampling.LinesMean | src/prober.cc:112-149 | the (idle) line, the (failed) line, and for each bucket its stack and its count |
| Sampling.UniqueLines | src/prober.cc:112-149 | with line numbers and no colon in names no two entries are equal |
| Sampling.UniqueOutput | src/prober.cc:112-149 | with no newline in names either, no two lines of the output are equal |
| Sampling.UniqueLinesWithoutNumbers | src/prober.cc:112-149 | without line numbers all lines are distinct exactly when no two different stacks with the same names occur equally often |
| Sampling.LinesRepeatWithoutNumbers | src/prober.cc:112-149 | an instance of two equal lines without line numbers |
| Sampling.LinesRepeatWithColons | src/prober.cc:112-149 | an instance of two equal lines with a colon in a name |
| Sampling.LinesRepeatWithNewlines | src/prober.cc:112-149 | an instance of two equal lines with newlines in names |
| Sampling.PrintFramesTS | src/prober.cc:152-180 | a timestamp line and a stack line for every record |
| Sampling.AllRecordLines | src/prober.cc:152-180 | line by line: the timestamp of each record and its text |
| Sampling.RecordTextMeans | src/prober.cc:160-178 | the text of a record: (idle), (failed), or file:name(:line) of each frame, outermost first, with a semicolon after each |
| Sampling.PrintTerminated | src/prober.cc:172-178 | frames outermost first, each followed by a semicolon |
| Sampling.TakeTurn | src/prober.cc:402-444 | one iteration, even one that samples and then fails: exactly when it takes threads, fails or ends the run, with which code, what it leaves of the target, and that it adds exactly its idle, thread and failure records in this order |
| Sampling.SampleLoop | src/prober.cc:395-444 | over every finite run: the records, both counters and the requests are exactly those of its samples, and the run ends with exactly the first sample that ends it |
| Sampling.OneSample | src/prober.cc:402-444 | what one sample takes, requests, leaves and records: the idle record, those of the threads with its time, and that of the exception with its text, in this order |
| Sampling.FailedMeans | src/prober.cc:431-438 | the failed turns are exactly the samples that find the target running, whose GetThreads throws a PtraceException, or whose wait throws one |
| Sampling.IdleMeans | src/prober.cc:405-414 | the idle turns are exactly the samples that succeed with no thread |
| Sampling.AccountsMean | src/prober.cc:395-444 | the counters of a run are the numbers of these samples |
| Sampling.EndsMeans | src/prober.cc:421-443 | with which sample a run ends |
| Sampling.DisciplinedUses | src/prober.cc:402-431 | every one of these requests finds the target stopped if and only if every sample does |
| Sampling.EndOfRun | src/prober.cc:421-443 | on a target that is always stopped the run ends exactly if some sample gets threads past the deadline or throws another exception; failing samples do not count |
| Sampling.NeverAgain | src/prober.cc:402-438 | once a sample finds the target not stopped, all later samples fail and none ends the run |
| Sampling.TakenInTurns | src/prober.cc:402-420 | the threads accounted for are those of exactly the samples whose GetThreads succeeds |
| Sampling.NoFailure | src/prober.cc:431-438 | a run without failures found the target stopped every time |
| Sampling.Conservation | src/prober.cc:395-444 | without timestamps the records are the stacks of all threads taken, in order; with them their number is that of the threads plus idle plus failed |
| Sampling.TakenHaveFrames | src/prober.cc:405-426 | no empty stack is taken from threads that have frames |
| Sampling.ProbeLoop | src/prober.cc:395-454 | for samples whose threads are what GetThreads returns on some memory, the fatal error is unreachable without timestamps, and the printed counts are those of the stacks of exactly the samples that succeed and sum to the number of their threads; with timestamps two lines for each thread, idle and failed sample; failed counts exactly the samples that find the target running, whose GetThreads throws, or whose wait throws, and idle those that succeed with no thread; the code |
| Sampling.FramesFromMemory | src/frob.cc:296-300 | no such sample has a thread without frames |
| Sampling.WholeSession | src/pyflame.cc:22-39 | attaching, symbol search and sampling together: how far it gets, with exactly which requests and which result; without a PtraceException every peek and every Cont finds the target stopped |
| FlameChart.FCJson.constructor | utils/flame-chart-json:30-55 | the root with the idle node as its child |
| FlameChart.FCJson.FillNode | utils/flame-chart-json:57-67 | ids are given in turn, and a child is announced before it exists |
| FlameChart.FCJson.CreateCs | utils/flame-chart-json:69-86 | the nodes of the non-empty pieces, with children only in front of the last two |
| FlameChart.FCJson.CreateNode | utils/flame-chart-json:88-108 | the chart after a record: two samples, two deltas, adopted by root and idle |
| FlameChart.FCJson.Start | utils/flame-chart-json:110-134 | the chart of the pairs of lines of the input, or a ValueError for a timestamp that is no number |
| FlameChart.ReadLinesMeans | utils/flame-chart-json:110-134 | a timestamp and a line make a record, line by line |
| FlameChart.PieceNodesShape | utils/flame-chart-json:69-86 | consecutive ids, and the next id as the child of all but the last two pieces |
| FlameChart.PieceNames | utils/flame-chart-json:69-86 | the nodes of a record have its non-empty pieces as names, in order |
| FlameChart.FilledMeans | utils/flame-chart-json:72-74 | which pieces these are |
| FlameChart.RecordEnds | utils/flame-chart-json:79-83 | no dangling child exactly when one of the last two pieces is not empty, a chain exactly when just one is |
| FlameChart.RecordKeepsWellFormed | utils/flame-chart-json:88-108 | a record keeps the graph well formed exactly when its line has a last node |
| FlameChart.BuiltWellFormed | utils/flame-chart-json:30-134 | ids are 1 to n, children exist and come later, samples are nodes, two entries for each record |
| FlameChart.DeltasSum | utils/flame-chart-json:93-104 | with positive timestamps the deltas sum to last - first + 1000 |
| FlameChart.ChainNames | utils/flame-chart-json:57-86 | following the children of a chain reads its names |
| FlameChart.BuiltChains | utils/flame-chart-json:88-108 | every record stays in the graph as the chain from its adopted node to its sample |
| FlameChart.ReadIsBuilt | utils/flame-chart-json:110-134 | reading the lines of a series of records builds its chart |
| FlameChart.PiecesOfRecord | src/prober.cc:152-180 | a printed record, stripped and split, is its frames, or the single idle or failed node |
| FlameChart.NamesExact | utils/flame-chart-json:91 | the names read are the frames printed exactly when the outermost does not start with what Python 3 strips |
| Text.DecimalMeans | src/prober.cc:140-147 | numbers are written in decimal |
| Text.ParseMeans | utils/flame-chart-json:117 | int() accepts exactly strings of digits, with leading zeros |
| Text.StripMeans | utils/flame-chart-json:91 | strip() removes white space from both ends, all of it and nothing else |
| Text.IsSpaceMeans | utils/flame-chart-json:91 | which characters are white space for Python 3 |
| Text.SplitFirst | utils/flame-chart-json:91 | split() ends a piece at the first separator |
| Text.SplitFree | utils/flame-chart-json:91 | text without the separator is one piece |
| Text.LinesOfMeans | utils/flame-chart-json:114 | a stream is read line by line, with or without a last newline |
| Text.UnlinesSnoc | src/prober.cc:134-148 | a stream gets each line with a newline after it |
| FlameChart.RoundTrip | utils/flame-chart-json:69-134 | what PrintFramesTS prints, FCJson reads back: a well-formed graph in which the k-th record is a chain from the k-th adopted node to samples[2k], with one node for each frame, named file:name(:line) outermost first, or the single idle or failed node |
| SymbolTable.WalkTable | src/symbol.cc:125-167 | the early exit changes nothing: the result is that of the fold over the whole table |
| SymbolTable.CompleteStays | src/symbol.cc:131-134 | once all is found no symbol changes anything |
| SymbolTable.AddressesOf | src/symbol.cc:140-146 | the first non-zero match wins for two addresses, the last one before interp_head for the function |
| SymbolTable.FirstValueMeans | src/symbol.cc:140-143 | the first entry with the name and an address gives the value |
| SymbolTable.LastFnMeans | src/symbol.cc:144-146 | the last PyInterpreterState_Head in front of interp_head gives the function |
| SymbolTable.TwoTables | src/symbol.cc:180-185 | two walks find the addresses of the concatenated tables |
| SymbolTable.AbiByContents | src/symbol.cc:147-164 | 3.6 if a 3.6 symbol occurs, else 2.6 for PyString_Type, else 3.4 for PyBytes_Type, else unknown |
| SymbolTable.AbiDecided | src/symbol.cc:147-164 | the first symbol of Python 2 or 3.6, by name, decides the ABI |
| SymbolTable.OrderIndependence | src/symbol.cc:125-167 | the ABI is the same for every order exactly when the table does not have symbols of both Python 2 and 3.6 |
| SymbolTable.GetBaseAddress | src/symbol.cc:169-178 | the address of the first PT_LOAD entry, failing exactly when there is none |
| SymbolTable.GetAddresses | src/symbol.cc:180-195 | first-wins and last-wins addresses over both tables, the ABI of the last one, relative to the base for ET_DYN |
| SymbolTable.RelocationExact | src/symbol.h:74-92 | subtracting the base and adding the offset relocates exactly when the symbol is not at the base |
| SymbolTable.FieldsLocated | src/symbol.cc:180-195 | all three addresses relative to the first PT_LOAD entry, the symbols named literally |
| SymbolTable.FieldsMoved | src/symbol.h:74-92 | all three addresses of a moved file are at symbol - base + offset exactly when the symbol is not at the base, and the hint is unchanged |
| SymbolTable.LibPython | src/pyfrob.cc:93-107 | the first needed library that mentions libpython, or the guess when none does |
| SymbolTable.MentionsMeans | src/pyfrob.cc:93-99 | a name mentions libpython when it has it somewhere inside |
| SymbolTable.SomeFirstMention | src/pyfrob.cc:93-99 | there is a first one whenever there is one |
| SymbolTable.OneFromLibrary | src/pyfrob.cc:35-53 | a library gives one result only, failures included, so the next two contracts determine theirs |
| SymbolTable.AddressesFromLibPython | src/pyfrob.cc:35-53 | the library's addresses moved by its load offset with the ABI of its last table; exactly which failure for which reason |
| SymbolTable.Addrs | src/pyfrob.cc:55-108 | the executable's addresses and ABI, moved if it is position independent, and exactly otherwise what the library gives, failures included |
| GridSearch.PopLeast | tests/dijkstra.py:123-124 | the candidate that leaves is the least by distance and point, and the others stay |
| GridSearch.TreeGrows | tests/dijkstra.py:118-148 | adding an open neighbour keeps via a tree rooted in initial |
| GridSearch.Expand | tests/dijkstra.py:138-148 | every move from the cell is in via afterwards, and each new cell waits once with its distance |
| GridSearch.WalkBack | tests/dijkstra.py:125-135 | the walk through via ends at initial and its reverse is a simple path |
| GridSearch.ClosedAgain | tests/dijkstra.py:122-148 | expanded cells keep all their moves in via, and each round gains cells or loses a candidate |
| GridSearch.PathStays | tests/dijkstra.py:122-149 | no path leaves a tree in which nothing waits |
| GridSearch.PathMeans | tests/dijkstra.py:108-149 | a path: neighbours among the eight, inside the grid, not filled |
| GridSearch.PricedMeans | tests/dijkstra.py:138-148 | a waiting cell has its squared distance to the goal |
| GridSearch.Dijkstra | tests/dijkstra.py:108-149 | a simple path from initial to a different goal is found exactly when any path exists; None otherwise |

## Left out

- The real ptrace, waitpid, fork, exec and /proc: events, schedules and kernel answers are inputs.
- Partial states after a ptrace call throws inside AllocPage or PtraceCleanup: the code does not restore there. Only the throws that follow from a failed mmap are modelled.
- The thread set of the target is stable and fully listed. Siblings neither map nor unmap memory nor store into the trampoline page.
- A single step is answered by SIGTRAP at once: the Cont that DoWait issues for a SIGCHLD during it is left out of RemoteCall.
- The red zone of 128 bytes below rsp: the return address that CALL pushes goes there, as in the original.
- ThreadWalk.GetThreads: needs lists that end; over a cyclic list the original does not end either.
- LineTable.ScanMonotone: deltas are unsigned, as the code reads them; the signed line deltas of Python 3.6 are decoded as the code does, which is not what that version means by them.
- f_lasti = -1, which the code masks to INT_MAX.
- PyString.StringDataPython3: the product of length and kind is not cut to ssize_t and the index not to int, which differ only for strings beyond 2 GB.
- SymbolTable.WalkTable: tables of more than 65535 entries, where the uint16_t index wraps around.
- Session.Target.PtracePeek: the log has one peek for all those of one GetThreads or of one found ABI.
- Session.Target.DetectABI: only whether it finds the ABI, misses it or fails; the remote call and the table walk are modelled in their own modules.
- Session.Target.InitiatePtrace: the child side of the fork and the refusal to trace a program called pyflame. Events are arbitrary, also where no such event can follow in fact, as after a stop before the exec that is not continued.
- Sampling.PrintFrames: buckets come in order of first occurrence; the iteration order of unordered_map is not modelled, and the line properties hold for every order.
- Sampling.ProbeLoop: the texts of exceptions thrown while resuming are constants, clocks are inputs, and a run is cut when its inputs end.
- FlameChart.NamesExact: text is read back with the characters that were written, and white space is that of Python 3; Python 2 strips only six of these characters.
- FlameChart.FCJson.Start: timestamps are digits with white space around them; signs, underscores and universal newlines of Python's int() and line iteration are not read. JSON output, endTime and the constant fields of nodes are left out.
- GridSearch.PopLeast: the list is not sorted in place; only which candidate leaves it matters.
- Shortest paths: the search is greedy on the distance to the goal and promises none.
- Option parsing, DumpStacks, namespaces, ASLR lookup in /proc/PID/maps, ELF section parsing and file handling: plumbing around the parts above.
