# Verified models of the finished algorithms

The repository is a set of operating-systems projects. Most personal homeworks are skeletons; what is finished is
the Pintos kernel (`code/group/src`), the MapReduce worker (`code/personal/hw-map-reduce`) and the bundled cJSON
library (`code/personal/hw-kvsrv/lib/cjson`). This project models their algorithms in Dafny and proves what they are
for. Code that changes state is imperative here too: classes with fields, arrays changed in place, loops with
invariants, each proved against a specification function about which the lemmas then speak.

`dafny verify dfyconfig.toml` checks everything. One file is one module of the same name, and the parts do not depend on
each other except as listed; Wrappers has the option type that all of them use.

| part | files | what is proved |
|---|---|---|
| 64-bit division | Arithmetic | division from a 32-bit divide instruction that never traps |
| linked list | SortTheory, MergeSteps, List (with Arithmetic) | splicing in the heap; natural merge sort is the stable sort and needs logarithmically many passes |
| threads and semaphores | Kernel (with Queues) | the FIFO scheduler with semaphores and locks, over every interleaving |
| readers and writers | RwLock (with Queues) | the writer-preferring lock on Mesa condition variables, statement by statement, over every interleaving |
| cJSON | JsonText, JsonParse, JsonComplete, JsonAccepted, JsonUtf8, JsonUnique, JsonMeaning, JsonPrint, JsonPrinter, JsonParser, JsonMinify, JsonCompact, JsonScan, JsonSpoiled (with Bytes) | grammar and meaning of RFC 8259; exactly what the parser accepts, and when that is JSON; soundness of the printer, their round trip, buffer sizes; minifying in place, and exactly when it is right, on any JSON text and on printed values |
| file system | Bitmaps, Inodes, Directories, Ledgers, FilesysState, Filesys, FilesysRuns (with Bytes) | bytes on disk, directories as maps, ownership of sectors over every run of calls |
| hash table | HashTables (with BitOps, Arithmetic) | a finite map through rehashing, and its iterator |
| allocators | AllocatorState, Mallocs (with Bitmaps, BitOps, Bytes) | size-class arenas over first-fit pages, over every run of calls |
| MapReduce worker | Codec, MapReduce, MapReduceJob (with Bytes) | partition, records, read-back, grouping: one reduce call for each key |
| C library | Sorting, Formats, Specifiers, Stdio, Ustar (with BitOps, Arithmetic) | heap sort and binary search, conversion specifiers, integer formatting and its reading, ustar headers |
| executables | PageTables, Loader, Executables (with Bytes) | page tables as a map, segments loaded byte for byte, and exactly when loading succeeds |

How the pieces are stated:

- A run is a sequence of actions of a state machine, and the run theorems are about every run and every state in it.
  An interrupts-off region of the kernel is one step. The rw_lock machine takes one step for each C statement, so its
  clients interleave anywhere.
- The file system and the allocator are classes; each method is proved equal to a step on an abstract state, and the
  lemmas show that the steps keep the invariant.
- Memory that may run out appears as nondeterminism. A parameter named `reliable` (or a hook) says that it does not,
  and then success is characterised exactly.
- Machine arithmetic wraps explicitly where it matters: 32 and 64 bits in Arithmetic, `atoi`, octal fields, hashes and
  program headers. Elsewhere integers are unbounded.

Where the code differs from what one would expect, the model follows the code and the difference is a result:

- `sdiv64` does not truncate toward zero for INT64_MIN / -1, and for nothing else; `umod64` and `smod64` return 32
  bits and are exact only when the remainder fits.
- `cJSON_PrintPreallocated` needs one byte more than the text and its NUL.
- The parser takes more than RFC 8259: every byte up to 32 for white space, control characters and bytes that are no
  UTF-8 in strings, leading zeros, a point without digits on one side, and `\u` with any four bytes. `cJSON_Parse` also
  ignores whatever comes behind the value. `AcceptedIff` and `PrefixAcceptedIff` say exactly what is accepted, `JsonIff`
  and `PrefixJsonIff` when it is JSON, and `ControlSkipped`, `RawByteTaken`, `LeadingZeroTaken`, `NoHexTaken` and
  `RestIgnored` give texts that are not.
- The parser also takes less: a `\u` escape of half a surrogate pair that stands alone, which the grammar of RFC 8259
  allows, is refused, and so is nesting beyond the limit. `JsonAcceptedIff` says that nothing else is, and
  `LoneSurrogatesRefused` gives texts.
- The printer copies bytes that are no UTF-8, so its text is JSON exactly for strings that are (`PrintedJsonIff`).
- What is read differs from what the text denotes exactly when a string or name writes a NUL, behind which it is cut
  (`MeaningRead`, `NulLost`). Beside the number, `valueint` differs from it exactly when it is no integer or does not fit
  into an int (`IntsExactIff`, `BigNumberAsInt`, `FractionAsInt`).
- `cJSON_Minify` takes the quote behind an escaped backslash for an escaped quote: `StringStops` says exactly when a
  string is left correctly, `MinifyTextIff` which JSON texts are minified correctly, `MinifyPrintedIff` for which values
  formatted text is, `TrailingBackslashSpoils` gives a tree for which it is not, and `BlankLost` one whose text becomes
  that of another value.
- When `dir_add` fails after `inode_create` has succeeded, `filesys_create` releases only the inode sector, so the data
  sectors stay marked used without an owner. This happens, with memory enough, exactly when a file of a size other than
  zero, for which there is room, is created under a name that exists, is too long or finds no free slot
  (`FileSystem.Create`, `NothingLost`, `ExistingNameLoses`). Ownership is therefore proved with a set of lost sectors.
- Directory calls take a read that came back short, for lack of memory for the bounce buffer, for the end of the
  directory. `dir_add` can then store a name twice or overwrite another entry (`NameAddedTwice`, `EntryOverwritten`);
  `AddRightIff` and `LookupRightIff` say exactly when the outcome is right all the same.
- `ustar_make_header` accepts a negative size, and the header it makes for a regular file is then refused.
- A name that `ustar.c` regards as safe can still lead out of the destination, through a dot-dot further inside
  (`InnerParentsRemain`).
- `%0*d` with a negative width keeps the zero flag beside the minus flag, and the field is padded on both sides:
  `FieldWidth` and `WidthMissedIff` say exactly when the output is too wide, and `ZerosAndSpaces` gives a call.
- `malloc` adds the size of its header in 32 bits: for the eleven largest sizes the block has one page only (`ServedIff`).
  `realloc` to such a size then copies beyond the new block, exactly when the old one has more than 4084 bytes
  (`CopyFitsIff`, `CopyTooLong`).
- `format_integer` counts the commas of the grouping flag as digits when it pads to the precision, and pads up to 63
  characters only: `PrecisionMet` says exactly when a precision is met, `CommaTakesAPlace` and `BufferEnds` give values
  for which it is not.

## Model

| member | source | states |
|---|---|---|
| Arithmetic.Nlz | code/group/src/lib/arithmetic.c:37-63 | shifts a nonzero word left until its top bit is set: the result is at most 31 and x * 2^n lies in [2^31, 2^32) |
| Arithmetic.NarrowDivision | code/group/src/lib/arithmetic.c:68-98 | with a 32-bit divisor the two chained divisions are in range for divl and give the quotient |
| Arithmetic.NormalisedInRange | code/group/src/lib/arithmetic.c:105-107 | after normalisation the high word v of the divisor has its top bit set and halving the dividend keeps divl in range |
| Arithmetic.EstimateOffByAtMostOne | code/group/src/lib/arithmetic.c:105-107 | the estimate shifted right is the true quotient or one more |
| Arithmetic.CorrectionRepairs | code/group/src/lib/arithmetic.c:107-108 | decrementing and comparing the remainder turns an estimate that is at most one too large into the quotient |
| Arithmetic.Udiv64 | code/group/src/lib/arithmetic.c:67-111 | floor(n / d) for every 64-bit n and nonzero d, with each divl called in range |
| Arithmetic.Umod64 | code/group/src/lib/arithmetic.c:115-115 | n mod d reduced modulo 2^32; exact if and only if n mod d fits in 32 bits |
| Arithmetic.Sdiv64 | code/group/src/lib/arithmetic.c:119-124 | truncation toward zero, and it fails to be so if and only if the operands are INT64_MIN and -1 |
| Arithmetic.Smod64 | code/group/src/lib/arithmetic.c:128-128 | the remainder with the sign of n, wrapped to 32 bits; exact if and only if it fits |
| Arithmetic.TruncatedQuotientUnique | code/group/src/lib/arithmetic.c:119-124 | at most one number is a quotient truncated toward zero, so the meaning of sdiv64 is pinned down |
| SortTheory.StableSortCorrect | code/group/src/lib/kernel/list.c:336-370 | the reference insertion sort yields a sorted stable rearrangement for every strict weak order |
| SortTheory.StableSortUnique | code/group/src/lib/kernel/list.c:336-370 | two sorted stable rearrangements of one sequence are equal, so 'stable sort' names one result |
| SortTheory.StableSortIs | code/group/src/lib/kernel/list.c:336-370 | whatever is sorted and a stable rearrangement is the reference result |
| MergeSteps.MergeMove | code/group/src/lib/kernel/list.c:313-334 | splicing the head of the second run in front of a larger element of the first keeps both runs sorted and everything merged so far below them |
| MergeSteps.MoveIsStable | code/group/src/lib/kernel/list.c:313-334 | that splice passes over strictly larger elements only, so it is stable |
| List.Insert | code/group/src/lib/kernel/list.c:144-152 | in the heap: links a node before another; the chain is the old one with the node inserted |
| List.Remove | code/group/src/lib/kernel/list.c:215-220 | in the heap: unlinks a node; the chain is the old one without it |
| List.Splice | code/group/src/lib/kernel/list.c:157-175 | in the heap: moves the nodes [first, last) in front of another node outside them; the chain is the spliced sequence |
| List.FindEndOfRun | code/group/src/lib/kernel/list.c:295-311 | the end of the longest nondecreasing run |
| List.InplaceMerge | code/group/src/lib/kernel/list.c:313-334 | merges two adjacent sorted runs in place: sorted, a stable rearrangement, and no node outside them moves |
| List.List.SortPass | code/group/src/lib/kernel/list.c:346-367 | one pass keeps the nodes, is stable, and takes r runs to at most ceil(r / 2), which is what it counts |
| List.List.Sort | code/group/src/lib/kernel/list.c:336-370 | the list holds the same nodes in the order of the stable sort; the number of passes is logarithmic in the number of runs |
| List.List.Reverse | code/group/src/lib/kernel/list.c:274-283 | the same nodes linked in reverse order |
| List.List.InsertOrdered | code/group/src/lib/kernel/list.c:375-387 | a sorted list stays sorted and the new node goes behind its equals: the result is the stable sort of the list with the node appended |
| Kernel.StepOk | code/group/src/threads/thread.c:221-315 | every step of the scheduler and of semaphores and locks keeps the invariant |
| Kernel.RunOk | code/group/src/threads/thread.c:176-550 | the invariant holds in every state reachable from start-up, for every interleaving; semaphores may be made and used on the way, and idle may start out blocked or preempted |
| Kernel.SchedulerState | code/group/src/threads/thread.c:233-315 | exactly the current thread is RUNNING; the ready list has no duplicates and holds exactly the READY threads other than idle |
| Kernel.ElementOnOneList | code/group/src/threads/thread.c:221-261 | a thread's list element is on at most one of the ready list and the waiters lists |
| Kernel.Conservation | code/group/src/threads/synch.c:58-109 | initial value + ups = value + completed downs, over every run |
| Kernel.NoLostWakeup | code/group/src/threads/synch.c:58-109 | while a thread is queued the value is at most the number of woken threads that have not resumed, and those are running or ready |
| Kernel.MutualExclusion | code/group/src/threads/synch.c:172-210 | at most one thread is between acquire and release of a lock, the holder field names it, and the lock is free exactly when nobody is |
| Kernel.FifoRun | code/group/src/threads/thread.c:451-456 | the thread at ready position i moves forward by one with each schedule and does not run before its turn |
| Kernel.RunsAtItsTurn | code/group/src/threads/thread.c:451-550 | the thread at ready position i is the one that runs after exactly i + 1 schedules |
| Kernel.Machine.DoSchedule | code/group/src/threads/thread.c:484-550 | picks the next thread, switches, and reaps a dying predecessor: the fields become the model's scheduled state |
| Kernel.Machine.IdleRound | code/group/src/threads/thread.c:367-391 | the idle thread blocks: the front of the ready list runs, or idle itself if nobody is ready, and the invariant is kept |
| Kernel.Machine.ThreadYield | code/group/src/threads/thread.c:303-315 | the running thread goes to the end of the ready list unless it is idle, and the invariant is kept |
| Kernel.Machine.ThreadExit | code/group/src/threads/thread.c:288-299 | the thread dies, another one runs, and the invariant is kept |
| Kernel.Machine.ThreadCreate | code/group/src/threads/thread.c:176-213 | a new thread is ready at the end of the queue, and the invariant is kept |
| Kernel.Machine.SemaDownRound | code/group/src/threads/synch.c:58-71 | one round of the wait loop: takes the unit or queues and blocks, and the invariant is kept |
| Kernel.Machine.SemaTryDown | code/group/src/threads/synch.c:78-93 | takes a unit without waiting exactly when there is one, also in an interrupt handler whatever thread it interrupts; nothing else changes, and the invariant is kept |
| Kernel.Machine.SemaUp | code/group/src/threads/synch.c:99-109 | the value grows by one, the longest waiter if any goes from the waiters to the end of the ready list, and the invariant is kept |
| Kernel.Machine.SemaInit | code/group/src/threads/synch.c:44-49 | a new semaphore, or the lock around one, with the value given and nobody waiting, at any point of a run; the invariant is kept |
| Kernel.InitOk | code/group/src/threads/synch.c:44-49 | making a semaphore or a lock keeps the invariant |
| RwLock.StepOk | code/group/src/threads/synch.c:230-358 | every statement of every client keeps the invariant of the rw_lock, its condition variables and their queues |
| RwLock.RunOk | code/group/src/threads/synch.c:230-358 | the invariant holds after every interleaving of statements |
| RwLock.ReadersWriters | code/group/src/threads/synch.c:230-277 | AW <= 1, AW = 1 implies AR = 0, the counters count the active clients, a writer is inside alone, and a reader is admitted only when no writer is active or waiting |
| RwLock.SleepersHaveAReason | code/group/src/threads/synch.c:230-358 | when the guard is free, an unsignalled sleeping reader implies AW + WW > 0, and an unsignalled sleeping writer implies an active client or another writer that was signalled and has not yet resumed |
| RwLock.NoDeadlock | code/group/src/threads/synch.c:230-358 | while a client is under way some client that is under way can take a step |
| RwLock.Lock.Execute | code/group/src/threads/synch.c:230-358 | one statement of a client, on the fields, is a step of the machine, so the invariant is kept by every call and the theorems about runs speak of the fields |
| JsonText.SyntaxTaken | code/personal/hw-kvsrv/lib/cjson/cJSON.c:703-821 | of the syntax trees of RFC 8259, sections 2 to 7, the parser takes exactly those in which no u escape of half a surrogate pair stands alone |
| JsonComplete.ValueRead | code/personal/hw-kvsrv/lib/cjson/cJSON.c:1368-1777 | every syntax tree that the parser takes, so every tree of RFC 8259, sections 3 to 7, in which no half of a surrogate pair stands alone (SyntaxTaken), is parsed wherever its text stands, up to the end of its text, to what the library holds of the value it denotes: strings up to their first NUL, and each number as valuedouble, rounding left aside, with its valueint |
| JsonComplete.TextRead | code/personal/hw-kvsrv/lib/cjson/cJSON.c:1147-1224 | the same for whole texts with white space around the value: nested within the limit they are consumed up to their NUL if require_null_terminated is set, and up to the end of the value otherwise |
| JsonMeaning.HeldIff | code/personal/hw-kvsrv/lib/cjson/cJSON.c:824-951 | the library holds exactly what a text denotes if and only if no string or name writes a NUL |
| JsonMeaning.IntsExactIff | code/personal/hw-kvsrv/lib/cjson/cJSON.c:388-400 | every valueint is the number itself if and only if every number of the text is an integer that fits into an int |
| JsonMeaning.NulEscape | code/personal/hw-kvsrv/lib/cjson/cJSON.c:666-821 | in a JSON text a piece of a string denotes a NUL if and only if it is the escape of four zeros |
| JsonMeaning.MeaningRead | code/personal/hw-kvsrv/lib/cjson/cJSON.c:1147-1224 | a JSON text is parsed if and only if it is nested within the limit and no half of a surrogate pair stands alone in it; it is parsed to what RFC 8259 makes it denote, up to its end, if and only if besides no string or name has the escape of four zeros; when it is parsed, every valueint is the number itself if and only if every number is an integer in [INT_MIN, INT_MAX]; and without require_null_terminated it is the same value, up to the end of the value |
| JsonMeaning.NulLost | code/personal/hw-kvsrv/lib/cjson/cJSON.c:824-951 | the string a, escaped NUL, b is read as the string a |
| JsonMeaning.BigNumberAsInt | code/personal/hw-kvsrv/lib/cjson/cJSON.c:388-400 | 2147483648 is kept, with the valueint 2147483647 |
| JsonMeaning.FractionAsInt | code/personal/hw-kvsrv/lib/cjson/cJSON.c:388-400 | 1.5 is kept, with the valueint 1, and 1.5e1 with the valueint 15 |
| JsonAccepted.StringAccepted | code/personal/hw-kvsrv/lib/cjson/cJSON.c:824-951 | whatever parse_string accepts is a quoted sequence of pieces that it takes, with the meaning it returns |
| JsonAccepted.ValueIff | code/personal/hw-kvsrv/lib/cjson/cJSON.c:1368-1777 | parse_value succeeds at q with v if and only if up to q stands the text of a tree that it takes, nested within what is left of the limit, and v is what the library holds of its value |
| JsonAccepted.AcceptedIff | code/personal/hw-kvsrv/lib/cjson/cJSON.c:1131-1224 | with require_null_terminated set, cJSON_ParseWithOpts accepts exactly the texts that consist of an optional byte order mark, bytes up to 32, one tree that the parser takes within the nesting limit, bytes up to 32 and the final NUL, and gives what the library holds of the tree's value |
| JsonAccepted.PrefixAcceptedIff | code/personal/hw-kvsrv/lib/cjson/cJSON.c:1147-1235 | without it, as cJSON_Parse and cJSON_ParseWithLength call it, it accepts exactly what begins with an optional byte order mark, bytes up to 32 and one tree that the parser takes within the limit and that does not go on, whatever comes behind, and reports the end of that tree |
| JsonUnique.SamePieces | code/personal/hw-kvsrv/lib/cjson/cJSON.c:824-951 | the text of a string determines its pieces, among those of RFC 8259 and those that the parser takes |
| JsonUnique.TextUnique | code/personal/hw-kvsrv/lib/cjson/cJSON.c:1090-1224 | a text has at most one tree, white space included, among the trees of RFC 8259 and those that the parser takes: both languages are unambiguous |
| JsonUnique.PrefixUnique | code/personal/hw-kvsrv/lib/cjson/cJSON.c:1090-1235 | what a text begins with has at most one tree and one end |
| JsonUnique.JsonIff | code/personal/hw-kvsrv/lib/cjson/cJSON.c:1090-1224 | an accepted text is JSON if and only if it is well-formed UTF-8, has no byte order mark, its outer white space is of the four bytes of RFC 8259, section 2, and its tree is one of that grammar: the same white space inside, no control character in a string, four hexadecimal digits behind each u escape, no leading zeros, and digits on both sides of a point |
| JsonUnique.PrefixJsonIff | code/personal/hw-kvsrv/lib/cjson/cJSON.c:1090-1235 | the part of a text that cJSON_Parse has read is JSON under the same condition |
| JsonUnique.JsonAcceptedIff | code/personal/hw-kvsrv/lib/cjson/cJSON.c:1147-1525 | a text of the grammar of RFC 8259 is accepted, with or without require_null_terminated, if and only if its value is nested within the limit and no u escape of half a surrogate pair stands alone in a string or name; then the value and the end are those that MeaningRead speaks of |
| JsonUnique.HalfPairRefused | code/personal/hw-kvsrv/lib/cjson/cJSON.c:719-752 | for each half of a surrogate pair the string of its u escape alone is JSON, and it is refused |
| JsonUnique.LoneSurrogatesRefused | code/personal/hw-kvsrv/lib/cjson/cJSON.c:719-752 | so the strings of the escapes ud800 and udc00 are JSON and are refused |
| JsonUnique.RestIgnored | code/personal/hw-kvsrv/lib/cjson/cJSON.c:1172-1189 | 1 x is no JSON; cJSON_Parse reads 1 from it, and with require_null_terminated it is refused |
| JsonUnique.ControlSkipped | code/personal/hw-kvsrv/lib/cjson/cJSON.c:1090-1113 | a text with a control character in front of a number is accepted and is not JSON |
| JsonUnique.LeadingZeroTaken | code/personal/hw-kvsrv/lib/cjson/cJSON.c:307-408 | 01 is accepted as 1 and is not JSON |
| JsonUnique.NoHexTaken | code/personal/hw-kvsrv/lib/cjson/cJSON.c:666-699 | a string with the escape u zzzz is accepted, as the empty string, and is not JSON |
| JsonUnique.RawByteTaken | code/personal/hw-kvsrv/lib/cjson/cJSON.c:824-951 | the string of the one byte 255 is accepted and is not JSON, since it is no UTF-8 |
| JsonPrint.PrettyMeaning | code/personal/hw-kvsrv/lib/cjson/cJSON.c:1423-1494 | what the printer writes follows the grammar of RFC 8259, has no half of a surrogate pair alone, and denotes the value, nested as deep as the value |
| JsonPrint.PrettyText | code/personal/hw-kvsrv/lib/cjson/cJSON.c:1423-1896 | the text of the printer is the text of that syntax tree |
| JsonUnique.PrintedJsonIff | code/personal/hw-kvsrv/lib/cjson/cJSON.c:954-1494 | the text printed for a value, formatted or not, is JSON if and only if every string and name in the value is well-formed UTF-8 |
| JsonPrint.PrintableIff | code/personal/hw-kvsrv/lib/cjson/cJSON.c:596-663 | the values whose printing is modelled are exactly those that the library holds unchanged and in which every number equals its valueint, which is what %d is used for |
| JsonPrint.RoundTrip | code/personal/hw-kvsrv/lib/cjson/cJSON.c:954-1896 | parsing the formatted or unformatted text of a tree, with or without require_null_terminated, gives back the tree and consumes exactly that text |
| JsonPrint.PiecesOfMeaning | code/personal/hw-kvsrv/lib/cjson/cJSON.c:1018-1068 | the escapes of a printed string denote the string, byte for byte |
| JsonPrinter.PiecesSize | code/personal/hw-kvsrv/lib/cjson/cJSON.c:975-1007 | the first pass over a string counts exactly the bytes that the second pass writes |
| JsonPrinter.NumberFits | code/personal/hw-kvsrv/lib/cjson/cJSON.c:596-663 | a 32-bit integer prints in at most 11 characters, so the number buffer is large enough |
| JsonPrinter.NulFreeText | code/personal/hw-kvsrv/lib/cjson/cJSON.c:576-586 | no printed text holds a NUL, so strlen in update_offset finds its end |
| JsonPrinter.PrintBuffer.Ensure | code/personal/hw-kvsrv/lib/cjson/cJSON.c:490-573 | makes room or fails; with dependable memory it succeeds if and only if the size is within the limit, and the text is kept |
| JsonPrinter.PrintBuffer.UpdateOffset | code/personal/hw-kvsrv/lib/cjson/cJSON.c:576-586 | the offset moves to the end of the text just written |
| JsonPrinter.PrintBuffer.PrintStringPtr | code/personal/hw-kvsrv/lib/cjson/cJSON.c:954-1073 | writes the escaped string behind the text, and succeeds if and only if there is room for it |
| JsonPrinter.PrintBuffer.PrintNumber | code/personal/hw-kvsrv/lib/cjson/cJSON.c:596-663 | writes the decimal text of the number, and succeeds if and only if there is room for it |
| JsonPrinter.PrintBuffer.PrintValue | code/personal/hw-kvsrv/lib/cjson/cJSON.c:1423-1494 | writes the text of a value, and succeeds if and only if its nesting and its size fit |
| JsonPrinter.PrintBuffer.PrintArray | code/personal/hw-kvsrv/lib/cjson/cJSON.c:1595-1659 | the same for arrays; the depth is restored |
| JsonPrinter.PrintBuffer.PrintObject | code/personal/hw-kvsrv/lib/cjson/cJSON.c:1780-1896 | the same for objects; the depth is restored |
| JsonPrinter.Print | code/personal/hw-kvsrv/lib/cjson/cJSON.c:1239-1304 | returns a fresh buffer with exactly the text and its NUL; with dependable memory it fails only for the nesting limit or a size beyond INT_MAX |
| JsonPrinter.PrintPreallocated | code/personal/hw-kvsrv/lib/cjson/cJSON.c:1348-1365 | succeeds if and only if the nesting is within the limit and the buffer has the text, its NUL and one spare byte |
| JsonParser.EscapesStep | code/personal/hw-kvsrv/lib/cjson/cJSON.c:838-858 | the count of escapes grows by at most one for every two input bytes, so the size computed in the first pass is not negative |
| JsonParser.NextFits | code/personal/hw-kvsrv/lib/cjson/cJSON.c:838-915 | after each unescaped piece the output written so far is within the size computed in the first pass |
| JsonParser.OutputFits | code/personal/hw-kvsrv/lib/cjson/cJSON.c:838-863 | the input consumed less its escapes never exceeds the allocated size |
| JsonParser.ParseHex4 | code/personal/hw-kvsrv/lib/cjson/cJSON.c:666-699 | the loop computes the value of four hexadecimal digits, 0 if one is not a digit |
| JsonParser.StoreUtf8 | code/personal/hw-kvsrv/lib/cjson/cJSON.c:779-806 | stores the UTF-8 octets of RFC 3629, section 3, for the code point |
| JsonParser.Utf16LiteralToUtf8 | code/personal/hw-kvsrv/lib/cjson/cJSON.c:703-821 | decodes an escape or a surrogate pair to its UTF-8 octets, and reports the same failures as the specification |
| JsonParser.ParseBuffer.ParseString | code/personal/hw-kvsrv/lib/cjson/cJSON.c:824-951 | reads a string exactly as the specification does |
| JsonParser.ParseBuffer.ParseNumber | code/personal/hw-kvsrv/lib/cjson/cJSON.c:307-408 | reads the longest number that strtod takes, with fraction and exponent, stores it and its valueint and moves past it |
| JsonParser.ParseBuffer.ParseValue | code/personal/hw-kvsrv/lib/cjson/cJSON.c:1368-1420 | recursive descent: same result, same end and same depth as the specification |
| JsonParser.ParseBuffer.ParseArray | code/personal/hw-kvsrv/lib/cjson/cJSON.c:1497-1592 | the same for arrays |
| JsonParser.ParseBuffer.ParseObject | code/personal/hw-kvsrv/lib/cjson/cJSON.c:1662-1777 | the same for objects |
| JsonParser.ParseWithLengthOpts | code/personal/hw-kvsrv/lib/cjson/cJSON.c:1147-1224 | the whole parser is the specification function that the completeness and round-trip theorems are about |
| JsonMinify.MinifyString | code/personal/hw-kvsrv/lib/cjson/cJSON.c:2902-2922 | copies a string down to the place of the kept text, never writing beyond what has been read |
| JsonMinify.Minify | code/personal/hw-kvsrv/lib/cjson/cJSON.c:2924-2970 | in place: the buffer then begins with the minified text and its NUL, the unread part is never overwritten |
| JsonMinify.StringStops | code/personal/hw-kvsrv/lib/cjson/cJSON.c:2902-2922 | minify_string stops at the closing quote of a string if and only if the string does not end in an escaped backslash or the text ends there |
| JsonCompact.MinifyText | code/personal/hw-kvsrv/lib/cjson/cJSON.c:2924-2970 | a JSON text in which no string is written with an escaped backslash at its end is minified to the text of its syntax tree without white space; MinifyTextIff has the exact condition |
| JsonCompact.StripMeaning | code/personal/hw-kvsrv/lib/cjson/cJSON.c:2924-2970 | leaving out the white space does not change what a syntax tree denotes |
| JsonScan.RenderStrips | code/personal/hw-kvsrv/lib/cjson/cJSON.c:2924-2970 | a scanner for the strings of RFC 8259 finds exactly the white space of a syntax tree: leaving out the blanks that it places outside of strings gives the text of the tree without white space |
| JsonScan.KeptIff | code/personal/hw-kvsrv/lib/cjson/cJSON.c:2902-2970 | from any place of a text, whatever the two scanners have seen before, what cJSON_Minify keeps is the text without the blanks outside of strings if and only if the scanners place every later blank and slash alike; the first one that they do not makes the results differ |
| JsonScan.MinifyTextIff | code/personal/hw-kvsrv/lib/cjson/cJSON.c:2902-2970 | for every JSON text: it is minified to the text of its syntax tree without white space if and only if the scanner of cJSON_Minify, for which an escaped backslash still escapes the quote behind it, and that of RFC 8259 agree on which blanks and slashes of the text are outside of strings |
| JsonScan.MinifyKeepsValue | code/personal/hw-kvsrv/lib/cjson/cJSON.c:2924-2970 | such a text, minified, is accepted if and only if it was, and parses to what the library holds of the same value, with or without require_null_terminated |
| JsonCompact.StripPretty | code/personal/hw-kvsrv/lib/cjson/cJSON.c:1423-1896 | the formatted syntax tree without white space is the unformatted one, and none of its strings is written with an escaped backslash at its end if and only if no string or name of the value ends in a backslash |
| JsonCompact.MinifyPrinted | code/personal/hw-kvsrv/lib/cjson/cJSON.c:2924-2970 | minifying formatted or unformatted output gives exactly the unformatted output, when no string or name ends in a backslash |
| JsonSpoiled.ValueOutcome | code/personal/hw-kvsrv/lib/cjson/cJSON.c:2902-2970 | wherever the formatted text of a value with such a string stands: behind it cJSON_Minify takes itself to be inside a string, when nothing but closing brackets followed, and otherwise it has kept a blank that is not in the unformatted text |
| JsonSpoiled.MinifyPrintedIff | code/personal/hw-kvsrv/lib/cjson/cJSON.c:2924-2970 | for every printable value: minifying the formatted text gives the unformatted text if and only if nothing but closing brackets of arrays follows a string that ends in a backslash, and no name or member value has one |
| JsonScan.MinifyPrintedSeen | code/personal/hw-kvsrv/lib/cjson/cJSON.c:2924-2970 | for every printable value, formatted or not: the printed text is minified to the unformatted text if and only if they agree on it |
| JsonCompact.TrailingBackslashSpoils | code/personal/hw-kvsrv/lib/cjson/cJSON.c:2902-2922 | a printable tree with such a string for which it does not |
| JsonScan.BlankLost | code/personal/hw-kvsrv/lib/cjson/cJSON.c:2902-2970 | the unformatted text of an array of two strings, a backslash and a blank, is minified to the text of another value: the blank is lost |
| Bitmaps.SetBit | code/group/src/lib/kernel/bitmap.c:118-137 | setting or clearing one bit of a word changes that bit only |
| Bitmaps.Bitmap.Mark | code/group/src/lib/kernel/bitmap.c:118-126 | sets one bit of the abstract vector |
| Bitmaps.Bitmap.Reset | code/group/src/lib/kernel/bitmap.c:129-137 | clears one bit of the abstract vector |
| Bitmaps.Bitmap.SetMultiple | code/group/src/lib/kernel/bitmap.c:169-178 | sets exactly the given range |
| Bitmaps.Bitmap.Count | code/group/src/lib/kernel/bitmap.c:182-194 | the number of bits with the value in the range |
| Bitmaps.Bitmap.Contains | code/group/src/lib/kernel/bitmap.c:198-209 | true if and only if a bit in the range has the value |
| Bitmaps.Bitmap.Scan | code/group/src/lib/kernel/bitmap.c:235-247 | the first group of cnt bits with the value at or after start, or none if there is none |
| Bitmaps.Bitmap.ScanAndFlip | code/group/src/lib/kernel/bitmap.c:256-261 | the same, and exactly that group is flipped |
| Inodes.SectorsApart | code/group/src/filesys/inode.c:40-46 | byte ranges of files in disjoint sector ranges are disjoint |
| Inodes.WrittenData | code/group/src/filesys/inode.c:215-268 | a write patches the bytes of its own file and leaves every disjoint range of the disk |
| Inodes.Inode.ReadAt | code/group/src/filesys/inode.c:165-208 | with memory for the bounce buffer the bytes [offset, min(offset + size, length)) of the file, otherwise a prefix of them, and nothing else in the caller's buffer |
| Inodes.Inode.WriteAt | code/group/src/filesys/inode.c:215-268 | replaces exactly the bytes [offset, min(offset + size, length)) of the file on the device; no other byte of the disk changes; nothing is written while writes are denied |
| Directories.FilledMeans | code/group/src/filesys/directory.c:143-145 | the bytes stored for an entry decode to it |
| Directories.SlotFilled | code/group/src/filesys/directory.c:115-150 | filling a free slot with a new name adds that name to the map |
| Directories.SlotOverwritten | code/group/src/filesys/directory.c:115-150 | writing a name over the slot that has it replaces its sector in the map |
| Directories.SlotPartlyWritten | code/group/src/filesys/inode.c:215-268 | a write that stops early leaves every slot but one as it was |
| Directories.SlotErased | code/group/src/filesys/directory.c:155-185 | clearing in_use of a slot takes its name out of the map |
| Directories.FreeSlotIff | code/group/src/filesys/directory.c:132-140 | there is a free slot if and only if the map has fewer names than slots |
| Directories.Dir.Lookup | code/group/src/filesys/directory.c:73-89 | finds the first slot with the name and its bytes; otherwise no slot before the place where it stopped has the name, and with dependable memory that place is the end; without, it is where a read came back short |
| Directories.LookupRightIff | code/group/src/filesys/directory.c:73-89 | a search that stopped early says rightly that a name is missing if and only if no slot behind the place where it stopped has it |
| Directories.Dir.Add | code/group/src/filesys/directory.c:115-150 | with dependable memory it succeeds if and only if the name is valid and new and a slot is free, and then the map has the name; without, a success writes the entry into the first slot that a full read did not show to be used, after a search that may have stopped early, and a failure may leave that one slot partly written |
| Directories.AddRightIff | code/group/src/filesys/directory.c:115-150 | writing a name into slot k makes the directory the old map with that name if and only if the slot has the same name, or it is free and the name was missing |
| Directories.NameAddedTwice | code/group/src/filesys/directory.c:73-150 | an outcome that the contract of Dir.Add admits when the read of lookup is short at the first slot: the name is stored a second time |
| Directories.EntryOverwritten | code/group/src/filesys/directory.c:132-145 | an outcome that the contract of Dir.Add admits when the read of its own loop is short at a slot in use: another name is overwritten |
| Directories.Dir.Remove | code/group/src/filesys/directory.c:155-185 | with dependable memory it succeeds if and only if the name is there and its inode opens; whenever it succeeds the map has lost exactly that name, and when it fails nothing changed |
| Directories.Dir.Readdir | code/group/src/filesys/directory.c:190-201 | the next used slot at or after the position; or no slot up to where it stopped is used, which with dependable memory is the end |
| Ledgers.ClaimOk | code/group/src/filesys/free-map.c:25-34 | allocating free sectors gives sectors that nobody owns |
| Ledgers.FreeOk | code/group/src/filesys/free-map.c:37-41 | sectors are released only when they are marked used and nobody's |
| Ledgers.AdoptOk | code/group/src/filesys/inode.c:60-89 | a new inode owns its sectors alone |
| Ledgers.DropOk | code/group/src/filesys/inode.c:143-150 | an inode that goes gives up its sectors |
| Ledgers.OwnershipDisjoint | code/group/src/filesys/inode.c:60-153 | live inodes own disjoint sets of sectors, all marked used |
| FilesysState.OpenedOk | code/group/src/filesys/inode.c:94-127 | opening and reopening keep the invariant |
| FilesysState.ClosedOk | code/group/src/filesys/inode.c:135-153 | closing keeps it; the last close of a removed inode releases its sectors |
| FilesysState.UnnamedOk | code/group/src/filesys/inode.c:157-160 | removing a name marks the open inode removed and keeps the invariant |
| FilesysState.NewNameOk | code/group/src/filesys/filesys.c:39-49 | naming a created inode keeps the invariant |
| FilesysState.CreatedOk | code/group/src/filesys/inode.c:60-89 | creating an inode in free sectors keeps the invariant |
| FilesysState.ReleasedOk | code/group/src/filesys/inode.c:145-150 | releasing frees exactly the sectors of that inode, which were marked used, and every other live inode keeps its own |
| Filesys.FileSystem.Allocate | code/group/src/filesys/free-map.c:25-34 | claims the first run of free sectors, or there was none, or the free-map file could not be written and the claim was undone |
| Filesys.FileSystem.Release | code/group/src/filesys/free-map.c:37-41 | marks the sectors free |
| Filesys.FileSystem.InodeOpen | code/group/src/filesys/inode.c:94-120 | at most one in-memory inode for each sector: an open one is reopened |
| Filesys.FileSystem.InodeReopen | code/group/src/filesys/inode.c:123-127 | one opener more |
| Filesys.FileSystem.InodeClose | code/group/src/filesys/inode.c:135-153 | one opener less; the last one takes the inode off the list and, if it is removed, releases its sectors |
| Filesys.FileSystem.InodeCreate | code/group/src/filesys/inode.c:60-89 | a new inode with its own data sectors, or nothing changed |
| Filesys.FileSystem.Create | code/group/src/filesys/filesys.c:39-49 | on success a new inode under a new name; a failure leaves the books as they were, or exactly the data sectors of one inode lost; with dependable memory it succeeds if and only if the name can be added and there is room, and the lost sectors grow if and only if the name cannot be added, there is room and the initial size is not zero |
| Filesys.FileSystem.Open | code/group/src/filesys/filesys.c:56-65 | opens the inode the name stands for; with dependable memory it fails only if the name does not exist |
| Filesys.FileSystem.Remove | code/group/src/filesys/filesys.c:71-77 | takes the name away and deletes the inode at once if nobody has it open |
| Filesys.FileSystem.Format | code/group/src/filesys/filesys.c:80-87 | a fresh file system satisfies the invariant with no names and nothing leaked |
| FilesysRuns.StepOk | code/group/src/filesys/filesys.c:39-77 | every step of the file-system machine keeps the invariant |
| FilesysRuns.Perform | code/group/src/filesys/filesys.c:39-77 | every call of a method of the class is a step of that machine, a dependable one if memory is, so the run theorems speak of the class |
| FilesysRuns.RunOk | code/group/src/filesys/filesys.c:39-77 | it holds after every run of calls |
| FilesysRuns.RunDisjoint | code/group/src/filesys/inode.c:60-153 | in every run, two different inodes that are named or open own disjoint sectors, all marked used |
| FilesysRuns.StepKeeps | code/group/src/filesys/inode.c:135-160 | a call frees an inode's sectors exactly when it takes the last name and opener, and then exactly those; otherwise the inode keeps its extent and its sectors |
| FilesysRuns.OpenFileKeeps | code/group/src/filesys/inode.c:94-160 | an inode that stays open over any stretch of a run keeps its sectors, even when it is removed meanwhile |
| FilesysRuns.StepLoses | code/group/src/filesys/filesys.c:39-49 | a dependable call loses sectors if and only if it is a creation, with a size other than zero and with room for the file, under a name that is too long or exists or finds no free slot |
| FilesysRuns.NothingLost | code/group/src/filesys/filesys.c:39-49 | after a dependable run every used sector has an owner if and only if no call of the run was such a creation |
| FilesysRuns.ExistingNameLoses | code/group/src/filesys/filesys.c:39-49 | a file system with one file, where creating that name again loses a sector |
| BitOps.AndMask | code/group/src/lib/kernel/hash.c:255-258 | masking with a power of two less one is the remainder |
| BitOps.PowerOf2Iff | code/group/src/lib/kernel/hash.c:274-277 | the test for a power of two is right for every number |
| BitOps.TurnOffKeeps | code/group/src/lib/kernel/hash.c:303-307 | turning off the lowest bit ends at the largest power of two that is not larger |
| HashTables.BucketIsRemainder | code/group/src/lib/kernel/hash.c:255-258 | with a power of two of buckets an element's bucket is its hash modulo their number |
| HashTables.PushedOk | code/group/src/lib/kernel/hash.c:346-349 | an element that has no equal enters the table's set |
| HashTables.DroppedOk | code/group/src/lib/kernel/hash.c:352-355 | unlinking an element takes it out of the table's set |
| HashTables.ContentApart | code/group/src/lib/kernel/hash.c:85-110 | no two different elements of the table are equal |
| HashTables.FlatIsContent | code/group/src/lib/kernel/hash.c:173-203 | the buckets in order list every element once |
| HashTables.Hash.Find | code/group/src/lib/kernel/hash.c:114-116 | the equal element, or there is none |
| HashTables.Hash.Insert | code/group/src/lib/kernel/hash.c:85-95 | adds an element without an equal, whether or not rehashing finds memory; with memory the number of buckets is ideal |
| HashTables.Hash.Replace | code/group/src/lib/kernel/hash.c:99-110 | puts the element in place of its equal |
| HashTables.Hash.Delete | code/group/src/lib/kernel/hash.c:125-132 | removes the equal element |
| HashTables.Hash.IdealCount | code/group/src/lib/kernel/hash.c:299-307 | the loop computes a power of two, at least 4, with two to four elements for each bucket beyond that |
| HashTables.Hash.Rehash | code/group/src/lib/kernel/hash.c:288-343 | keeps every element and puts each in its bucket; without memory the table stays as it is |
| HashTables.HashIterator.Next | code/group/src/lib/kernel/hash.c:190-203 | yields the elements one after another, each exactly once, then none |
| AllocatorState.BlockToArena | code/group/src/threads/malloc.c:237-257 | block_to_arena accepts every address that arena_to_block makes and gives back the arena |
| AllocatorState.BlockIndex | code/group/src/threads/malloc.c:237-257 | every address it accepts is a block of the arena |
| AllocatorState.BlocksApart | code/group/src/threads/malloc.c:252-257 | blocks of an arena do not overlap |
| AllocatorState.NewArenaOk | code/group/src/threads/malloc.c:116-134 | a new arena brings exactly its blocks to the free list |
| AllocatorState.TakeOk | code/group/src/threads/malloc.c:136-141 | handing out a free block keeps free counts and free lists right |
| AllocatorState.GiveOk | code/group/src/threads/malloc.c:212-216 | taking a block back keeps them right |
| AllocatorState.AllFree | code/group/src/threads/malloc.c:215-225 | free_cnt reaches the number of blocks exactly when all blocks of the arena are on the free list |
| AllocatorState.DropArenaOk | code/group/src/threads/malloc.c:215-225 | an arena without live blocks can go, and no live block was in it |
| AllocatorState.GotPages | code/group/src/threads/palloc.c:65-91 | a first-fit range of pages belongs to nobody else |
| AllocatorState.FreedPages | code/group/src/threads/palloc.c:103-126 | freeing an arena marks exactly its pages free, and they were used |
| AllocatorState.LiveApart | code/group/src/threads/malloc.c:83-142 | live blocks are disjoint, and each is at least as large as it was asked to be |
| AllocatorState.ArenaApart | code/group/src/threads/malloc.c:83-234 | the pages of one arena meet no live block of another |
| AllocatorState.LiveInPool | code/group/src/threads/palloc.c:65-126 | every live block lies in the pool |
| Mallocs.Allocator.GetArena | code/group/src/threads/palloc.c:65-91 | takes the first free run of pages, or there is none and nothing changed |
| Mallocs.Allocator.FreeArena | code/group/src/threads/palloc.c:103-126 | gives back the pages of an arena; memory outside them is untouched |
| Mallocs.ServedIff | code/group/src/threads/malloc.c:98-100 | the page count of a big block in 32-bit arithmetic: it is right up to 2^32 - 4108, none for the sizes above up to 2^32 - 12, and one page for the eleven largest sizes, whose block is smaller than asked for; for no others |
| Mallocs.CopyFitsIff | code/group/src/threads/malloc.c:178-192 | what realloc copies fits into the block that malloc gives if and only if the new size is none of the eleven largest or the old block has at most 4084 bytes |
| Mallocs.CopyTooLong | code/group/src/threads/malloc.c:178-192 | for the new size 2^32 - 11 and an old block of two pages, realloc copies 8180 bytes into a block of 4084 |
| Mallocs.Allocator.Malloc | code/group/src/threads/malloc.c:83-142 | a new live block of the size, or for the eleven largest sizes of one page less the header; or nothing changed because the size is 0 or no run of as many pages as are asked for is free, in which case a big block is never given |
| Mallocs.Allocator.FreeSmall | code/group/src/threads/malloc.c:200-227 | the block is free again, and its arena goes back to the pool when that was its last live block |
| Mallocs.Allocator.Free | code/group/src/threads/malloc.c:196-234 | exactly that block is no longer live; every other live block keeps its place and its bytes |
| Mallocs.Allocator.Realloc | code/group/src/threads/malloc.c:178-192 | a new block with the common prefix of the old one, which is freed; on failure nothing changed; every other live block keeps its bytes; wherever malloc fails or its block has room for that prefix |
| Mallocs.ArenasInUse | code/group/src/threads/malloc.c:196-234 | between calls every arena has a live block: empty ones have been returned |
| Codec.RoundTrip | code/personal/hw-map-reduce/codec/codec.c:16-60 | what is read from the written records is the sequence of buffers that was written |
| Codec.Writer.Write | code/personal/hw-map-reduce/codec/codec.c:16-19 | appends the length and the bytes |
| Codec.Reader.Next | code/personal/hw-map-reduce/codec/codec.c:30-60 | reads the next record and moves past it, or reports that none is left, also for a truncated one |
| Codec.Reader.Count | code/personal/hw-map-reduce/codec/codec.c:62-73 | counts the records from the position on |
| MapReduce.ByKeyZero | code/personal/hw-map-reduce/lib/lib.c:26-39 | by_key is 0 for NUL-free keys exactly when they are equal, and is antisymmetric |
| MapReduce.ByKeyTransitive | code/personal/hw-map-reduce/lib/lib.c:26-39 | by_key orders NUL-free keys transitively |
| MapReduce.SideBySide | code/personal/hw-map-reduce/worker/task_handler.c:94-116 | in a sorted array the pairs of one key stand side by side |
| MapReduce.GroupHasValues | code/personal/hw-map-reduce/worker/task_handler.c:94-116 | a grouping with distinct keys holds all values of each key |
| MapReduce.ReduceKvs | code/personal/hw-map-reduce/worker/task_handler.c:94-116 | calls reduce on consecutive groups that together are the array, with distinct keys, and writes their results in order |
| MapReduceJob.IHash | code/personal/hw-map-reduce/lib/lib.c:13-24 | the loop computes the hash of the key, in 32-bit arithmetic |
| MapReduceJob.WriteMapKvs | code/personal/hw-map-reduce/worker/task_handler.c:170-184 | file r gets the records of exactly the pairs whose key hashes to r, in order |
| MapReduceJob.ReadMapKvs | code/personal/hw-map-reduce/worker/task_handler.c:69-92 | all pairs of all files, in order |
| MapReduceJob.HandleReduceTask | code/personal/hw-map-reduce/worker/task_handler.c:9-39 | fails exactly for an odd number of records, otherwise calls reduce for each group of the sorted pairs |
| MapReduceJob.PartValues | code/personal/hw-map-reduce/worker/task_handler.c:170-184 | a partition has all values of its own keys and none of others |
| MapReduceJob.ReadBackParts | code/personal/hw-map-reduce/worker/task_handler.c:69-92 | reading back the files of all map tasks for a reduce task gives its partition of all emitted pairs |
| MapReduceJob.OneCallForEachKey | code/personal/hw-map-reduce/worker/task_handler.c:9-184 | over all reduce tasks, reduce is called exactly once for each key that some map task emitted, in the task of its hash, with all its values |
| MapReduceJob.RunJob | code/personal/hw-map-reduce/worker/task_handler.c:9-184 | the job as it runs, map tasks writing their files and reduce tasks reading them back: reduce is called exactly once for each emitted key, with all its values, and each output file has the results in order |
| Sorting.SwapMovesHole | code/group/src/lib/stdlib.c:82-104 | one step of heapify moves the only violated node down to the larger child |
| Sorting.RootIsGreatest | code/group/src/lib/stdlib.c:112-129 | no element of a heap exceeds its root |
| Sorting.Heapify | code/group/src/lib/stdlib.c:82-104 | restores the heap below one violated node, keeps the elements and leaves the others, and terminates |
| Sorting.BuildHeap | code/group/src/lib/stdlib.c:120-122 | makes the whole array a heap of the same elements |
| Sorting.Sort | code/group/src/lib/stdlib.c:112-129 | a sorted permutation of the array in place, for every total preorder |
| Sorting.BinarySearch | code/group/src/lib/stdlib.c:159-178 | finds a match if and only if there is one |
| Formats.MarkedReadBack | code/group/src/lib/stdio.c:487-495 | digits with commas, the commas left out, denote the value in every base |
| Formats.CommaPlaces | code/group/src/lib/stdio.c:487-495 | counted from the right, commas stand exactly behind each full group of digits, and never first |
| Formats.DigitsWritten | code/group/src/lib/stdio.c:497-505 | how many digits, commas left out, stand in the text of any value for any precision and flags |
| Formats.PrecisionMet | code/group/src/lib/stdio.c:497-505 | commas left out, the text has as many digits as the precision asks for if and only if the value has them already, the octal zero counted, or no comma stands in it and the precision is at most 63 |
| Formats.PrecisionUngrouped | code/group/src/lib/stdio.c:497-505 | without grouping, for every 64-bit value: as many characters as the precision if and only if it is at most 63; empty exactly for zero with precision zero and no octal zero; # with base 8 gives a leading zero |
| Formats.CommaTakesAPlace | code/group/src/lib/stdio.c:491-501 | 1234 with grouping and precision 5 comes out as 1,234, which has four digits |
| Formats.BufferEnds | code/group/src/lib/stdio.c:500-501 | 7 with precision 64 comes out with 63 digits |
| Formats.FieldWidth | code/group/src/lib/stdio.c:507-527 | the output is as long as the larger of the width and the body if and only if the minus and zero flags are not both set or the body fills the width |
| Specifiers.ParseConversion | code/group/src/lib/stdio.c:338-438 | the loops read the specifier that is written at that place, none of whose parts goes on, and leave what it means for the arguments: flags, width, precision and type |
| Specifiers.SpecifierUnique | code/group/src/lib/stdio.c:338-438 | at most one specifier is written at a place |
| Specifiers.BothFlagsIff | code/group/src/lib/stdio.c:373-408 | minus and zero are both left set if and only if the zero flag stands there without a minus flag, the width is a star with a negative argument, and no precision counts |
| Specifiers.WidthMissedIff | code/group/src/lib/stdio.c:338-527 | for every specifier and arguments: the output is not as wide as it should be if and only if that is so and the width asked for exceeds the body |
| Specifiers.ZerosAndSpaces | code/group/src/lib/stdio.c:384-527 | %0*d for -5 and 42 gives 00042 and three spaces |
| Formats.FormattedMeaning | code/group/src/lib/stdio.c:456-528 | for every value, base, flag set (minus together with zero included), width and precision the whole output reads back as the signed value |
| Formats.DecimalRoundTrip | code/group/src/lib/stdio.c:456-528 | %d of a 32-bit integer without grouping reads back as that integer, INT_MIN included |
| Formats.Atoi | code/group/src/lib/stdlib.c:9-38 | for every text the loop returns what the text stands for, reduced to a 32-bit integer as two's complement does |
| Stdio.AccumulateDigits | code/group/src/lib/stdio.c:487-495 | the loop fills the buffer with the digits backwards and never reaches its 64th character |
| Stdio.FillDigits | code/group/src/lib/stdio.c:487-505 | precision zeros and the octal zero complete the digits within the buffer |
| Stdio.OutputBuffer.Output | code/group/src/lib/stdio.c:42-47 | counts every character and stores those that fit |
| Stdio.OutputBuffer.FormatInteger | code/group/src/lib/stdio.c:456-528 | sends exactly the formatted text to the callback |
| Stdio.Snprintf | code/group/src/lib/stdio.c:24-65 | the buffer gets the text or as much as fits and a NUL, nothing else changes, and the full length is returned |
| Ustar.StrippedIsSafe | code/group/src/lib/ustar.c:51-64 | a stripped name does not begin with a slash, a dot or a dot-dot component and is not empty; stripping is idempotent and changes exactly the other names |
| Ustar.InnerParentsRemain | code/group/src/lib/ustar.c:51-64 | a/../../x is left as it is, although it leads out of the directory it is unpacked in |
| Ustar.StripAntisocialPrefixes | code/group/src/lib/ustar.c:60-64 | the loop over slashes computes the stripped name |
| Ustar.OctalRoundTrip | code/group/src/lib/ustar.c:107-140 | printing a number into an octal field that is wide enough and parsing the field are inverse |
| Ustar.ParseOctalField | code/group/src/lib/ustar.c:116-140 | the loop parses the field, with its overflow, empty-field and bad-character failures |
| Ustar.SumIgnoresChksum | code/group/src/lib/ustar.c:34-49 | the checksum does not depend on the checksum field |
| Ustar.CalculateChksum | code/group/src/lib/ustar.c:34-49 | the loop computes the sum with spaces for the checksum field |
| Ustar.MakeHeader | code/group/src/lib/ustar.c:73-105 | succeeds if and only if the stripped name has at most 99 characters; then all 512 bytes of the header are determined |
| Ustar.ParseHeader | code/group/src/lib/ustar.c:157-198 | the tests in their order and their results |
| Ustar.ParsedNameIsSafe | code/group/src/lib/ustar.c:157-198 | no accepted header, whoever made it, yields an unsafe name or a size beyond INT_MAX |
| Ustar.HeaderParsed | code/group/src/lib/ustar.c:157-198 | what parsing any made header gives, the refusal of too large sizes included |
| Ustar.RoundTrip | code/group/src/lib/ustar.c:73-198 | a made header is accepted if and only if it is of a directory or the size is not negative, and gives back stripped name, type and size |
| Ustar.NegativeSizeRefused | code/group/src/lib/ustar.c:73-198 | the header made for a regular file of size -1 is refused as too large |
| PageTables.PteBits | code/group/src/threads/pte.h:83-98 | a page table entry gives back its page and its writable flag and is present |
| PageTables.TableAdded | code/group/src/userprog/pagedir.c:58-70 | adding an empty table maps nothing and keeps every mapping |
| PageTables.EntrySet | code/group/src/userprog/pagedir.c:87-104 | setting one entry changes the mapping of one page only |
| PageTables.AddressSpace.LookupPage | code/group/src/userprog/pagedir.c:50-75 | finds the table of a page, or makes it exactly when that is wanted and possible, keeping every mapping |
| PageTables.AddressSpace.SetPage | code/group/src/userprog/pagedir.c:87-104 | maps one unmapped page to the frame; fails, changing no mapping, exactly when a table is missing and no page is left; free pages and tables together stay the same number |
| PageTables.AddressSpace.GetPage | code/group/src/userprog/pagedir.c:110-120 | the frame a page is mapped to |
| PageTables.AddressSpace.ClearPage | code/group/src/userprog/pagedir.c:126-137 | unmaps one page and keeps all other mappings |
| PageTables.AddressSpace.Destroy | code/group/src/userprog/pagedir.c:24-42 | frees every mapped page, every user table and the page of the directory, each once, and nothing else |
| PageTables.MappedBelowIff | code/group/src/userprog/pagedir.c:24-42 | the freed pages are exactly those that some page of the address space is mapped to |
| Loader.LoadPage | code/group/src/userprog/process.c:434-458 | one page with file bytes and zeros; succeeds exactly when memory, file and the place allow it, otherwise every mapping is as before |
| Loader.LoadSegment | code/group/src/userprog/process.c:426-464 | succeeds if and only if there are enough user pages, the file has the bytes, no page is mapped, and there are as many free kernel pages as tables are missing; then each page holds its part of the file or zeros; other pages keep mapping and content either way, and every allocated page stays mapped |
| Executables.AcceptedSegments | code/group/src/userprog/process.c:371-410 | the tests of validate_segment in 32-bit arithmetic mean their exact counterparts, without wrap-around |
| Executables.SegmentExtent | code/group/src/userprog/process.c:325-342 | for an accepted segment the page arithmetic of load does not wrap around and meets the assertions of load_segment |
| Executables.LoadedByte | code/group/src/userprog/process.c:426-464 | a loaded page shows the file or zero at each of its addresses |
| Executables.SegmentBytes | code/group/src/userprog/process.c:325-342 | in a loaded segment each address shows the file byte below p_filesz and zero up to p_memsz, writable as p_flags says |
| Executables.HeadersKept | code/group/src/userprog/process.c:300-348 | loading one segment leaves the segments loaded before |
| Executables.CoveredIff | code/group/src/userprog/process.c:300-348 | the pages a sequence of program headers covers are those of its loadable segments |
| Executables.CanLoadIff | code/group/src/userprog/process.c:300-348 | after some headers have been loaded the next one can be loaded if and only if, seen from the start, all of them are placed apart in unmapped pages and there is room for all their pages and tables |
| Executables.LoadHeaders | code/group/src/userprog/process.c:300-348 | the loop over program headers succeeds if and only if every header can be read, none is DYNAMIC, INTERP or SHLIB, every loadable segment is accepted and within the file, their pages are disjoint and unmapped, and there is room |
| Executables.SetupStack | code/group/src/userprog/process.c:468-481 | succeeds if and only if the top page is unmapped and a user page and a missing table can be had; then it is a zeroed writable page |
| Executables.Load | code/group/src/userprog/process.c:271-363 | succeeds if and only if the header is right, all program headers can be placed, the top page is left for the stack, and there is room for all pages and tables; then all segments and the stack page are in memory, nothing else was mapped or changed, and the entry point is that of the header; after a failure too, every page taken from the user pool is mapped |

## Left out

- Raft, the key-value server and its client, the distributed lock, the MapReduce coordinator, the HTTP handlers, mm_alloc and the Rust projects are skeletons without behaviour.
- The PRIO, FAIR and MLFQS schedulers only panic. Timer ticks and preemption appear as a yield that may come at any time.
- Kernel.Machine.SemaUp: waking and adding a unit are one step, as interrupts are off; the unwinding of stacks and interrupt levels is not modelled.
- list_unique, list_splice between two lists, list_max and list_min.
- JsonParser.ParseBuffer.ParseNumber: strtod is exact here, over the reals; the rounding to double is not modelled, nor the locale's decimal point, nor an allocation failure.
- JsonPrinter.PrintBuffer.PrintNumber: only numbers that equal their valueint, which are printed by %d; the printing of other doubles by %1.15g and %1.17g is not modelled.
- JsonParser.ParseWithLengthOpts: the parsed tree is a value and not linked items in the heap, so allocation failures of the parser, freeing after a failure and return_parse_end after a failure are not modelled.
- cJSON raw items, reference flags, hooks beyond allocation success and realloc, PrintBuffered, and the item-editing functions.
- Filesys.FileSystem.Create: the names of the root directory are a map here, and CanAdd is the condition that Directories.Dir.Add proves about the bytes of a directory; reading and writing those bytes is not repeated in this class, so directory reads and writes are never short here (see Directories.NameAddedTwice).
- Filesys.FileSystem.Open: for the same reason a lookup is never cut short here (see Directories.Dir.Lookup).
- Filesys.FileSystem.Remove: for the same reason a lookup is never cut short here (see Directories.Dir.Remove).
- The bytes of the free-map file and the zeroing of new data sectors; only the bitmap and its success are modelled.
- Bitmaps: the locked or and and instructions of bitmap_mark and bitmap_reset are plain word operations.
- HashTables.Hash.Rehash: a bucket is a sequence and not a linked list; hash_apply, hash_clear and hash_destroy are left out.
- Mallocs.Allocator.Realloc: excludes the calls whose copy does not fit into the block that malloc gives, which are those with one of the eleven largest sizes and an old block of more than 4084 bytes while a page is free (`CopyFitsIff`); what the overrun does to other memory is not modelled.
- Mallocs.Allocator.Malloc: the links of free blocks are kept in sequences apart from the memory bytes; locks, the magic numbers and calloc are left out; there is one pool.
- MapReduceJob.HandleReduceTask: qsort is a parameter that sorts by key, its order within a key is free; opening files and running out of memory are left out.
- MapReduce keys with an embedded NUL, which strncmp does not compare.
- Sorting.Sort: elements are values that are exchanged whole and not byte by byte.
- Stdio.Snprintf: one integer conversion; the loop of vprintf over its format, %s, %c, %p and %f are left out.
- Specifiers.ParseConversion: widths and precisions are unbounded integers.
- Loader.LoadPage: a read of the file is never short for lack of memory for the bounce buffer (see Inodes.Inode.ReadAt); with such a read the code fails as for a file that ends.
- Loader.LoadSegment: reads are never short for lack of memory, as in Loader.LoadPage.
- Executables.LoadHeaders: reads are never short for lack of memory, as in Loader.LoadPage.
- Executables.Load: reads are never short for lack of memory, as in Loader.LoadPage; opening the file is taken to succeed; kernel mappings and TLB flushes are left out.
- PageTables.AddressSpace.ClearPage: dirty and accessed bits are left out.
- Device drivers, the console, partitions, system-call stubs, interrupts as instructions and the RPC layer.
