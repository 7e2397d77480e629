# Chat room protocols

This project models the byte-level protocol code and the shared-state protocols of the chat room
server, and proves what each of them is for. The imperative code is kept imperative: parsers,
tables, lists, buffers and the pool are classes and methods that change fields, arrays and nodes in
place. Each is proved against a function on values, and the laws are lemmas about those functions.

| file | what it models |
|---|---|
| `Bytes.dfy`, `Decimal.dfy` | bytes, and decimal numbers as the Redis client prints and reads them |
| `RespSpec.dfy` | the Redis protocol as a recursive grammar: reply trees, their wire form, their parsing |
| `RespMachine.dfy` | the resumable reader as a machine with a stack of half-filled arrays; it computes the grammar, however its input is cut |
| `RespReader.dfy` | the reader on the heap: nine task slots, a compacted buffer, children written into their parents' arrays |
| `Command.dfy` | both command formatters, with their lengths computed beforehand |
| `SdsQuote.dfy` | quoting byte strings and splitting quoted lines |
| `Dict.dfy` | the chained hash table with rehashing and its iterator |
| `AsyncSpec.dfy`, `AsyncContext.dfy` | the callback queue of an asynchronous connection, re-entrant callbacks and teardown: as a state machine, and on the heap |
| `Md5.dfy` | streaming MD5 over a given block function |
| `WebSocket.dfy` | building and parsing frames |
| `JobKeys.dfy`, `JobRouting.dfy` | the Redis keys of the Job process; reading, grouping and counting connections |
| `JobProtocol.dfy`, `JobLaws.dfy`, `JobBroadcasts.dfy`, `JobProgram.dfy` | the consumers of the Job process over Redis keys with expiry (deduplication, cooldown, lock, broadcast, release), laws of their runs and of the broadcasts in them, and the program itself |
| `ConnPool.dfy` | the connection pools as a monitor with sleeping and notified callers |
| `HttpParser.dfy` | the HTTP request parser, one byte at a time |
| `HttpInvariant.dfy` | its invariant: no assertion fails from any reachable state; when it leaves for another protocol |
| `HttpExecute.dfy` | `http_parser_execute` itself: marks, callbacks, re-executed bytes, bodies read in stretches |
| `HttpLength.dfy` | the lengths it reads digit by digit, and the wraps its overflow test misses |
| `HttpChunk.dfy`, `HttpMessage.dfy` | chunked bodies, header lines and whole requests, printed and parsed again |
| `HttpRequestLine.dfy` | which targets and versions are accepted, and line ends and blank lines outside the grammar |

`dafny verify dfyconfig.toml` checks everything.

## The main results

* **Redis replies.** `RespReader.ReadStream`: whatever pieces the network delivers, the object
  graphs that the heap reader hands out show exactly the replies of the joined input, and the reader
  ends, or fails, as if given everything at once. It rests on `RespMachine.SplitIndependence` and
  `RespMachine.TopLevelIsParse` (the iterative reader computes the recursive grammar). With
  `RespMachine.RepliesSurviveTheWire`, `RespSpec.ParseSerialised` and its converse
  `RespSpec.ParsedIsWritable`, printing and parsing undo each other. `RespSpec.LinesOnTheWire`,
  `RespSpec.BulkOnTheWire`, `RespSpec.ArrayOnTheWire` and `RespReader.RedisReader.LineHandedOut` say it
  byte for byte, down to the type code of the object.
* **Redis commands.** `Command.CommandRoundTrip`: the bytes of any argument list are read back as one
  array of exactly these arguments. `Command.FormatCommand`: a format is split into words before
  anything is substituted, and the computed length is the written length. `Command.FormattedWords`:
  what each word of a format's bytes gives.
* **Quoting.** `SdsQuote.QuotingRoundTrip`: every list of byte strings survives.
  `SdsQuote.SplitsLine` and `SdsQuote.BadLine`: arguments in any form, and quotes that do not match.
* **Hash table.** `Dict.Run`: any sequence of operations, through every rehash, answers as a finite
  map, and `Dict.NeverOverfull`: never with more entries than buckets; `Dict.Entries`: a walk gives each pair once; `Dict.DeleteAll`: deleting what was just returned
  does not disturb the walk.
* **Callbacks.** `AsyncContext.Run`: the linked list and the flags go through exactly the states that
  the events and the callbacks' own doings determine. `AsyncSpec.ExactlyOnceInOrder`: there every
  callback is called once, in order, with the right reply, however the connection ends.
  `AsyncSpec.InsideAccepts`, `AsyncSpec.CommandAccepted` and `AsyncSpec.ReadableKeeps` say exactly
  which commands are accepted and which replies are used, and `AsyncSpec.AskedDisconnectEnds` when a
  disconnect that was asked for takes place.
* **MD5.** `Md5.HashPieces`: however a message is cut, the first digest is the one-shot definition,
  which `Md5.DigestExactly` gives byte for byte.
* **WebSocket.** `WebSocket.ServerRoundTrip` and `WebSocket.ClientRoundTrip`; `WebSocket.ParseExactly`
  says bit by bit what any frame holds.
* **Job.** `JobProtocol.LocksLeaveByOwner`, `JobProtocol.MutualExclusion`, `JobProtocol.GateSpacing`,
  `JobLaws.NoWayAround`, `JobBroadcasts.OwnPass` and `JobBroadcasts.BroadcastWindow` over every run of any number of consumers, with
  lost and refused commands, lost replies and lost connections; `JobProgram.RunJob` ties them to the
  program. `JobBroadcasts.ReportsCount`: each report accounts for the members of its room. Where a promise fails, `JobProtocol.DedupPassesIff`, `JobProtocol.CooldownPassesIff`,
  `JobProtocol.JoinsIffOverstayed`, `JobProtocol.FreedIffWhole` and `JobBroadcasts.KeepsApartIff` say
  exactly when.
* **Pools.** `ConnPool.RunKeeps`: conservation and no lost wake-up in every run.
  `ConnPool.FirstInFirstOut`: the order in which connections are handed out.
* **HTTP.** `HttpInvariant.ParseKeeps`: no input makes an assertion fail.
  `HttpExecute.ExecutePieces`: split independence of `http_parser_execute`.
  `HttpMessage.RequestRoundTrip` and `HttpMessage.RequestInOneCall`: printed requests are taken apart
  again, each url, name and value by one callback, and nothing else is told; `HttpMessage.ToldApart`:
  different ones are told apart. `HttpRequestLine.TargetExactly`, `HttpRequestLine.VersionExactly`,
  `HttpMessage.MethodExactly`, `HttpMessage.TokenExactly`, `HttpMessage.LinesAccepted` and
  `HttpChunk.SizeAccepted` say exactly what is accepted.
  `HttpMessage.ChunkedRoundTrip`: chunked decoding inverts chunked encoding, trailers included.
  `HttpMessage.UpgradeRoundTrip`: a WebSocket handshake is read to its end and not beyond.

## Where the code and its words differ

The model follows the code.

* `read.c:452` says that depth above 7 is not supported; the code accepts 8 levels of arrays
  (`RespSpec.ParsedIsWritable`, `RespSpec.ParseSerialised`).
* The comment at `route_service.cc:317` says that without a connection a message counts as
  unprocessed; the value returned makes the caller skip it
  (`JobProgram.RouteService.CheckAndMarkMessageProcessed`).
* `main.cc:131-138` promises that a message is not handled twice in 60 seconds. The message id is
  made of room, second and consumer, so it names no message: different messages of one second are
  dropped as duplicates (`JobLaws.OncePerSecond`), and a message delivered again passes again
  (`JobLaws.RedeliveredPasses`). `JobProtocol.DedupPassesIff` says exactly when a message passes.
* A lock that outlives its 5 seconds excludes nobody (`JobLaws.OverstayedLock`,
  `JobProtocol.JoinsIffOverstayed`).
* `main.cc:144-145` promises that a room is broadcast to only once within a second. The cooldown
  spaces the passes through its gate, and those only while Redis is heard (`JobLaws.UnansweredCooldown`,
  `JobProtocol.CooldownPassesIff`); a consumer that waits between gate and broadcast brings its
  broadcast closer to the next, even while Redis is heard throughout (`JobBroadcasts.TwoBroadcasts`).
  `JobBroadcasts.KeepsApartIff` says exactly how close, and `JobBroadcasts.BroadcastWindow` how many
  broadcasts a window can hold.
* Marks and locks are set under keys that end at the first NUL byte of the room name, but the release
  script gets the whole key: the lock of a room with such a name is never released
  (`JobProtocol.FreedIffWhole`), and rooms can share marks and locks (`JobKeys.RoomsShareGates`,
  `JobKeys.SameMark`).
* `md5.cc:93-100` means to compute a digest once; `update` clears the flag, so every call computes
  anew, from a buffer whose tail the previous call may have overwritten (`Md5.DigestKeepsMessage`).
* The overflow tests at `http_parser.cc:1678` and `http_parser.cc:1983` look only whether the number
  got smaller, so they miss some wraps (`HttpMessage.MissedLength`, `HttpChunk.MissedSize`);
  `HttpLength.ReadIffSteady` says exactly which numbers are refused.
* The table of methods spells one of them `M - SEARCH`; a request with the method M-SEARCH is refused
  (`HttpMessage.MSearchRefused`, `HttpMessage.MethodExactly`).

## Model

| member | source | states |
|---|---|---|
| Decimal.ParseLLIffPrinted | server/application/chat-room/redis/read.c:183-262 | string2ll accepts a byte string with result v if and only if v is a 64-bit number and the string is its one canonical print: no leading zero, no "-0", no sign alone, nothing out of range |
| Decimal.String2ll | server/application/chat-room/redis/read.c:183-262 | the digit loop, with its unsigned overflow tests before each multiplication and addition, decides exactly that language, so no test rejects a number in range or lets one out of range through |
| Decimal.ScanDigits | server/application/chat-room/redis/read.c:212-241 | the loop body: the number of the digits read so far is exact, and a stop means that the whole number would not fit 64 bits or that a byte is no digit |
| Decimal.DecimalInjective | server/application/chat-room/redis/sds.c:483-513 | two numbers with the same print are equal |
| Decimal.PutDigits | server/application/chat-room/redis/sds.c:491-497 | the do-while loop writes the digits of the value in reverse order, at most 20 of them |
| Decimal.ReversePrefix | server/application/chat-room/redis/sds.c:505-514 | reversing the first n bytes in place, the rest of the buffer untouched |
| Decimal.Sdsll2str | server/application/chat-room/redis/sds.c:483-513 | for every value above -2^63 the buffer ends up with the canonical print and its terminator, never past 21 bytes; with ParseLLIffPrinted this makes printing and string2ll inverse to each other |
| Decimal.CountDigits | server/application/chat-room/redis/hiredis.c:205-222 | the count found four digits at a time is the length of the number as printed |
| Decimal.Sdsull2str | server/application/chat-room/redis/sds.c:519-548 | for every unsigned 64-bit value the buffer ends up with its digits and the terminator, never past 21 bytes |
| Decimal.ValueOfDigits | server/application/chat-room/redis/sds.c:491-497 | the digits printed for a number, each the remainder and then the quotient by ten, denote that number |
| Decimal.DigitsOfValue | server/application/chat-room/redis/read.c:212-241 | a digit string without a leading zero, as string2ll demands, is the print of the number it denotes |
| Decimal.DigitsExactly | server/application/chat-room/redis/sds.c:491-497 | a number has as many digits as powers of ten fit into it, and each printed byte is 48 plus the digit at its place |
| RespSpec.ParseSerialised | server/application/chat-room/redis/read.c:530-584 | for every reply tree that the protocol can carry (any nesting up to 8 arrays, status and error texts free of CR LF), parsing its wire form, whatever bytes follow, returns the tree and leaves exactly what followed |
| RespSpec.ParseAllSerialised | server/application/chat-room/redis/read.c:440-528 | the elements of an array are read back in order and in number |
| RespSpec.ParsedIsWritable | server/application/chat-room/redis/read.c:448-472 | the converse: anything ever accepted is a reply with at most 8 array levels, numbers in 64 bits and element counts in a C int, so the depth guard is exact |
| RespSpec.BulkRoundTrip | server/application/chat-room/redis/read.c:365-438 | a bulk string of any bytes, CR LF included, is read back whole |
| RespSpec.TextRoundTrip | server/application/chat-room/redis/read.c:313-363 | a status or error line free of CR LF is read back whole |
| RespSpec.HeaderRoundTrip | server/application/chat-room/redis/read.c:448-472 | an array header gives its element count below 8 open arrays |
| RespSpec.FindCRLFExtend | server/application/chat-room/redis/read.c:136-177 | more input never moves a line end that was already there |
| RespSpec.LinesOnTheWire | server/application/chat-room/redis/read.c:530-584 | 43, a line without CR LF inside, 13 and 10 are a status with that text, 45 an error, and 58 an integer exactly if the line is the print of a 64-bit number; for every line, depth and following bytes |
| RespSpec.BulkOnTheWire | server/application/chat-room/redis/read.c:365-438 | 36, a number on a line: -1 is nil, below that an error, and otherwise that many of the bytes that follow are a string and two more are skipped, or more input is awaited |
| RespSpec.ArrayOnTheWire | server/application/chat-room/redis/read.c:440-528 | 42, a number on a line: the elements that follow, nil for -1, and errors for a ninth level, a bad number and one outside -1..2147483647 |
| RespSpec.NothingElseOnTheWire | server/application/chat-room/redis/read.c:535-567 | any other first byte is an unknown type, and an unfinished line is awaited |
| RespMachine.StepOk | server/application/chat-room/redis/read.c:282-311 | every step keeps at most 8 arrays open, each with an element still missing: 0 <= child index < elements below the top of the task stack |
| RespMachine.RunOk | server/application/chat-room/redis/read.c:679-682 | the loop of redisReaderGetReply stops in such a state, and running it again there changes nothing |
| RespMachine.RunIsParse | server/application/chat-room/redis/read.c:282-584 | the iterative reader refines the recursive grammar from any task stack: its run from an item boundary fills the open slot with exactly what the grammar parses, fails with the same error, or waits when the grammar needs more bytes |
| RespMachine.TopLevelIsParse | server/application/chat-room/redis/read.c:653-705 | a fresh reader returns a reply, an error or nothing exactly as the recursive definition does, and consumes the same bytes |
| RespMachine.StepExtend | server/application/chat-room/redis/read.c:530-584 | a step that could be taken is still taken, in the same way, after any bytes are appended to the buffer |
| RespMachine.RunExtend | server/application/chat-room/redis/read.c:617-705 | a reader that stopped in the middle of nested arrays for want of input resumes as if it had had all the input from the start |
| RespMachine.DrainSplit | server/application/chat-room/redis/read.c:617-705 | draining all replies at a cut, then feeding the rest and draining again, equals feeding everything at once, errors included |
| RespMachine.SplitIndependence | server/application/chat-room/redis/read.c:617-705 | for every byte string and every way of cutting it, feeding piece by piece and draining after each piece gives the same replies, the same final error and the same remaining state as one feed |
| RespMachine.RepliesSurviveTheWire | server/application/chat-room/redis/read.c:617-705 | any list of replies written on the wire is read back exactly, with nothing left over, in whatever pieces it arrives |
| RespReader.RedisReader.constructor | server/application/chat-room/redis/read.c:586-605 | a new reader is live, empty, with an empty task stack |
| RespReader.SeekNewline | server/application/chat-room/redis/read.c:136-177 | the two nested index loops return the offset of the first CR LF, or -1 if there is none, even when bare CRs stand before it |
| RespReader.DecodeLeaf | server/application/chat-room/redis/read.c:313-438 | decoding a line or bulk item gives the reply, the error or the wait that the grammar gives, and counts its bytes |
| RespReader.DecodeHeader | server/application/chat-room/redis/read.c:448-472 | decoding an element count, with the nesting and range errors of the grammar |
| RespReader.NewLeaf | server/application/chat-room/redis/hiredis.c:103-201 | the object created for a status, error, string, integer or nil shows exactly that reply |
| RespReader.RedisReader.Attach | server/application/chat-room/redis/hiredis.c:129-135 | the new object is written into its parent's element array at the child index, and the slots filled before are kept |
| RespReader.Climb | server/application/chat-room/redis/read.c:282-311 | the loop that pops finished arrays: the task array, the objects linked so far and the machine's stack stay in step |
| RespReader.RedisReader.MoveToNextTask | server/application/chat-room/redis/read.c:282-311 | after an item is done the cursor moves to the next sibling, or up past every array that is now full; a full array becomes a finished reply that shows all its children |
| RespReader.RedisReader.Finish | server/application/chat-room/redis/read.c:355-359 | linking a finished item and moving on realises one ascent of the machine |
| RespReader.RedisReader.ProcessLeafItem | server/application/chat-room/redis/read.c:313-438 | processLineItem and processBulkItem realise the machine's step on the heap: waiting leaves the reader as it was, errors set it dead |
| RespReader.RedisReader.ProcessMultiBulkItem | server/application/chat-room/redis/read.c:440-528 | processMultiBulkItem realises the machine's step: nil and empty arrays are complete at once, others open a task above the current one |
| RespReader.RedisReader.PushTask | server/application/chat-room/redis/read.c:502-514 | opening an array: the parent slot holds the new object, the new task has index 0 of its elements and unknown type |
| RespReader.RedisReader.ReadType | server/application/chat-room/redis/read.c:535-567 | consuming the type byte, or failing on an unknown one |
| RespReader.RedisReader.ProcessItem | server/application/chat-room/redis/read.c:530-584 | processItem realises exactly one step of the machine, in-place writes included |
| RespReader.RedisReader.ProcessItems | server/application/chat-room/redis/read.c:679-682 | the loop over processItem realises the machine's run |
| RespReader.RedisReader.SetError | server/application/chat-room/redis/read.c:46-70 | an error drops the reply, the input and the task stack, and sticks |
| RespReader.RedisReader.Feed | server/application/chat-room/redis/read.c:617-651 | feeding appends to the unconsumed input and changes nothing else; a reader in error refuses |
| RespReader.RedisReader.Compact | server/application/chat-room/redis/read.c:688-695 | cutting the consumed prefix off the buffer leaves the state the reader stands for unchanged |
| RespReader.RedisReader.Conclude | server/application/chat-room/redis/read.c:688-704 | a finished reply is handed out only when the task stack is empty, otherwise nothing is |
| RespReader.RedisReader.GetReply | server/application/chat-room/redis/read.c:653-705 | redisReaderGetReply returns an object graph that shows the reply of the machine's run, or reports its error, across compaction; arrays of replies handed out are never written again |
| RespReader.SdsRange | server/application/chat-room/redis/sds.c:797-836 | sdsrange keeps the bytes from start to end inclusive for every pair of indices, negative and out-of-range ones included |
| RespReader.TakeReply | server/application/chat-room/redis/read.c:653-705 | one call hands out an object exactly when the machine has a reply, and it shows that reply |
| RespReader.DrainReader | server/application/chat-room/redis/async.c:486-500 | taking replies until none is left yields the replies of the machine's drain, in order, and all objects handed out earlier still show theirs |
| RespReader.Deliver | server/application/chat-room/redis/async.c:598-622 | one readable event: feed, then drain |
| RespReader.DeliverAll | server/application/chat-room/redis/async.c:598-622 | a run of readable events yields what the machine yields piece by piece |
| RespReader.ReadStream | server/application/chat-room/redis/read.c:617-705 | split independence on the heap: for every cut of every byte string, the object graphs handed out show exactly the replies of the joined input and the reader ends as if fed at once |
| RespReader.PopTower | server/application/chat-room/redis/read.c:284-296 | popping a finished array turns its element array from writable to sealed, and the reply it then shows is the array of all its elements |
| RespReader.NextTower | server/application/chat-room/redis/read.c:297-308 | moving to the next sibling keeps every slot below the top an array with its index below its element count |
| RespReader.PushTower | server/application/chat-room/redis/read.c:502-514 | so does opening an array, up to the ninth slot |
| RespReader.TypeCodes | server/application/chat-room/redis/hiredis.c:103-201 | an object that shows a reply has the type code of its kind, 1 to 6 for string, array, integer, nil, status and error, and the reply's own text, number or count |
| RespReader.RedisReader.LineHandedOut | server/application/chat-room/redis/read.c:653-705 | a fresh reader that is given + and a line hands out an object of type REDIS_REPLY_STATUS with that text, for - one of type REDIS_REPLY_ERROR, for : and a number one of type REDIS_REPLY_INTEGER |
| RespReader.RedisReader.CountHandedOut | server/application/chat-room/redis/read.c:653-705 | for $ and a length it hands out a string of exactly these bytes, or nil, and for * and a count an array of so many elements, or nil |
| Command.BulkLen | server/application/chat-room/redis/hiredis.c:224-227 | bulklen is the wire length of a bulk string of that many bytes |
| Command.FormatCommandArgv | server/application/chat-room/redis/hiredis.c:585-624 | the buffer holds the command's wire form and its terminator, exactly as many bytes as were computed beforehand, with no byte left over or written past |
| Command.Build | server/application/chat-room/redis/hiredis.c:448-467 | the shared second half: header and bulk strings fill the computed length to the byte |
| Command.PutAll | server/application/chat-room/redis/hiredis.c:456-465 | the loop that prints the arguments appends one bulk string per argument in order |
| Command.CommandShape | server/application/chat-room/redis/hiredis.c:585-624 | what the formatter prints is the wire form of an array of strings |
| Command.CommandRoundTrip | server/application/chat-room/redis/hiredis.c:585-624 | for every argument list, the reader fed those bytes in any pieces returns one array of strings equal to the arguments, and is empty again |
| Command.CommandInjective | server/application/chat-room/redis/hiredis.c:585-624 | two argument lists with the same wire form are equal, so no argument can pass for another or for two |
| Command.NextToken | server/application/chat-room/redis/hiredis.c:251-428 | one round of the scan recognises the next element of the format |
| Command.CollectIsExpand | server/application/chat-room/redis/hiredis.c:229-443 | scanning with an argument under construction gives one argument per space-separated word of the format, each word expanded: the split happens before the substitution, so spaces inside arguments never split and empty ones are kept |
| Command.CollectWord | server/application/chat-room/redis/hiredis.c:251-443 | the scan up to the end of a word builds exactly that word's expansion |
| Command.ScanFormat | server/application/chat-room/redis/hiredis.c:246-443 | the scan returns that argument list, and a total equal to the wire length of its bulk strings |
| Command.AppendLength | server/application/chat-room/redis/hiredis.c:257-271 | the running total after one more argument is the wire length of the arguments so far |
| Command.FormatCommand | server/application/chat-room/redis/hiredis.c:229-471 | for formats of literals, spaces, %s, %b and %%, the emitted bytes are the wire form of the expanded words and fill the computed length |
| Command.FormattedWords | server/application/chat-room/redis/hiredis.c:251-443 | on the bytes of the format: words of literal bytes, %s, %b and %%, joined by blanks, give one argument each, its literal bytes with the string up to its first NUL, all bytes of the binary argument, and one % in their places |
| Command.JoinedFormats | server/application/chat-room/redis/hiredis.c:251-280 | two formats joined by a blank give the arguments of the first and then those of the second, and each takes its own arguments |
| Command.WordsOnBytes | server/application/chat-room/redis/hiredis.c:251-428 | u is the argument u; u%sv is u, the string, v; u%bv is u, the bytes, v; u%%v is u%v, for all literal bytes u and v |
| Command.NameAndKey | server/application/job/route_service.cc:90-91 | a name and %s, as in SMEMBERS %s, are the name and the key |
| Command.PercentAtEnd | server/application/chat-room/redis/hiredis.c:253-280 | a % that ends a format stands for itself |
| SdsQuote.CatRepr | server/application/chat-room/redis/sds.c:973-1009 | sdscatrepr appends the quoted form byte by byte |
| SdsQuote.NextToken | server/application/chat-room/redis/sds.c:1101-1218 | the token loop with its inq, insq and done flags reads one token as the recursive definition does, including the unbalanced cases |
| SdsQuote.SplitArgs | server/application/chat-room/redis/sds.c:1087-1242 | sdssplitargs returns the tokens of the line, or nothing for a line with a quote that is not closed properly |
| SdsQuote.HexRoundTrip | server/application/chat-room/redis/sds.c:1013-1060 | the two hexadecimal digits of a byte denote that byte |
| SdsQuote.ReadEscape | server/application/chat-room/redis/sds.c:1110-1168 | inside quotes, the printed form of a byte is read back as that byte, whatever follows |
| SdsQuote.ReadRepr | server/application/chat-room/redis/sds.c:1106-1218 | a quoted string anywhere in a line is read back whole and the position moves just past its closing quote |
| SdsQuote.SplitJoined | server/application/chat-room/redis/sds.c:1087-1242 | quoted strings joined by single spaces are split back, from any position of a line on |
| SdsQuote.QuotingRoundTrip | server/application/chat-room/redis/sds.c:973-1242 | for every list of byte strings, empty ones, NUL, quotes, backslashes and non-printable bytes included, splitting the quoted forms joined by spaces returns the list, and the joined line holds no NUL |
| SdsQuote.EscapeExactly | server/application/chat-room/redis/sds.c:978-1003 | how each of the 256 bytes is printed between double quotes, byte for byte |
| SdsQuote.ReprExactly | server/application/chat-room/redis/sds.c:973-1009 | a printed string is byte 34, its bytes printed one by one, and byte 34 |
| SdsQuote.EscapesRead | server/application/chat-room/redis/sds.c:1110-1151 | what a backslash inside double quotes does: two hexadecimal digits of either case behind \x are one byte, n r t b a are 10 13 9 8 7, and any other byte stands for itself |
| SdsQuote.SplitsLine | server/application/chat-room/redis/sds.c:1087-1242 | any line of arguments, plain ones, ones in double quotes and ones in single quotes, with or without plain bytes in front, and blanks around them, is split into exactly what the arguments denote |
| SdsQuote.BadLine | server/application/chat-room/redis/sds.c:1152-1190 | one quote that is not closed, or closed in front of something other than a blank, spoils the line, whatever arguments stand before it |
| Dict.NextPower | server/application/chat-room/redis/dict.c:337-349 | for every unsigned long: the least power of two that is at least 4 and at least the request, and LONG_MAX from there on |
| Dict.Bucket | server/application/chat-room/redis/dict.c:354-373 | hash & sizemask is an index of the table |
| Dict.Dict.constructor | server/application/chat-room/redis/dict.c:66-89 | a new table is the empty map with no buckets |
| Dict.Dict.Find | server/application/chat-room/redis/dict.c:261-277 | walking the chain finds an entry if and only if the key is in the map, and it holds the key's value |
| Dict.Dict.KeyIndex | server/application/chat-room/redis/dict.c:354-373 | -1 for a key that is present, else the bucket where it belongs |
| Dict.Dict.Expand | server/application/chat-room/redis/dict.c:92-140 | rehashing refuses a size below used, and otherwise relinks every entry into a larger power-of-two table without losing, duplicating or changing a pair |
| Dict.MoveChain | server/application/chat-room/redis/dict.c:118-132 | the inner loop moves one chain, entry by entry, to the fronts of new chains |
| Dict.MoveAll | server/application/chat-room/redis/dict.c:110-134 | the outer loop empties the old table: at its end nothing is left to move, as the source asserts |
| Dict.Rebuild | server/application/chat-room/redis/dict.c:92-140 | the new bucket array is a well-formed table of the same map |
| Dict.MoveEntry | server/application/chat-room/redis/dict.c:124-131 | relinking one entry keeps all others where they are and puts it in the bucket of its hash |
| Dict.Dict.ExpandIfNeeded | server/application/chat-room/redis/dict.c:325-334 | a table without buckets gets 4 and a full one twice as many as it has, any other is left as it is, and the map is unchanged |
| Dict.Dict.Insert | server/application/chat-room/redis/dict.c:152-162 | linking a new entry at the front of its chain adds exactly that pair |
| Dict.Dict.Add | server/application/chat-room/redis/dict.c:143-163 | a pair is added if and only if the key was absent; otherwise nothing changes |
| Dict.Dict.Replace | server/application/chat-room/redis/dict.c:169-189 | the key has the new value afterwards, and the answer says whether it was new |
| Dict.Dict.SetVal | server/application/chat-room/redis/dict.c:177-188 | overwriting one entry's value changes the map at its key only |
| Dict.Dict.Search | server/application/chat-room/redis/dict.c:197-222 | the search of dictDelete finds the entry and its predecessor in the chain |
| Dict.Unlink | server/application/chat-room/redis/dict.c:207-211 | unlinking leaves every other chain, link and value as it was |
| Dict.Dict.Delete | server/application/chat-room/redis/dict.c:192-223 | the key is gone, every other pair is kept, and only one chain lost one entry |
| Dict.Inserted | server/application/chat-room/redis/dict.c:153-161 | a table stays well-formed with a new entry at the front of its own bucket's chain |
| Dict.Removed | server/application/chat-room/redis/dict.c:192-223 | and with an entry taken out of its chain: used still equals the total chain length |
| Dict.MovedAll | server/application/chat-room/redis/dict.c:110-138 | when every entry has been moved the new chains hold the same map, each key once and in its bucket |
| Dict.FlattenIsMap | server/application/chat-room/redis/dict.c:290-315 | the entries along all chains are the pairs of the map, each key exactly once |
| Dict.DeletedCurrent | server/application/chat-room/redis/dict.c:302-311 | deleting the entry just returned leaves the entries still to come unchanged, because the iterator keeps its successor |
| Dict.Iterator.DeleteReturned | server/application/chat-room/redis/dict.c:302-311 | dictDelete of the entry that dictNext just returned, on the heap: the iterator stays valid and returns the same entries as without it |
| Dict.DeleteAll | server/application/chat-room/redis/dict.c:279-315 | returning and deleting entry after entry gives each pair exactly once and leaves the empty map |
| Dict.Iterator.constructor | server/application/chat-room/redis/dict.c:279-288 | a new iterator has every entry still to return |
| Dict.Iterator.Next | server/application/chat-room/redis/dict.c:290-315 | each call returns the next entry still to come, and null when none is left |
| Dict.Entries | server/application/chat-room/redis/dict.c:279-315 | a full walk returns every pair of the table exactly once, used of them |
| Dict.Perform | server/application/chat-room/redis/dict.c:143-277 | each operation answers and changes the table as the finite-map operation does |
| Dict.Run | server/application/chat-room/redis/dict.c:92-373 | for every hash function and every sequence of add, replace, delete and find, through every rehash, a table answers as a finite map does and stays well-formed, with as many buckets as NeverOverfull speaks of |
| Dict.BucketExactly | server/application/chat-room/redis/dict.c:354-373 | with a power of two as size, the mask takes the remainder of the hash |
| Dict.NeverOverfull | server/application/chat-room/redis/dict.c:324-334 | after any sequence of operations there are at most as many entries as buckets, and the size is a power of two, at most 4 or less than twice the number of operations |
| AsyncContext.CallbackList.Push | server/application/chat-room/redis/async.c:259-281 | the callback joins the end of the queue |
| AsyncContext.CallbackList.Shift | server/application/chat-room/redis/async.c:283-299 | the first callback leaves the queue, the others stay in order; an empty queue gives nothing |
| AsyncContext.AsyncContext.constructor | server/application/chat-room/redis/async.c:125-161 | a new context has accepted nothing and refuses nothing |
| AsyncContext.AsyncContext.AsyncCommand | server/application/chat-room/redis/async.c:678-769 | a command is accepted if and only if the context is neither disconnecting nor freeing; its callback then joins the queue, its bytes the output buffer, and nothing else changes |
| AsyncContext.AsyncContext.ShiftFor | server/application/chat-room/redis/async.c:509-511 | the first pending callback leaves the queue, matched with the reply just read |
| AsyncContext.AsyncContext.RunCallback | server/application/chat-room/redis/async.c:301-310 | a callback that is not NULL is called once, does exactly what its own entry of the script says, and the flag that it runs is lowered again |
| AsyncContext.AsyncContext.InCallback | server/application/chat-room/redis/async.c:301-310 | the operations of a callback take effect one after the other: commands join the queue unless refused, disconnect and free only raise their flags |
| AsyncContext.AsyncContext.Flush | server/application/chat-room/redis/async.c:320-322 | the drain of a teardown ends, because a context being torn down accepts nothing, and serves every remaining callback with NULL |
| AsyncContext.AsyncContext.FreeNow | server/application/chat-room/redis/async.c:313-360 | the drain, then the disconnect callback with its status, then the end |
| AsyncContext.AsyncContext.AsyncFree | server/application/chat-room/redis/async.c:366-372 | freeing inside a callback only raises the flag; outside it is complete on return |
| AsyncContext.AsyncContext.DisconnectNow | server/application/chat-room/redis/async.c:375-398 | a disconnect without an error happens only with an empty queue, so the assertion of the source never fails; one with an error refuses further commands and then drains |
| AsyncContext.AsyncContext.AsyncDisconnect | server/application/chat-room/redis/async.c:406-412 | no further commands; the end comes at once only outside callbacks and with nothing pending |
| AsyncContext.AsyncContext.HandleReply | server/application/chat-room/redis/async.c:486-562 | one reply: the first pending callback gets it, a free asked for by that callback is carried out then, and an error that finds nobody waiting ends the connection |
| AsyncContext.AsyncContext.ProcessCallbacks | server/application/chat-room/redis/async.c:479-567 | the loop over the readable replies, and what follows when there are no more |
| AsyncContext.Handle | server/application/chat-room/redis/async.c:366-654 | one event changes the context as the state machine says |
| AsyncContext.Run | server/application/chat-room/redis/async.c:259-769 | for every sequence of events and whatever the callbacks do, the context on the heap ends in the state that the state machine computes from the events and the script, history included |
| AsyncSpec.ExactlyOnceInOrder | server/application/chat-room/redis/async.c:259-769 | in that state each accepted command's callback has been called exactly once or is still pending, in the order of acceptance: the n-th with the n-th reply, and those left at a teardown with NULL; while the context lives every callback that left the queue had its reply; the disconnect callback was told once, and rightly |
| AsyncSpec.ReadableKeeps | server/application/chat-room/redis/async.c:479-567 | a readable event hands out exactly the replies that arrived, from the first on, and all of them unless the context is gone |
| AsyncSpec.CommandAccepted | server/application/chat-room/redis/async.c:678-769 | a command event adds exactly its callback to the queue and to the accepted ones when the context does not refuse, and nothing otherwise |
| AsyncSpec.InsideAccepts | server/application/chat-room/redis/async.c:678-769 | of what a callback does, exactly the commands before its first disconnect or free are accepted, in order, and none if the context was refusing already; the flags are raised exactly if asked for |
| AsyncSpec.ServeAccepts | server/application/chat-room/redis/async.c:301-310 | calling a pending callback takes it from the queue and adds what its own entry of the script offers |
| AsyncSpec.ServeKeeps | server/application/chat-room/redis/async.c:301-310 | one callback leaves the queue, and the accounts of accepted, called and answered commands stay balanced |
| AsyncSpec.DrainKeeps | server/application/chat-room/redis/async.c:320-322 | the drain leaves nothing pending and keeps the accounts |
| AsyncSpec.FreeKeeps | server/application/chat-room/redis/async.c:313-360 | a teardown leaves nothing pending and tells the disconnect callback once |
| AsyncSpec.RepliesKeep | server/application/chat-room/redis/async.c:486-562 | replies are used one by one, in order, until they end or the context is gone |
| AsyncSpec.ReplayKeeps | server/application/chat-room/redis/async.c:259-769 | every reachable context is idle between events or gone with nothing pending |
| AsyncSpec.CleanDisconnect | server/application/chat-room/redis/async.c:486-496 | a disconnect that was asked for ends cleanly: once all commands are written and answered, every callback has had its own reply and the disconnect callback is told that nothing went wrong |
| AsyncSpec.CalledCallbacks | server/application/chat-room/redis/async.c:301-310 | leaving out NULL callbacks commutes with looking at callbacks only |
| AsyncSpec.CalledExactly | server/application/chat-room/redis/async.c:301-310 | the callbacks called are those that are not NULL, each where it stands among those that left the queue |
| AsyncSpec.InsideWrites | server/application/chat-room/redis/async.c:678-769 | the commands of a callback that are accepted, and no others, leave their bytes to be written |
| AsyncSpec.WrittenExactly | server/application/chat-room/redis/async.c:624-654 | bytes that are written leave the output buffer and change nothing else; an error of the connection ends the context with that error |
| AsyncSpec.AskedOutside | server/application/chat-room/redis/async.c:366-412 | a disconnect from outside ends the context at once, without an error, exactly if nothing is pending, and a free always ends it |
| AsyncSpec.UnaskedReply | server/application/chat-room/redis/async.c:515-537 | an error reply that nobody waits for ends the context with REDIS_ERR_OTHER, and is given to no callback |
| AsyncSpec.WritesAddUp | server/application/chat-room/redis/async.c:624-654 | however the bytes are written, what is left is what there was less their sum |
| AsyncSpec.AskedDisconnectEnds | server/application/chat-room/redis/async.c:486-496 | a disconnect that was asked for ends when the answers to all pending commands have come exactly if as many bytes were written as there were to write, and then cleanly |
| Md5.MD5.constructor | server/application/chat-room/base/md5.cc:70-113 | a new object has absorbed the empty message |
| Md5.CountAdds | server/application/chat-room/base/md5.cc:157-161 | the two-word bit count with its carry is 8 times the length modulo 2^64 after every update |
| Md5.AbsorbAppend | server/application/chat-room/base/md5.cc:163-182 | absorbing complete blocks in two parts is absorbing them in one |
| Md5.MD5.Blocks | server/application/chat-room/base/md5.cc:163-178 | the block loop transforms the completed buffer, then every complete block of the input, and stops at the tail |
| Md5.MD5.CopyIn | server/application/chat-room/base/md5.cc:168 | the memcpy into the buffer |
| Md5.MD5.Count | server/application/chat-room/base/md5.cc:157-161 | the count update with its carry |
| Md5.MD5.Update | server/application/chat-room/base/md5.cc:148-182 | after any update the state is the fold of the block function over the complete blocks of the whole message so far, the buffer holds its tail, and the count is exact |
| Md5.MD5.Pad | server/application/chat-room/base/md5.cc:198-207 | padding and length bring the message to its padded form of sections 3.1 and 3.2 of RFC 1321 |
| Md5.MD5.Final | server/application/chat-room/base/md5.cc:187-215 | the digest is the one-shot definition on everything absorbed; state and count are restored, but of the buffer the last bytes may be lost |
| Md5.MD5.Digest | server/application/chat-room/base/md5.cc:93-100 | the same for digest, which computes anew on every call since update clears the flag it sets |
| Md5.DigestKeepsMessage | server/application/chat-room/base/md5.cc:187-215 | exactly when a digest leaves the absorbed message intact: when the padding fits the last block, or the bytes it leaves happen to be the same |
| Md5.HashPieces | server/application/chat-room/base/md5.cc:148-215 | for every message and every cut into updates, the first digest is sections 3.1 to 3.5 of RFC 1321 on the whole message |
| Md5.UpdateAll | server/application/chat-room/base/md5.cc:148-182 | a run of updates absorbs the concatenation |
| Md5.PaddingLength | server/application/chat-room/base/md5.cc:201-204 | the two cases of the padding length are one formula, and it brings the message to 56 modulo 64 |
| Md5.PaddedExactly | server/application/chat-room/base/md5.cc:198-207 | a byte string is the padded message exactly if it is whole blocks: the message, byte 0x80, zeros, and the length in bits as 64 bits, low-order byte first, within 72 bytes |
| Md5.DigestExactly | server/application/chat-room/base/md5.cc:102-215 | the 16 bytes of the digest: the words left after absorbing that padded message from 67452301, efcdab89, 98badcfe and 10325476, each with its low-order byte first |
| Md5.AbsorbExactly | server/application/chat-room/base/md5.cc:163-182 | blocks are absorbed one after the other |
| WebSocket.BuildFrame | server/application/chat-room/service/websocket_conn.cc:152-182 | the frame is FIN and the low four opcode bits, the length field, and the payload |
| WebSocket.ParseLength | server/application/chat-room/service/websocket_conn.cc:93-116 | the announced length and the offset behind its 0, 2 or 8 further bytes |
| WebSocket.ParseFrame | server/application/chat-room/service/websocket_conn.cc:88-135 | every field of the frame, with the payload unmasked, as ParseExactly says bit by bit |
| WebSocket.Unmask | server/application/chat-room/service/websocket_conn.cc:128-133 | the in-place loop XORs byte i with key byte i mod 4 |
| WebSocket.LengthFieldRoundTrip | server/application/chat-room/service/websocket_conn.cc:163-179 | the 7-, 16- and 64-bit length forms are read back as the length they were built for, and the form chosen is the shortest (section 5.2 of RFC 6455) |
| WebSocket.BigEndianRoundTrip | server/application/chat-room/service/websocket_conn.cc:171-178 | most significant byte first, written and read back |
| WebSocket.ServerRoundTrip | server/application/chat-room/service/websocket_conn.cc:88-182 | for every payload and opcode, parsing a built frame gives FIN, opcode & 15, the length and the payload |
| WebSocket.ClientRoundTrip | server/application/chat-room/service/websocket_conn.cc:118-134 | for every key, parsing a single masked frame recovers the payload (section 5.3 of RFC 6455) |
| WebSocket.MaskedTwice | server/application/chat-room/service/websocket_conn.cc:128-133 | masking twice with one key changes nothing |
| WebSocket.XorUndone | server/application/chat-room/service/websocket_conn.cc:131 | so for each byte, bit by bit |
| WebSocket.XorExactly | server/application/chat-room/service/websocket_conn.cc:131 | each bit of the exclusive or is set exactly if the bits of the two bytes differ |
| WebSocket.ParseExactly | server/application/chat-room/service/websocket_conn.cc:88-135 | what the bytes of any frame say, with the masked bytes as they are given: flags and opcode by bits, the length in 7, 16 or 64 bits, the key, and a payload whose every bit is that of the masked byte, flipped exactly where key byte i mod 4 has a bit set |
| WebSocket.BuildExactly | server/application/chat-room/service/websocket_conn.cc:152-182 | the bytes of the frame that is sent: 128 plus the opcode modulo 16, then the length, or 126 and two bytes, or 127 and eight, the most significant first, then the payload |
| JobProgram.RouteService.CheckConnection | server/application/job/route_service.cc:65-80 | the connection is up afterwards if and only if true is returned |
| JobProgram.RouteService.SetNx | server/application/job/route_service.cc:262-278 | SET NX EX with key and value as C strings: it takes effect only if it is carried out and the key is not live, and the caller hears OK only then |
| JobProgram.RouteService.AcquireLock | server/application/job/route_service.cc:256-282 | true only when the caller's value was stored just now and the answer says so |
| JobProgram.RouteService.ReleaseLock | server/application/job/route_service.cc:284-311 | the lock is deleted only if it is live with the caller's own value, and only after both looks at the connection; the script gets the whole key |
| JobProgram.RouteService.CheckAndMarkMessageProcessed | server/application/job/route_service.cc:315-345 | true only for a message whose mark was set just now; without an answer, or after an error, the message is not let through |
| JobProgram.RouteService.IsRoomInCooldown | server/application/job/route_service.cc:347-377 | false when the mark was set, and also whenever Redis is not heard; true after an error |
| JobProgram.RouteService.GetRoomConnections | server/application/job/route_service.cc:82-111 | the strings of the reply, each up to its first NUL byte; nothing if Redis is not heard, and no connections after an error |
| JobProgram.RouteService.GetConnectionInfoBatch | server/application/job/route_service.cc:136-183 | the connections whose hash reply names a Comet, in order, each with the fields of its own reply |
| JobProgram.RouteService.GroupConnectionsByComet | server/application/job/route_service.cc:185-209 | every connection found is in the group of its address and in no other, in order |
| JobRouting.ReadInfo | server/application/job/route_service.cc:154-172 | the walk over the pairs of a hash reply: the last pair with a name wins, and a last element without a value is not looked at |
| JobRouting.ReadInfos | server/application/job/route_service.cc:144-180 | the loop over the connections keeps those that are answered with a Comet address |
| JobRouting.InfosExactly | server/application/job/route_service.cc:136-183 | a record is among the result exactly if its connection was asked for and answered, the record holds the fields of that answer, and it names a Comet |
| JobRouting.ReadMembers | server/application/job/route_service.cc:98-103 | the loop over the elements of a reply keeps the strings |
| JobRouting.GroupConnections | server/application/job/route_service.cc:200-203 | the grouping loop puts each connection into the group of its address and into no other |
| JobRouting.Broadcast | server/application/job/main.cc:186-206 | the sent and failed counters add up to the number of grouped connections, and sent counts those whose Comet accepted |
| JobRouting.CountAll | server/application/job/main.cc:186-206 | if all addresses accept, every connection is counted |
| JobRouting.MembersExactly | server/application/job/route_service.cc:98-103 | if all elements are strings, element i gives member i, up to its first NUL byte; in general an element is kept where it stands if it is a string and skipped if not |
| JobRouting.FieldExactly | server/application/job/route_service.cc:158-172 | a field has the value of the last pair with its name, and is empty if there is none |
| JobRouting.InfoExactly | server/application/job/route_service.cc:155-172 | the address is read under comet_id, the user under user_id, the room under room_id, byte for byte |
| JobRouting.FoundExactly | server/application/job/route_service.cc:136-183 | as many connections are found as members of the room name a Comet in their answered hash, and as many count at some addresses as name one of these |
| JobRouting.AtExactly | server/application/job/route_service.cc:200-203 | the group of an address holds its connections in order, and no others |
| JobProgram.Job.TakeTurn | server/application/job/main.cc:127-215 | one turn of a consumer is one step of the protocol |
| JobProgram.Job.Deduplicate | server/application/job/main.cc:131-142 | step 1, with the mark it sets and the visit it records |
| JobProgram.Job.CoolDown | server/application/job/main.cc:144-149 | step 2 |
| JobProgram.Job.Lock | server/application/job/main.cc:151-159 | step 3 |
| JobProgram.Job.Serve | server/application/job/main.cc:164-210 | step 4: look up, group, broadcast, and count; whatever happens, the release comes next |
| JobProgram.Job.Release | server/application/job/main.cc:212-214 | step 5 |
| JobProgram.RunJob | server/application/job/main.cc:104-222 | the program under any schedule of any number of consumers follows the protocol, so all the laws below hold of it |
| JobKeys.KeysSeen | server/application/job/route_service.cc:320-325 | what Redis sees of each key: the room name up to its first NUL byte, and behind such a byte nothing |
| JobKeys.LockValueInjective | server/application/job/main.cc:153 | a lock value names its consumer and its second |
| JobKeys.LockValueWhole | server/application/job/route_service.cc:264-265 | and is not cut when it is passed as a C string |
| JobKeys.SameMark | server/application/job/main.cc:131-133 | exactly when two visits set the same deduplication mark: without NUL bytes in the room names only for the same room, second and consumer; a NUL byte hides all that follows it |
| JobKeys.DedupKeyCollides | server/application/job/route_service.cc:315-325 | exactly when two messages with any ids share a deduplication key: rooms that agree up to a NUL byte, or a room name that continues another after a colon |
| JobKeys.RoomsShareGates | server/application/job/route_service.cc:264-357 | rooms share their lock, and their cooldown, exactly when they agree up to the first NUL byte |
| JobKeys.ReleaseFindsLock | server/application/job/route_service.cc:264-306 | the key under which a lock is set is the one that the release script gets exactly when the room name holds no NUL byte |
| JobKeys.KeysExactly | server/application/job/main.cc:133-153 | the keys of lock, cooldown and mark and the value of a lock, byte for byte, for rooms without NUL bytes |
| JobProtocol.AttemptEffect | server/application/job/route_service.cc:262-265 | a SET NX takes effect exactly if it is carried out and its key is not live, and then changes its own key only |
| JobProtocol.RunKeeps | server/application/job/main.cc:127-215 | in every reachable state every stored lock carries its writer's own value, every holder is accounted for, every live mark was set by some visit, and marks of one gate are spaced |
| JobProtocol.LocksLeaveByOwner | server/application/job/route_service.cc:284-311 | in every run, with commands lost or refused, replies lost and leases expired, a live lock is removed only by the release of the consumer that set it |
| JobProtocol.MutualExclusion | server/application/job/main.cc:151-214 | two consumers are between acquire and release of one room only if one of them has outlived its 5 seconds |
| JobProtocol.JoinsIffOverstayed | server/application/job/route_service.cc:256-282 | exactly when a consumer joins another that holds the lock: its command is answered and no lock is live; and no lock is live only if the other has outlived its 5 seconds |
| JobProtocol.FreedIffWhole | server/application/job/route_service.cc:284-311 | a release that is carried out in time frees the room exactly when its name holds no NUL byte |
| JobProtocol.GateSpacing | server/application/job/route_service.cc:315-377 | two visits that set the mark of one gate are at least its time to live apart: a room's cooldown, or a message id's 60 seconds |
| JobProtocol.LiveIffRecent | server/application/job/route_service.cc:315-377 | in every reachable state a mark is live exactly when some visit set it within its time to live |
| JobProtocol.DedupPassesIff | server/application/job/main.cc:135-142 | exactly when an idle consumer lets a message through: Redis answers, and nobody has set the mark of this room, second and consumer within the last 60 seconds, whatever became of the message before |
| JobProtocol.CooldownPassesIff | server/application/job/main.cc:144-149 | exactly when the cooldown lets a message on: Redis is not heard, or it answers and nobody has set the room's mark within the last second |
| JobProtocol.TooCloseMeansUnheard | server/application/job/route_service.cc:347-377 | a message that passes less than a second after the mark was set passes unheard |
| JobProtocol.MarksSet | server/application/job/route_service.cc:256-362 | what a command that reaches Redis leaves there: a deduplication mark for 60000 ms, a cooldown mark for 1000, a lock for 5000, unless the key is live |
| JobLaws.CooldownWindow | server/application/job/route_service.cc:347-377 | any window of n seconds holds at most n visits that set a room's cooldown; BroadcastWindow says what follows for broadcasts |
| JobLaws.WithinSpread | server/application/job/route_service.cc:347-377 | the visits within a window are spread by the time to live |
| JobLaws.OncePerSecond | server/application/job/main.cc:131-142 | with agreeing clocks no room, second and consumer passes deduplication twice, so distinct messages that one consumer takes for a room within a second are dropped as duplicates |
| JobLaws.PassedTwice | server/application/job/main.cc:131-142 | one message that passes twice within 60 seconds is taken by another consumer or in another second |
| JobLaws.RedeliveredPasses | server/application/job/main.cc:131-142 | and that does happen: a run with agreeing clocks in which a redelivered message passes twice within the minute |
| JobLaws.OverstayedLock | server/application/job/main.cc:155-156 | a run with agreeing clocks in which a late holder is joined by another |
| JobLaws.UnansweredCooldown | server/application/job/route_service.cc:347-362 | a run with agreeing clocks in which a Redis that is not heard lets two messages of a room through at the same instant |
| JobLaws.RunPays | server/application/job/main.cc:127-215 | in every run the consumers at each gate and the broadcasts made account for the passes through the gates |
| JobLaws.NoWayAround | server/application/job/main.cc:127-215 | in every run a message is broadcast at most as often as the cooldown let it on, and that at most as often as deduplication let it through |
| JobBroadcasts.RunCovered | server/application/job/main.cc:144-214 | in every run, for any window of time: what was broadcast to a room in it, and the consumers that may still broadcast, are covered by the passes through its cooldown in the window and one for each consumer |
| JobBroadcasts.BroadcastWindow | server/application/job/main.cc:144-149 | what the cooldown really limits: a window of n seconds holds at most as many broadcasts of a room as n, the number of consumers, and the passes for which Redis was not heard |
| JobBroadcasts.RunLinks | server/application/job/main.cc:144-214 | in every run each consumer behind the cooldown last passed it with the message it carries, and has not broadcast since |
| JobBroadcasts.OwnPass | server/application/job/main.cc:144-214 | every broadcast had a pass through its room's cooldown, by the same consumer with the same message, and no two had the same |
| JobBroadcasts.BroadcastsApart | server/application/job/main.cc:144-149 | two broadcasts of a room whose passes set the mark are a second apart, but for the delay of the first behind the gate |
| JobBroadcasts.CloseIff | server/application/job/main.cc:144-149 | exactly when two such broadcasts are less than a second apart, by their delays and the time between their passes |
| JobBroadcasts.PromptMeansApart | server/application/job/main.cc:144-149 | if nobody takes longer than some delay from the cooldown to the broadcast, the broadcasts of a room are a second less that delay apart |
| JobBroadcasts.TwoBroadcasts | server/application/job/main.cc:144-149 | and no more: a run with agreeing clocks in which Redis is heard throughout and one consumer broadcasts to a room twice within a second, after any delay up to a second even at the same instant |
| JobBroadcasts.KeepsApartIff | server/application/job/main.cc:144-149 | so for every delay and every gap: broadcasts of a room keep that gap in all runs with such delays exactly if gap and delay together are at most a second |
| JobBroadcasts.OncePerCooldownIff | server/application/job/main.cc:144-149 | the promise of one broadcast a second holds exactly if nobody waits between the cooldown and the broadcast |
| JobBroadcasts.ServedExactly | server/application/job/main.cc:158-207 | a room is broadcast to exactly if Redis can be reached for all the lookups, SMEMBERS is answered with an array and some member names a Comet; each such member is counted once, as sent if its Comet accepts requests and as failed otherwise |
| JobBroadcasts.ReportsCount | server/application/job/main.cc:158-214 | in every run every report comes from a turn of its consumer, and its sent and failed together are the members of the room whose answered hash names a Comet |
| ConnPool.CDBPool.constructor | server/application/chat-room/mysql/db_pool.cc:341-352 | a pool starts with its minimum as current count and nothing lent |
| ConnPool.CDBPool.Init | server/application/chat-room/mysql/db_pool.cc:369-385 | the free list holds the minimum number of connections, all different |
| ConnPool.CDBPool.GetDBConn | server/application/chat-room/mysql/db_pool.cc:395-453 | the first critical section: hand out, open one more below the maximum, or sleep |
| ConnPool.CDBPool.PopFront | server/application/chat-room/mysql/db_pool.cc:449-452 | the first free connection is handed out |
| ConnPool.CDBPool.Awake | server/application/chat-room/mysql/db_pool.cc:408-426 | a woken or timed-out caller looks at the free list again: it gets a connection, gives up, or sleeps on |
| ConnPool.CDBPool.RelDBConn | server/application/chat-room/mysql/db_pool.cc:455-473 | a returned connection goes to the end of the free list unless it is there already, and one sleeper is notified |
| ConnPool.RunPool | server/application/chat-room/redis/cache_pool.cc:983-1081 | both pools under any legal schedule follow the state machine below |
| ConnPool.RunKeeps | server/application/chat-room/mysql/db_pool.cc:395-473 | in every run of borrowers that return only what they hold: count = free + lent, no connection twice, free and lent disjoint, count at most the larger of maximum and minimum, and while anyone sleeps un-notified the free connections are at most the notified callers yet to run |
| ConnPool.NeverLentTwice | server/application/chat-room/mysql/db_pool.cc:395-453 | a connection handed out was lent to nobody, and afterwards is |
| ConnPool.SleepersMeanAllLent | server/application/chat-room/redis/cache_pool.cc:1001-1081 | no lost wake-up: once all notified callers have run, anyone still asleep means that every connection is out |
| ConnPool.ReleaseIffHeld | server/application/chat-room/mysql/db_pool.cc:455-473 | exactly when a return keeps the pool sound: the connection was lent or is already free |
| ConnPool.EnterExactly | server/application/chat-room/mysql/db_pool.cc:395-453 | a caller gets a connection exactly if one is free, the first of them, or a new one can be opened below the maximum; it sleeps exactly if the pool is at its maximum |
| ConnPool.ResumeExactly | server/application/chat-room/mysql/db_pool.cc:408-426 | a caller that slept gets the first free connection; without one it leaves exactly if its time is up |
| ConnPool.FirstInFirstOut | server/application/chat-room/mysql/db_pool.cc:395-473 | in every run connections are handed out in the order in which they became free: first those of the start, then those that came back or were opened |
| HttpParser.AgainDescends | server/application/chat-room/service/http_parser.cc:683-2066 | executing a byte again always lowers a rank on states, so the chain of re-executions of a byte ends, from any fields |
| HttpParser.ParseSplit | server/application/chat-room/service/http_parser.cc:605-2098 | executing two strings one after the other is executing their concatenation |
| HttpParser.ParseOk | server/application/chat-room/service/http_parser.cc:605-2098 | while parsing goes on no error is set |
| HttpInvariant.InitReady | server/application/chat-room/service/http_parser.cc:2153-2161 | a parser just initialised is ready |
| HttpInvariant.RedirectFits | server/application/chat-room/service/http_parser.cc:1061-1136 | whichever method takes over, its string is at least as long as the letters read so far |
| HttpInvariant.MethodKeeps | server/application/chat-room/service/http_parser.cc:1003-1136 | the method matcher index never leaves the method string |
| HttpInvariant.UrlKeeps | server/application/chat-room/service/http_parser.cc:1139-1214 | the url states keep the invariant |
| HttpInvariant.MatchNameKeeps | server/application/chat-room/service/http_parser.cc:1410-1522 | the header name matcher, with its 8-bit index, never reads past the name it is matching, so its fall-through assertion never fails |
| HttpInvariant.MatchTextKeeps | server/application/chat-room/service/http_parser.cc:1688-1725 | nor does the matcher of header values |
| HttpInvariant.FieldKeeps | server/application/chat-room/service/http_parser.cc:1404-1548 | the name states keep the invariant |
| HttpInvariant.ValueKeeps | server/application/chat-room/service/http_parser.cc:1631-1739 | the value states keep it, and the content length stays below 2^64 |
| HttpInvariant.HeaderEndKeeps | server/application/chat-room/service/http_parser.cc:1742-1885 | the end of the headers reaches a body state only with the length or the chunked flag that state asserts |
| HttpInvariant.ChunkKeeps | server/application/chat-room/service/http_parser.cc:1935-2060 | chunk states are reached only with the chunked flag, one byte counted at a chunk start, and a length above 0 in the data |
| HttpInvariant.SwitchKeeps | server/application/chat-room/service/http_parser.cc:683-2066 | no pass of the switch, from any state the invariant allows and for any byte, fails an assertion |
| HttpInvariant.ByteKeeps | server/application/chat-room/service/http_parser.cc:668-2067 | from every reachable parser every byte is executed, through all re-executions, to a reachable parser or to an error |
| HttpInvariant.ParseKeeps | server/application/chat-room/service/http_parser.cc:605-2098 | whatever is sent, a parser ends ready or with an error set; no assertion fails |
| HttpInvariant.StopsExactly | server/application/chat-room/service/http_parser.cc:1766-1842 | exactly when a byte makes the parser leave for another protocol: it is the line feed that ends the headers of a request with an Upgrade header or the method CONNECT |
| HttpInvariant.StoppedIsAsked | server/application/chat-room/service/http_parser.cc:605-2098 | so every input without those is parsed to its end or to an error |
| HttpExecute.AtMostOneMark | server/application/chat-room/service/http_parser.cc:2079-2082 | at most one mark is set at the end of the input |
| HttpExecute.SwitchFollows | server/application/chat-room/service/http_parser.cc:683-2066 | marks follow states: each pass sets a mark when it enters the states of a datum and clears it when it leaves them |
| HttpExecute.PassSums | server/application/chat-room/service/http_parser.cc:87-128 | for each pass, what the callbacks were told plus what the marks still hold is what the byte semantics says |
| HttpExecute.AtStart | server/application/chat-room/service/http_parser.cc:647-666 | a call that begins in the middle of a datum sets that datum's mark at its first byte, so nothing is lost between calls |
| HttpExecute.NextCall | server/application/chat-room/service/http_parser.cc:605-2098 | after one more call, what was told is what one call on the joined input tells |
| HttpExecute.BodyBytes | server/application/chat-room/service/http_parser.cc:1887-1922 | reading a body in one stretch, as the code does, is reading it byte by byte |
| HttpExecute.Parser.constructor | server/application/chat-room/service/http_parser.cc:2153-2161 | a new parser has been told nothing |
| HttpExecute.Parser.CallbackData | server/application/chat-room/service/http_parser.cc:87-118 | a data callback gets the bytes from its mark to the position |
| HttpExecute.Parser.OnePass | server/application/chat-room/service/http_parser.cc:683-2066 | one execution of the switch, with its marks and callbacks |
| HttpExecute.Parser.Reexecute | server/application/chat-room/service/http_parser.cc:683-2066 | all executions for one byte |
| HttpExecute.Parser.TakeBody | server/application/chat-room/service/http_parser.cc:1887-1910 | the bytes that are there, at most those still expected, are marked and counted off |
| HttpExecute.Parser.ReadBody | server/application/chat-room/service/http_parser.cc:1887-2045 | body states consume a stretch and complete the message or chunk when nothing is left |
| HttpExecute.Parser.OneByte | server/application/chat-room/service/http_parser.cc:668-2067 | the header size limit, then the byte |
| HttpExecute.Parser.Round | server/application/chat-room/service/http_parser.cc:668-2067 | one round of the loop keeps: told plus pending equals the byte semantics of the input so far |
| HttpExecute.Parser.Execute | server/application/chat-room/service/http_parser.cc:605-2098 | http_parser_execute ends with the fields of the byte semantics; unless it fails the callbacks were told exactly its data and notifications, and the count returned is the position of the failing byte, or what was consumed |
| HttpExecute.Parser.LastCallbacks | server/application/chat-room/service/http_parser.cc:2084-2087 | the mark left over at the end of the input is delivered |
| HttpExecute.Parser.ExecuteEof | server/application/chat-room/service/http_parser.cc:624-645 | the end of the connection is an error unless the parser is between messages or dead |
| HttpExecute.ExecutePieces | server/application/chat-room/service/http_parser.cc:605-2098 | split independence: unless the parser leaves for another protocol, any cut of an input into non-empty calls ends in the same fields as one call, and with the same data told on every channel if no error is set |
| HttpExecute.ParseHttpContent | server/application/chat-room/service/http_parser_wrapper.cc:18-48 | the wrapper runs a fresh parser over the whole buffer once |
| HttpLength.ReadIffSteady | server/application/chat-room/service/http_parser.cc:1669-1685 | the loop over the digits of a length, in either base: it refuses exactly those numbers of which some prefix, modulo 2^64, is smaller than the prefix before it or is ULLONG_MAX, and reads the others modulo 2^64 |
| HttpLength.InRangeIsRead | server/application/chat-room/service/http_parser.cc:1677-1682 | a number below 2^64 - 1 is always read, as it is |
| HttpLength.RightIffInRange | server/application/chat-room/service/http_parser.cc:1677-1682 | and only these are read as they are |
| HttpLength.MissedIff | server/application/chat-room/service/http_parser.cc:1677-1682 | exactly when one more digit takes a length out of range without the overflow test noticing |
| HttpChunk.ReadSize | server/application/chat-room/service/http_parser.cc:1935-1991 | the size of a chunk, whatever its hexadecimal digits are, through the parser |
| HttpChunk.SizeAccepted | server/application/chat-room/service/http_parser.cc:1935-1991 | exactly when such digits are accepted, the size the parser then takes, and when that is the size announced |
| HttpChunk.MissedSize | server/application/chat-room/service/http_parser.cc:1982-1987 | 17 digits above 2^64 that pass the overflow test, and the smaller size the parser takes instead |
| HttpChunk.SizeDigits | server/application/chat-room/service/http_parser.cc:1935-1991 | the hexadecimal digits of a size are read as that size |
| HttpChunk.OneChunk | server/application/chat-room/service/http_parser.cc:1935-2060 | one chunk: exactly its bytes are told, and the parser is at the start of the next |
| HttpChunk.AllChunks | server/application/chat-room/service/http_parser.cc:1935-2060 | any number of chunks tells the concatenation of their bytes |
| HttpChunk.ZeroChunk | server/application/chat-room/service/http_parser.cc:1952-2022 | the chunk of size zero tells nothing and opens the trailer |
| HttpChunk.ReadAllChunks | server/application/chat-room/service/http_parser.cc:1935-2060 | any non-empty chunks and the zero chunk tell exactly the chunks' bytes in order |
| HttpChunk.UnhexExactly | server/application/chat-room/service/http_parser.cc:187-194 | the hexadecimal digits of either case and their values; no other byte is one |
| HttpMessage.ReadTrailer | server/application/chat-room/service/http_parser.cc:1350-1790 | the header lines of a trailer are told, and then the end of the message, once |
| HttpMessage.ChunkedRoundTrip | server/application/chat-room/service/http_parser.cc:1778-2060 | decoding inverts the chunked coding of section 3.6.1 of RFC 2616: for every list of non-empty chunks and every trailer the body callbacks get exactly the chunks' bytes in order, then the trailer's lines are told, then message_complete fires once |
| HttpMessage.ReadMethod | server/application/chat-room/service/http_parser.cc:1003-1136 | every method is recognised from its spelling, through all the switches from one candidate to another |
| HttpMessage.MethodExactly | server/application/chat-room/service/http_parser.cc:1003-1136 | and from nothing else: letters that keep the parser in the method, followed by a blank, give a method exactly if they are its spelling |
| HttpMessage.MSearchRefused | server/application/chat-room/service/http_parser.cc:1061-1136 | M-SEARCH, whose entry in the method table holds blanks, is refused at its third letter, whatever follows |
| HttpMessage.ReadUrl | server/application/chat-room/service/http_parser.cc:1139-1214 | an absolute path with query is told whole |
| HttpMessage.ReadVersion | server/application/chat-room/service/http_parser.cc:1217-1347 | the first k bytes of a version line, for every k, bring the parser to the k-th version state; after all of it the major and minor version are set |
| HttpMessage.ReadRequestLine | server/application/chat-room/service/http_parser.cc:1003-1347 | method, target and version are read from the printed request line |
| HttpMessage.ReadName | server/application/chat-room/service/http_parser.cc:1350-1548 | the name automaton: after any header name, in any case, it has recognised exactly whether the name is connection, proxy-connection, content-length, transfer-encoding or upgrade; any other name, prefixes and extensions of these included, is general |
| HttpMessage.ReadValue | server/application/chat-room/service/http_parser.cc:1551-1740 | any value, under any header: it is told whole, and afterwards the parser knows exactly whether a Transfer-Encoding was chunked, a Connection was keep-alive or close (in any case, with nothing but blanks behind), or something else; a content length is the number its digits make |
| HttpMessage.ValueMore | server/application/chat-room/service/http_parser.cc:1562-1732 | the automaton on values: one more byte takes the state of a text to the state of the longer text |
| HttpMessage.NumberPrinted | server/application/chat-room/service/http_parser.cc:1597-1686 | a content length in decimal is read as the number printed |
| HttpMessage.LengthAccepted | server/application/chat-room/service/http_parser.cc:1597-1686 | exactly which texts are accepted as a content length, and what the parser makes of them; all others end in HPE_INVALID_CONTENT_LENGTH |
| HttpMessage.MissedLength | server/application/chat-room/service/http_parser.cc:1677-1682 | 20 digits above 2^64 that pass the overflow test as another length |
| HttpMessage.ReadLines | server/application/chat-room/service/http_parser.cc:1350-1776 | any list of header lines, with any names and any values, empty ones included, whose content lengths the parser accepts: all are told in order, each name and each value by one call, and the flags and the length are set exactly as they say |
| HttpMessage.LinesAccepted | server/application/chat-room/service/http_parser.cc:1350-1776 | exactly which header lines are accepted: all but those with a content length that is refused |
| HttpMessage.ReadHeadersEnd | server/application/chat-room/service/http_parser.cc:1742-1885 | after the empty line the parser goes on as flags and length say |
| HttpMessage.ReadContent | server/application/chat-room/service/http_parser.cc:1830-2060 | the content, sized or chunked, is told byte for byte and the message completed; the connection stays open as version and flags say |
| HttpMessage.RequestRoundTrip | server/application/chat-room/service/http_parser.cc:605-2098 | a request printed in the grammar (any method but CONNECT, a path with a query, any header lines that do not ask for another protocol, sized or chunked content, any trailer) is taken apart again into exactly its url, headers, content and trailer, each notification once and in order; the parser is then ready for the next request or closed |
| HttpMessage.RequestInOneCall | server/application/chat-room/service/http_parser_wrapper.cc:18-48 | ParseHttpContent on a printed request: one call tells its url, every name and every value by exactly one callback each, in order, then its content and its end, and nothing else |
| HttpMessage.ToldApart | server/application/chat-room/service/http_parser.cc:605-2098 | what the callbacks are told of two requests is the same only if their targets and their header lines, name by name and value by value, are the same |
| HttpMessage.UpgradeRoundTrip | server/application/chat-room/service/http_parser.cc:605-2098 | a request with an Upgrade header, as in a WebSocket handshake, is taken apart up to the end of its headers, the message is complete there, and the bytes behind it are left alone |
| HttpMessage.TokenExactly | server/application/chat-room/service/http_parser.cc:153-185 | the table of name characters: exactly visible ASCII without the separators of section 2.2 of RFC 2616, with A to Z made small |
| HttpMessage.UrlCharExactly | server/application/chat-room/service/http_parser.cc:196-214 | the table of url characters: exactly visible ASCII without # and ? |
| HttpMessage.ContentLengthLine | server/application/chat-room/service/http_parser.cc:1350-1776 | the line Content-Length: n, letter for letter, is read, and the length is n; for every n below 2^64 - 1 |
| HttpMessage.FramingLines | server/application/chat-room/service/http_parser.cc:1350-1776 | the lines Transfer-Encoding: chunked, Connection: close, Connection: keep-alive and Upgrade: websocket, letter for letter, are read and set exactly their own flag |
| HttpRequestLine.NamedMethod | server/application/chat-room/service/http_parser.cc:139-144 | a request that begins with the name of a method and a blank is taken to be of that method |
| HttpRequestLine.TargetExactly | server/application/chat-room/service/http_parser.cc:435-603 | exactly which request targets are accepted: a path or * with anything visible behind it, or letters, ://, a server and anything visible behind its first / or ?, or after CONNECT such a server; they are told whole, and any other ends in HPE_INVALID_URL |
| HttpRequestLine.VersionExactly | server/application/chat-room/service/http_parser.cc:1217-1347 | exactly which versions are accepted: a major number that does not begin with 0 and a minor one, both below 1000, which are then set; any other digits end in HPE_INVALID_VERSION |
| HttpRequestLine.LfEndsVersion | server/application/chat-room/service/http_parser.cc:1300-1336 | a lone LF ends a request line as CR LF does |
| HttpRequestLine.LfEndsValue | server/application/chat-room/service/http_parser.cc:1631-1646 | a lone LF ends a header line as CR LF does |
| HttpRequestLine.LfEndsHeaders | server/application/chat-room/service/http_parser.cc:1352-1364 | a lone LF ends the headers, or a trailer, as CR LF does |
| HttpRequestLine.BetweenMessages | server/application/chat-room/service/http_parser.cc:687-698 | between messages CR and LF are skipped; a closed connection accepts nothing else, an open one expects a letter |
| HttpRequestLine.LineContinues | server/application/chat-room/service/http_parser.cc:1766-1776 | a blank or a tab at the start of a line continues the value before; any other byte begins a line |
| HttpRequestLine.ParametersIgnored | server/application/chat-room/service/http_parser.cc:1952-2003 | what follows a chunk size behind a semicolon or a blank, up to CR, changes nothing |
| HttpRequestLine.HeaderLimit | server/application/chat-room/service/http_parser.cc:672-681 | byte 81921 of a header is one too many, and nothing else is reported so |

## Left out

Stated on less than everything:

- Decimal.Sdsll2str: not for -2^63, whose negation overflows in the source.
- Command.FormatCommandArgv: commands longer than the largest C int, whose computed length would wrap.
- Command.NextToken: the printf-style conversions; formats are C strings of literals, spaces, %s, %b and %%.
- Command.FormattedWords: the same.
- Command.ScanFormat: the same.
- Command.FormatCommand: the same.
- RespSpec.ParsedIsWritable: inputs of 2^63 bytes or more.
- SdsQuote.SplitArgs: a line ends at its first NUL byte, so lines hold none.
- Dict.Run: at most 2^29 operations, so that a table has at most 2^30 buckets; beyond that the source's C int bucket index overflows.
- Md5.MD5.Update: pieces of 2^32 - 64 bytes or more, which wrap the 32-bit loop counter.
- Md5.HashPieces: the first digest only; `Md5.MD5.Digest` says exactly what later ones see.
- WebSocket.ParseFrame: input shorter than the header it announces is read past its end by the source, so a caller must supply it. Several frames, or a part of one, in one buffer: everything after the header is payload, as in the source.
- JobProtocol.MutualExclusion: among holders within their 5 seconds; `JobProtocol.JoinsIffOverstayed` says exactly when another joins.
- JobProtocol.GateSpacing: visits that set their mark; `JobProtocol.CooldownPassesIff` says exactly when a message passes without.
- JobLaws.UnansweredCooldown: for rooms whose name holds no NUL byte; in others the two messages would share their deduplication mark.
- JobLaws.RedeliveredPasses: the same, for the same reason; `JobProtocol.DedupPassesIff` covers every room.
- JobBroadcasts.TwoBroadcasts: the same; the lock of a room with such a name is never released.
- JobBroadcasts.CloseIff: passes that set the mark, as all do for which Redis is heard; `JobProtocol.CooldownPassesIff` covers the others.
- JobRouting.ReadInfo: a reply to HGETALL holds strings only, as Redis gives it; the source would read past anything else.
- JobProgram.Job.Serve: the connection is looked at before the members, the grouping and the batch; a connection lost between two lookups of one batch shows as connections without an answer.
- ConnPool.RunKeeps: borrowers return only what they hold; `ConnPool.ReleaseIffHeld` says exactly what a wrong return breaks.
- HttpExecute.ExecutePieces: calls that do not leave for another protocol; `HttpInvariant.StopsExactly` says exactly when one does. When an error is set, the datum it interrupts may be told in part, so only the fields are claimed.
- HttpMessage.ChunkedRoundTrip: chunks below 2^64 - 1 bytes.
- HttpMessage.RequestRoundTrip: targets that are paths with an optional query, so not the method CONNECT; versions of one digit each; no folded header lines, one blank after a colon. `HttpRequestLine.TargetExactly`, `HttpRequestLine.VersionExactly`, `HttpRequestLine.LineContinues` and `HttpRequestLine.LfEndsValue` cover the other forms one by one, and `HttpParser.Switch`, on which all other HTTP results rest, has every one of them.
- HttpRequestLine.TargetExactly: within the header limit, as is everything said of accepted headers; `HttpRequestLine.HeaderLimit` says exactly where that is.
- HttpRequestLine.NamedMethod: all methods but M-SEARCH; `HttpMessage.MSearchRefused` says what becomes of that.
- HttpMessage.ReadLines: the same header lines; among them `HttpMessage.LinesAccepted` is exact.
- AsyncSpec.CleanDisconnect: if no callback frees the context; one that does ends it at once, and `AsyncSpec.ExactlyOnceInOrder` covers that.

Not modelled:

- Allocation failure, the capacity of buffers (`maxbuf`, `sdsavail`) and lengths above a C int.
- HTTP responses, bodies read until the end of the connection, `http_parser_parse_url` and its host parser, callbacks that return something other than 0, pausing, and `on_message_begin`, which the wrapper does not set.
- Subscribe and monitor modes of the asynchronous client, connecting, timers and sockets. A read event is the replies it completes and perhaps an error of the connection; a write event is the number of bytes written.
- Calls made from within the disconnect callback; the context is being freed when it runs.
- The round function of MD5 (a parameter), with `decode`, which only it uses; hexadecimal output; files as input.
- Key and value duplication and destructors of the hash table, clearing and releasing it. Keys are compared for equality; the hash is any function.
- Pool abort and destruction, an `Init` that fails half-way, and what a connection is used for.
- Several Job processes that share consumer numbers; threads that share one Redis connection. Each Redis command that writes is one atomic step, which may be lost on the way, be refused with an error, lose its reply, or find no connection. A key is live while the clock is before its expiry. The lookups and requests of one broadcast are one turn.
- Kafka, gRPC, MySQL, metrics, logging, login and registration, message persistence and history, configuration, base64 and SHA-1.
