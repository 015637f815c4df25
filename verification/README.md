# Verification of the asynchronous SMTP daemon

A Dafny model of the daemon's stateful core, with proofs, for Dafny 4.11. To verify it:
`dafny verify dfyconfig.toml`.

Five parts are modelled, each in the form the C++ has: objects with mutable fields become classes,
buffers become arrays, loops stay loops. Methods are proved against specification functions on
values, and the properties of whole runs are lemmas about those functions.

1. **The growable, parsing buffer** (`Capacity`, `Delimited`, `BufferView`, `PBuffer`, `SmtpBuffers`).
   `PBuffer.ParsingBuffer` is `BuffAbstract`, `PBufferAbstract`, `SmtpCmdBuffer` and `SmtpDataBuffer` in
   one class; the virtual hook called for each completed part is a case distinction on `hook`. A third
   hook collects lines and may switch the parser off, as that of a buffer that reads a head does.
   `Delimited` defines the leftmost, non-overlapping split of a stream without any offsets that
   resume, and proves that the definition is the only one that tiles the stream. The buffer agrees
   with it for every chunking and every compaction.
2. **The DNS codec** (`BigEndian`, `DnsNames`, `DnsNameRoundTrip`, `DnsMessages`, `DnsParser`,
   `DnsRoundTrip`), sections 3.1, 3.3, 3.4.1 and 4.1 of RFC 1035. A compressed name is read by following pointers.
   Reading is specified with a step count, so the specification covers every packet on which the
   reader comes to an end inside the packet, whatever way its pointers go. The wire format with
   backward pointers is defined separately, by recursion on (start of the current run, bytes left).
3. **The event tree** (`EventTree`): creation and the re-entrant `stop` cascade over heap objects.
4. **The SMTP session** (`SmtpText`, `SmtpState`, `SmtpSession`, `SmtpExamples`) as a system of steps: a
   read completes, a send completes (in any order), message data arrives, time runs out. The session
   object owns the two parsing buffers it reads into. Theorems about runs speak of the events alone:
   which bytes they read and which sends failed.
5. **The search tree stores** (`TreeStore`) **and the tokenizers** (`Tokens`).

A byte is an integer in 0..255, the unsigned view of a C++ `char`; strings are sequences of bytes.
The powers of 256 and the 10 per cent test, which the program computes in floating point, are exact
integers here.

## Where the code does not do what it is for

- **A message that begins with the end-of-data delimiter is lost.** `SmtpDataBuffer` records the
  length of a part as if it were an offset and uses 0 for "not ready". `SmtpBuffers.MessageExtraction`
  proves that the buffer does what it promises exactly on the streams that do not begin with the
  delimiter; `SmtpBuffers.LeadingDelimiterIsMissed` shows the smallest failure.
- **Labels are not checked before a request is written.** The limit of RFC 1035 is 63 bytes. A written name reads back
  exactly when each label has 1 to 191 bytes (`DnsNameRoundTrip.NameRoundTrip`): a longer length byte
  looks like a pointer or is cut off. `create_request` rejects empty labels but not long ones
  (`DnsRoundTrip.CreatedRequestRoundTrip`); `DnsRoundTrip.LongLabelIsLost` shows one that is lost.
- **EHLO never succeeds**, because it is bound to the handler of MAIL, which looks for `mail from`
  (`SmtpState.EhloFails`).
- **MAIL and HELO do not reset a transaction** (`SmtpState.TransactionChanges`), so that of a later sender
  may have recipients given for an earlier one (`SmtpExamples.SecondSenderInherits`). All recipients came
  after the sender if and only if the sender was accepted when there were none
  (`SmtpSession.RecipientsAfterSender`).
- **An address may have more than one `@`** (`SmtpExamples.SecondAtIsAccepted`), because only its first two
  parts are looked at. An accepted address is its local part and its domain if and only if it has one
  (`SmtpText.AddressIsItsParts`).
- **A reply that could not be sent stays counted as unsent** (`SmtpExamples.FailedReplyStaysCounted`). The
  count is the number of confirmations under way and of those that failed, so it is the number under way
  if and only if none has failed (`SmtpSession.PipeliningSafety`); the session is stopping by then.
- **A child may be created under an event that has stopped**, since `create_child` has no guard. The
  invariant, by which a finished event has no children, survives if and only if the parent has not
  stopped (`EventTree.CreatedKeeps`).

## Model

| member | source | states |
|---|---|---|
| Bytes.ConcatSnoc | AsyncEvent/BufferBase/BuffAbstract.cpp:39-48 | what a buffer has received after one more chunk is what it had followed by the chunk |
| Delimited.Find | AsyncEvent/BufferBase/PBufferAbstract.cpp:21 | a delimiter that is found starts no earlier than asked and lies inside the bytes |
| Delimited.FindIsFirst | AsyncEvent/BufferBase/PBufferAbstract.cpp:21 | the position found is an occurrence with none before it; when none is found there is none |
| Delimited.FindBehind | AsyncEvent/BufferBase/PBufferAbstract.cpp:21 | behind bytes that do not begin the delimiter, also one that overlaps itself, it is found where it stands |
| Delimited.FindResume | AsyncEvent/BufferBase/PBufferAbstract.cpp:33-35 | a search may start later than the unparsed bytes if it skips no occurrence |
| Delimited.FindStable | AsyncEvent/BufferBase/PBufferAbstract.cpp:15-21 | the first delimiter of a stream stays the first when the stream grows |
| Delimited.FindShift | AsyncEvent/BufferBase/PBufferAbstract.cpp:74-79 | searching a suffix finds what searching the whole from there finds |
| Delimited.RestHasNone | AsyncEvent/BufferBase/PBufferAbstract.cpp:32-37 | nothing is left to find behind the last completed part |
| Delimited.PartsAppend | AsyncEvent/BufferBase/PBufferAbstract.cpp:19-39 | the parts of a longer stream are those of the shorter one and those found from where it left off |
| Delimited.LinesAppend | AsyncEvent/BufferBase/PBufferAbstract.cpp:12-41 | the same for the texts of the parts; what new bytes complete depends only on the unfinished rest |
| Delimited.LinesShift | AsyncEvent/BufferBase/PBufferAbstract.cpp:62-80 | dropping parsed bytes in front changes none of the pieces that follow |
| Delimited.SplitIsLeftmost | AsyncEvent/BufferBase/PBufferAbstract.hpp:24-31 | pieces with their delimiters and the rest give the stream back, each piece ends at its first delimiter, the rest has none |
| Delimited.LinesOfTerminated | AsyncEvent/BufferBase/PBufferAbstract.hpp:24-31 | pieces cut off leftmost in front of any bytes are the first pieces of the whole |
| Delimited.SplitUnique | AsyncEvent/BufferBase/PBufferAbstract.hpp:24-31 | no other cutting of the stream has those properties, for any non-empty delimiter, also one that overlaps itself |
| Capacity.CalcMem | AsyncEvent/BufferBase/BuffAbstract.cpp:120-125 | the two-spare-block policy reserves more than twice what is filled and one block, and at most one block beyond that |
| Capacity.CalcMemIsBlocks | AsyncEvent/BufferBase/BuffAbstract.cpp:120-125 | the reserve is the one whole number of blocks within those bounds |
| Capacity.Release | AsyncEvent/BufferBase/BuffAbstract.cpp:50-70 | it throws exactly above 80 MB; otherwise at least the requested room, never a smaller reserve, same filled part, and a larger reserve exactly when it reallocates |
| Capacity.ReleaseRoom | AsyncEvent/BufferBase/BuffAbstract.cpp:50-70 | just the room asked for unless there is more already, and the bounds of the reserve when it reallocates |
| Capacity.Accept | AsyncEvent/BufferBase/BuffAbstract.cpp:39-48 | accepting keeps filled within size and size below the reserve, and touches neither size nor reserve |
| Capacity.Write | AsyncEvent/BufferBase/BuffAbstract.cpp:113-118 | writing a string adds its length to the filled part unless the buffer is above 80 MB |
| Capacity.ResetIsEmpty | AsyncEvent/BufferBase/BuffAbstract.cpp:78-88 | a reset buffer has nothing filled and no room; soft keeps the reserve, hard makes it as new |
| Capacity.MemReduceOutcome | AsyncEvent/BufferBase/PBufferAbstract.cpp:62-80 | with nothing pending the buffer is as new; with more than a tenth pending nothing happens; otherwise just the pending bytes and the free room are left; it throws exactly when it compacts more than 80 MB |
| Capacity.Run | AsyncEvent/BufferBase/BuffAbstract.cpp:39-88 | over every sequence of release, accept, write, reset and compaction: filled, size, reserve stay in order with reserve strictly largest, so the policy never divides by zero |
| Capacity.RunIsBounded | AsyncEvent/BufferBase/BuffAbstract.cpp:50-64 | with bounded requests the reserve stays below twice 80 MB and one request, so sizes of 64 bits do not wrap |
| Capacity.CopiesMoreThanDouble | AsyncEvent/BufferBase/BuffAbstract.cpp:58-64 | with a fixed request size the filled part more than doubles between reallocations |
| Capacity.AmortisedGrowth | AsyncEvent/BufferBase/BuffAbstract.cpp:50-70 | all reallocations of a run together copy at most twice what was filled at the last |
| BufferView.ParsedStep | AsyncEvent/BufferBase/PBufferAbstract.cpp:22-31 | one turn of the parse loop is one step of splitting from scratch, hook included, unless the hook ends it |
| BufferView.ParsedDone | AsyncEvent/BufferBase/PBufferAbstract.cpp:32-37 | the loop ends where splitting from scratch ends |
| BufferView.ParsedKeeps | AsyncEvent/BufferBase/PBufferAbstract.cpp:12-41 | after parsing the saved offsets are sound, nothing completed is waiting, and the next search starts at most one delimiter before the end |
| BufferView.GrownKeeps | AsyncEvent/BufferBase/PBufferAbstract.cpp:93-97 | new bytes invalidate no saved offset |
| BufferView.UpToDateParts | AsyncEvent/BufferBase/PBufferAbstract.cpp:23-26 | the recorded parts are those of the whole buffer and tile it up to the unparsed offset |
| PBuffer.ParsingBuffer.constructor | AsyncEvent/BufferBase/BuffAbstract.cpp:4-11 | an empty buffer with two basic blocks reserved |
| PBuffer.ParsingBuffer.Reallocate | AsyncEvent/BufferBase/BuffAbstract.cpp:60-63 | a new block that begins with the filled bytes |
| PBuffer.ParsingBuffer.Release | AsyncEvent/BufferBase/BuffAbstract.cpp:50-70 | the sizes follow the size model and the contents do not change, also when memory moves |
| PBuffer.ParsingBuffer.FillTop | AsyncEvent/BufferBase/BuffAbstract.cpp:24-32 | bytes copied to the free space are there and the filled part is untouched |
| PBuffer.ParsingBuffer.Accept | AsyncEvent/BufferBase/BuffAbstract.cpp:39-48 | refused exactly beyond the free room; otherwise the bytes at the top are taken in and, unless the parser is off, split as from scratch, with the exact number of positions compared |
| PBuffer.ParsingBuffer.Receive | AsyncEvent/SMTP/AEvConnection.cpp:65-72 | a completed read takes in just the bytes that arrived |
| PBuffer.ParsingBuffer.Search | AsyncEvent/BufferBase/PBufferAbstract.cpp:21-22 | the first occurrence at or after a position, or the top; and how many positions it compared |
| PBuffer.ParsingBuffer.Parse | AsyncEvent/BufferBase/PBufferAbstract.cpp:12-41 | the resumed search leaves offsets, parts, lines, message length and switch as splitting from scratch does, also when the hook switches the parser off, and returns the number of new parts |
| PBuffer.ParsingBuffer.ParseTurn | AsyncEvent/BufferBase/PBufferAbstract.cpp:19-39 | each turn keeps the outcome of the parse and either advances or finishes it, by finding nothing or by the switch |
| PBuffer.ParsingBuffer.TakePart | AsyncEvent/BufferBase/PBufferAbstract.cpp:22-31 | a found part is recorded, passed over and given to the hook |
| PBuffer.ParsingBuffer.RememberSearch | AsyncEvent/BufferBase/PBufferAbstract.cpp:33-35 | the next search starts where this one could first find something new |
| PBuffer.ParsingBuffer.WhenHaveNewPart | AsyncEvent/SMTP/SmtpBuffer.cpp:42-46 | the command hook queues the trimmed line, the data hook records the first non-zero length, a head hook collects the line and may switch the parser off |
| PBuffer.ParsingBuffer.Reset | AsyncEvent/BufferBase/PBufferAbstract.cpp:54-60 | contents, offsets and parts are gone, queued lines are not; a hard reset shrinks the reserve |
| PBuffer.ParsingBuffer.Write | AsyncEvent/BufferBase/BuffAbstract.cpp:113-118 | the text is appended and parsed, unless the buffer overflows |
| PBuffer.ParsingBuffer.MemReduce | AsyncEvent/BufferBase/PBufferAbstract.cpp:62-80 | what compaction makes of contents and sizes, throwing or not |
| PBuffer.CompactedSteps | AsyncEvent/BufferBase/PBufferAbstract.cpp:74-78 | compaction, when it does something, is a reset, the pending bytes taken in again, and the free room made again |
| PBuffer.ParsingBuffer.GetLine | AsyncEvent/SMTP/SmtpBuffer.cpp:20-30 | the oldest line is returned and removed; an empty queue gives an empty line |
| PBuffer.ParsingBuffer.GetData | AsyncEvent/SMTP/SmtpBuffer.cpp:62-66 | the bytes up to the recorded message length, which a buffer that was not reset since has |
| PBuffer.ParsingBuffer.Clear | AsyncEvent/SMTP/SmtpBuffer.cpp:56-60 | a cleared buffer is as fresh, as far as its own hook is concerned |
| PBuffer.ClearedIsNew | AsyncEvent/SMTP/SmtpBuffer.cpp:56-60 | a cleared buffer whose own hook alone was at work is the new buffer |
| PBuffer.ParsingBuffer.GetBuffDataList | AsyncEvent/BufferBase/PBufferAbstract.cpp:111-119 | the recorded parts as strings; trimmed and with nothing waiting they are all the pieces of the contents |
| SmtpBuffers.ParsedTracks | AsyncEvent/BufferBase/PBufferAbstract.cpp:93-97 | what a chunk completes in the buffer is what it completes in the stream |
| SmtpBuffers.CompactTracks | AsyncEvent/BufferBase/PBufferAbstract.cpp:62-80 | compaction finds no new line and loses no pending byte |
| SmtpBuffers.StepTracks | AsyncEvent/SMTP/SmtpBuffer.cpp:20-46 | each chunk, line taken or compaction keeps: lines delivered and queued are the split of the stream so far |
| SmtpBuffers.CmdRun | AsyncEvent/SMTP/SmtpBuffer.cpp:20-46 | the same after every run from a fresh buffer |
| SmtpBuffers.ChunkIndependence | AsyncEvent/BufferBase/PBufferAbstract.cpp:12-80 | two runs over the same stream, however cut and compacted, have the same lines and the same unfinished rest: those of the stream |
| SmtpBuffers.ReadCommands | AsyncEvent/SMTP/AEvConnection.cpp:61-93 | a reader driving the real buffer obtains exactly the lines of the stream |
| SmtpBuffers.ReadStep | AsyncEvent/SMTP/AEvConnection.cpp:63-81 | one operation on the real buffer is one step of the model |
| SmtpBuffers.DataRunMeaning | AsyncEvent/SMTP/SmtpBuffer.cpp:74-80 | after any chunking the contents are the stream, and the recorded length is that of its first non-empty piece |
| SmtpBuffers.RecordedExtracts | AsyncEvent/SMTP/SmtpBuffer.cpp:62-80 | of any such buffer: ready exactly when the delimiter is complete, with the bytes before it as data, if and only if the contents do not begin with the delimiter |
| SmtpBuffers.MessageExtraction | AsyncEvent/SMTP/SmtpBuffer.cpp:62-80 | the same after every chunking of a stream |
| SmtpBuffers.ReceiveMessage | AsyncEvent/SMTP/SmtpBuffer.cpp:62-80 | a reader driving the real data buffer obtains just that readiness and that data |
| SmtpBuffers.LeadingDelimiterIsMissed | AsyncEvent/SMTP/SmtpBuffer.cpp:68-80 | a stream that is the delimiter is complete and never ready |
| SmtpBuffers.MessageIsFinal | AsyncEvent/SMTP/SmtpBuffer.cpp:74-80 | once ready, later chunks change neither length nor data |
| SmtpBuffers.HeadAccepts | AsyncEvent/BufferBase/PBufferAbstract.cpp:93-97 | a chunk keeps: the leading lines up to the first stop are collected, everything behind them is unparsed |
| SmtpBuffers.HeadMeaning | AsyncEvent/BufferBase/PBufferAbstract.cpp:28-31 | however the stream is cut, the collected lines are its first lines up to the first point where the hook switches the parser off, or all; the rest is left alone |
| SmtpBuffers.ScanWorkBound | AsyncEvent/BufferBase/PBufferAbstract.cpp:15-39 | one parse compares at most as many positions as there are bytes from its starting point |
| SmtpBuffers.SearchWorkBound | AsyncEvent/BufferBase/PBufferAbstract.cpp:33-35 | N bytes in k chunks compare at most N plus k delimiter lengths of positions |
| Tokens.JoinSplit | HUtils/HStrings.cpp:53-69 | joining the tokens gives the string back and no token contains the delimiter |
| Tokens.SplitJoin | HUtils/HStrings.cpp:53-69 | splitting what was joined from such tokens gives the tokens back |
| Tokens.SplitConcat | HUtils/HStrings.cpp:53-69 | the tokens of two strings with a delimiter between them are those of the one and those of the other |
| Tokens.SplitInto | HUtils/HStrings.cpp:53-69 | the scanning loop returns the tokens; told to remove empty ones it still keeps a last empty one |
| Tokens.PCoord | HUtils/HStrings.cpp:103-119 | found exactly when there are that many words, and then the bounds of that word |
| Tokens.GetPart | HUtils/HStrings.cpp:123-131 | the word with that number, or nothing |
| Tokens.GetPartReverse | HUtils/HStrings.cpp:139-160 | the word with that number counted from the last, or nothing, although it scans backwards |
| Tokens.WordsRun | HUtils/HStrings.cpp:107-114 | a maximal run without delimiter is one more word |
| Tokens.WordsStay | HUtils/HStrings.cpp:107-114 | words completed before a delimiter stay the first words |
| Tokens.CollapseIdempotent | HUtils/HStrings.cpp:209-221 | collapsing twice is collapsing once, and changes exactly the strings with a pair |
| Tokens.CollapseHasNoPair | HUtils/HStrings.cpp:209-221 | no two of the byte are left side by side |
| Tokens.ClearDupChars | HUtils/HStrings.cpp:209-221 | the in-place loop leaves the collapse of the original, although it reads what it overwrites |
| BigEndian.ValueOfDigits | AsyncEvent/DNS/DnsUtils.hpp:17-46 | a number that fits reads back as written |
| BigEndian.DigitsOfValue | AsyncEvent/DNS/DnsUtils.hpp:17-46 | bytes write back as read |
| BigEndian.ValueOfTwo | AsyncEvent/DNS/DnsUtils.hpp:17-26 | of two bytes the first counts 256 times |
| BigEndian.WeightedIsValue | AsyncEvent/DNS/DnsUtils.hpp:19-25 | the sum of weighted bytes is the big-endian value |
| BigEndian.BuffRead | AsyncEvent/DNS/DnsUtils.hpp:17-26 | the loop returns the big-endian value of the bytes at the cursor |
| BigEndian.BuffWrite | AsyncEvent/DNS/DnsUtils.hpp:38-46 | the digits stand at the cursor and every other byte is untouched |
| DnsNames.WriteName | AsyncEvent/DNS/DnsUtils.cpp:10-21 | the encoded name stands at the cursor, the cursor is behind it, every other byte is untouched |
| DnsNames.EncodedLength | AsyncEvent/DNS/DnsUtils.cpp:10-21 | the encoding is as long as the dotted text with one more byte, before the final zero |
| DnsNames.TargetIs | AsyncEvent/DNS/DnsUtils.cpp:54-63 | where a pointer leads is the number on the wire without its two high bits |
| DnsNames.SectionOffset | AsyncEvent/DNS/DnsUtils.cpp:54-63 | copying the two bytes, clearing the bits and reading the number gives that offset |
| DnsNames.MoreFuel | AsyncEvent/DNS/DnsUtils.cpp:38-94 | what is read does not depend on the step count |
| DnsNames.ReadNameStep | AsyncEvent/DNS/DnsUtils.cpp:38-94 | whenever the reader ends inside the packet at a non-root name: the labels joined by dots, and the cursor just past the first pointer or the final zero |
| DnsNames.ReadNameAt | AsyncEvent/DNS/DnsUtils.cpp:241 | the same from an empty string |
| DnsNames.EncodedHalts | AsyncEvent/DNS/DnsUtils.cpp:86-92 | on every name with backward pointers the reader ends, with its labels |
| DnsNames.Decompression | AsyncEvent/DNS/DnsUtils.cpp:38-94 | wherever and however compressed, a name in the wire format, whose pointers are numbers of fourteen bits, reads as its labels joined by dots |
| DnsNameRoundTrip.GoodNameReads | AsyncEvent/DNS/DnsUtils.cpp:10-94 | a name whose labels have 1 to 191 bytes reads back anywhere in a packet, and the cursor ends behind it |
| DnsNameRoundTrip.NameRoundTrip | AsyncEvent/DNS/DnsUtils.cpp:10-94 | a written name reads back if and only if each label has 1 to 191 bytes |
| DnsNameRoundTrip.CompressedReads | AsyncEvent/DNS/DnsUtils.cpp:38-94 | labels before a pointer to any offset below 16384, either way: they are read, then those at the offset, or the reader does not end just when it does not from there; the cursor ends behind the pointer |
| DnsNameRoundTrip.PointerReads | AsyncEvent/DNS/DnsUtils.cpp:54-63 | a pointer of any offset below 16384 reads as the name it points to, and the cursor ends two bytes on |
| DnsNameRoundTrip.LabelsAreSized | AsyncEvent/DNS/DnsUtils.cpp:42-52 | whatever is read, its labels have 1 to 191 bytes |
| DnsNameRoundTrip.WrittenConforms | AsyncEvent/DNS/DnsUtils.cpp:10-21 | a name with labels of 1 to 63 bytes is written in the format of RFC 1035 |
| DnsMessages.ArpaLabels | AsyncEvent/DNS/DnsUtils.cpp:106-121 | the labels of a reverse lookup name are the four octets reversed, then in-addr and arpa |
| DnsMessages.IpToArpa | AsyncEvent/DNS/DnsUtils.cpp:106-121 | the loop builds that name, or an empty string when there are not four octets |
| DnsMessages.IpStepRead | AsyncEvent/DNS/DnsUtils.cpp:130-138 | the four bytes in dotted decimal |
| DnsMessages.DecimalIs | AsyncEvent/DNS/DnsUtils.cpp:130-138 | the decimal digits of a byte have its value and no leading zero |
| DnsMessages.ReverseLookup | AsyncEvent/DNS/DnsUtils.cpp:106-138 | the address of an A record, looked up in reverse, gives its octets reversed |
| DnsMessages.RequestSize | AsyncEvent/DNS/DnsUtils.cpp:201-211 | the questions take, for each, its encoded name and four bytes |
| DnsMessages.BitIsDigit | AsyncEvent/DNS/DnsUtils.cpp:23-31 | testing a bit is testing a binary digit |
| DnsMessages.FlagIsDigit | AsyncEvent/DNS/DnsUtils.cpp:23-31 | flag k is the k-th binary digit, from the highest, of the number in the two flag bytes |
| DnsMessages.SetFlag | AsyncEvent/DNS/DnsUtils.cpp:23-31 | the flag reads as set, the fifteen other flags as before, and no other byte changes |
| DnsMessages.WriteHeader | AsyncEvent/DNS/DnsUtils.cpp:179-195 | the twelve header bytes: id, recursion desired, question count, three zero counts |
| DnsMessages.HeaderAsks | AsyncEvent/DNS/DnsUtils.cpp:179-195 | the header asks: the numbers in it are the id, the question count and three zeros, and recursion desired is the one flag set |
| DnsMessages.WriteQuestion | AsyncEvent/DNS/DnsUtils.cpp:205-209 | name, type and class stand at the cursor and nothing else changed |
| DnsMessages.WriteQuestions | AsyncEvent/DNS/DnsUtils.cpp:201-210 | all questions one behind the other |
| DnsMessages.RequestBuffWrite | AsyncEvent/DNS/DnsUtils.cpp:168-212 | the whole request and its size, nothing beyond it touched; its header has the id, the question count, three zero counts, and of the sixteen flags exactly recursion desired; nothing at all for a zero question count |
| DnsParser.ReadQuestionAt | AsyncEvent/DNS/DnsUtils.cpp:240-244 | the question at the cursor and the offset behind it |
| DnsParser.ReadDataAt | AsyncEvent/DNS/DnsUtils.cpp:255-266 | record data by type; other types are neither read nor skipped |
| DnsParser.ReadAnswerAt | AsyncEvent/DNS/DnsUtils.cpp:248-266 | the answer record at the cursor and the offset behind it |
| DnsParser.ParseQuestions | AsyncEvent/DNS/DnsUtils.cpp:239-245 | the loop appends all questions and leaves the cursor behind them |
| DnsParser.ParseAnswers | AsyncEvent/DNS/DnsUtils.cpp:247-268 | the loop appends all answers and leaves the cursor behind them |
| DnsParser.ResponseCode | AsyncEvent/DNS/DnsUtils.cpp:33-36 | the response code is not zero exactly when one of the flags 12 to 15 is set |
| DnsParser.ParseBody | AsyncEvent/DNS/DnsUtils.cpp:234-268 | the two counts are set and both sections appended |
| DnsParser.RespondBuffParse | AsyncEvent/DNS/DnsUtils.cpp:214-270 | refused for its id exactly when one was asked for and the first two bytes are another number; refused for its response code exactly when not for its id and one of the flags 12 to 15 is set; which fields are set on each outcome, and the sections appended on success |
| DnsRoundTrip.OneQuestion | AsyncEvent/DNS/DnsUtils.cpp:205-244 | a written question reads back exactly when its wire name is readable |
| DnsRoundTrip.QuestionsRoundTrip | AsyncEvent/DNS/DnsUtils.cpp:201-245 | the question section reads back if and only if every wire name is readable |
| DnsRoundTrip.RequestRoundTrip | AsyncEvent/DNS/DnsUtils.cpp:168-270 | a request is accepted by the parser under its own id or none; it reads back as the same questions, no answers and its own size if and only if every wire label has 1 to 191 bytes |
| DnsRoundTrip.FqdnMeans | AsyncEvent/DNS/DnsUtils.cpp:146-166 | the test accepts exactly the names that labels of the right form make when joined |
| DnsRoundTrip.CreatedExactly | AsyncEvent/DNS/DnsUtils.cpp:272-288 | a request is refused exactly for a reverse lookup of what is no address and for a name no labels make; otherwise it has the one question, under the given id |
| DnsRoundTrip.CreatedRequestRoundTrip | AsyncEvent/DNS/DnsUtils.cpp:272-288 | a created request for a name reads back if and only if no label exceeds 191 bytes |
| DnsRoundTrip.LongLabelIsLost | AsyncEvent/DNS/DnsUtils.cpp:146-166 | a label of 192 bytes passes validation and the request does not read back |
| DnsRoundTrip.AddressIsFqdn | AsyncEvent/DNS/DnsUtils.cpp:274-278 | every address in dotted decimal passes the test for domain names, which a reverse lookup goes through too |
| DnsRoundTrip.ReverseRequestRoundTrip | AsyncEvent/DNS/DnsUtils.cpp:205 | a reverse lookup of an address is always created and always reads back: under its arpa name, with no answers and its own size |
| DnsRoundTrip.StandingQuestionsRead | AsyncEvent/DNS/DnsUtils.cpp:239-245 | any question section in the format of RFC 1035 is read as its questions |
| DnsRoundTrip.StandingAnswersRead | AsyncEvent/DNS/DnsUtils.cpp:247-268 | any answer section of address, pointer and mail exchange records is read as those records, data lengths included |
| DnsRoundTrip.MessageMeaning | AsyncEvent/DNS/DnsUtils.cpp:214-270 | any such message, with names compressed in any way that points backwards, is read as just its questions and records |
| EventTree.MarkedKeeps | AsyncEvent/AEvBase/AEventAbstract.cpp:94-96 | beginning to stop keeps the invariant and leaves fewer events live |
| EventTree.ChildIsFresh | AsyncEvent/AEvBase/AEventAbstract.cpp:101-104 | a child of an event under way has not begun to stop, and its stop goes no further up |
| EventTree.ChildStopped | AsyncEvent/AEvBase/AEventAbstract.cpp:103-104 | stopping one child finishes descendants only and removes that child from the set |
| EventTree.FinishedAlone | AsyncEvent/AEvBase/AEventAbstract.cpp:59-65 | the callback of an event without children finishes it alone and leaves the parent fit to be stopped |
| EventTree.StoppedThrough | AsyncEvent/AEvBase/AEventAbstract.cpp:130-137 | a callback that goes on to stop the parent has stopped the parent's whole subtree |
| EventTree.StillGoesUp | AsyncEvent/AEvBase/AEventAbstract.cpp:92-111 | stopping the descendants does not change how far the stop goes up |
| EventTree.AEvent.Stop | AsyncEvent/AEvBase/AEventAbstract.cpp:92-111 | it terminates under re-entry; called again it does nothing; otherwise all below the event it goes up to has finished and the rest differs by one set entry |
| EventTree.AEvent.StopChildren | AsyncEvent/AEvBase/AEventAbstract.cpp:101-104 | the loop over the copied set, in any order, empties the child set |
| EventTree.AEvent.EvStop | AsyncEvent/SysSig/AEvSysSig.cpp:27-30 | the stop hooks set the exit signal and nothing else |
| EventTree.AEvent.Finish | AsyncEvent/AEvBase/AEventAbstract.cpp:59-65 | the callback is invoked once with the moved pointer; what it stops is settled by the parent's reaction |
| EventTree.AEvent.ChildCallback | AsyncEvent/AEvBase/AEventAbstract.cpp:130-137 | the child is erased, then the hook stops the event or nothing more happens |
| EventTree.AEvent.EvChildCallback | AsyncEvent/SMTP/AEvAcceptor.cpp:73-77 | only the acceptor reacts, and only to abort |
| EventTree.AEvent.StopFromOutside | AsyncEvent/AEvBase/AEventAbstract.cpp:82-87 | a stop while none is under way keeps the invariant and leaves none under way |
| EventTree.AEvent.CreateChild | AsyncEvent/AEvBase/AEventAbstract.hpp:53-66 | membership: the child is in the set once created and leaves it by the callback, also when it stops itself in its begin hook |
| EventTree.AEvent.Begin | AsyncEvent/AEvBase/AEventAbstract.cpp:38-44 | the event knows itself before its begin hook runs |
| EventTree.CreateRoot | async_daemon.cpp:26-29 | a root on its own satisfies the invariant, stopped in its begin hook or not |
| EventTree.CreatedKeeps | AsyncEvent/AEvBase/AEventAbstract.hpp:63-65 | creating a child keeps the invariant (an event is in its parent's set exactly from creation to erasure) if and only if the parent has not stopped |
| EventTree.StopOutcome | AsyncEvent/AEvBase/AEventAbstract.cpp:92-111 | after a stop the event and every descendant is emptied, with its callback invoked exactly once and after its children's |
| EventTree.DescendantsFinished | AsyncEvent/AEvBase/AEventAbstract.cpp:101-109 | an event without children has only finished descendants |
| EventTree.ExtentOfStop | AsyncEvent/SMTP/AEvAcceptor.cpp:73-77 | with the program's hooks a stop goes up only from the signal listener to its acceptor |
| EventTree.SignalStopsAcceptor | AsyncEvent/SysSig/AEvSysSig.cpp:27-48 | stopping the signal listener finishes the acceptor's whole subtree and nothing outside |
| EventTree.StopIsLocal | AsyncEvent/AEvBase/AEventAbstract.cpp:92-137 | any other stop changes outside its subtree only its entry in the parent's set |
| SmtpText.EmailOf | AsyncEvent/SMTP/SmtpTypes.cpp:162-176 | an accepted address is initialised and non-empty, with a local part of 1 to 128 bytes and a qualified domain |
| SmtpText.AddressReads | AsyncEvent/SMTP/SmtpTypes.cpp:162-176 | two texts with one @ between them are an address exactly when the first has 1 to 128 bytes and the second is a qualified domain, and then they are its parts |
| SmtpText.AddressIsItsParts | AsyncEvent/SMTP/SmtpTypes.cpp:162-176 | an accepted address is its local part, an @ and its domain if and only if it has one @ |
| SmtpText.SecondAtIsKept | AsyncEvent/SMTP/SmtpTypes.cpp:162-176 | with a second @ and anything behind it an address is accepted, text and all, as that of its first two parts |
| SmtpExamples.SecondAtIsAccepted | AsyncEvent/SMTP/SmtpTypes.cpp:162-176 | `a@b.c@d` is such an address |
| SmtpText.LowerFolds | AsyncEvent/SMTP/SmtpTypes.cpp:147-158 | folding decides whether a word is a given one, byte by byte the same or letters 32 apart |
| SmtpText.CommandTable | AsyncEvent/SMTP/Modules/BaseMod.cpp:9-22 | a line that begins with one of the ten words, in any case, alone or before a space, has that word's handler; one that begins with any other word has none |
| SmtpText.TrimIs | HUtils/HStrings.cpp:84-99 | trimming takes the white space around a text and nothing else |
| SmtpText.TrimCuts | HUtils/HStrings.cpp:84-99 | what trimming leaves is the text between two stretches of white space |
| SmtpText.DataLines | AsyncEvent/SMTP/SmtpTypes.cpp:137-145 | DATA is accepted as a line exactly when that is the word in any case between white space |
| SmtpText.HeloReads | AsyncEvent/SMTP/SmtpTypes.cpp:47-60 | a word of four bytes, a space and an argument without one: the argument, which may be empty, is taken; with another space behind it, or with nothing behind the word, the line is refused |
| SmtpText.ParseMailFrom | AsyncEvent/SMTP/SmtpTypes.cpp:62-92 | an accepted sender is initialised; a refused one has one of three errors |
| SmtpText.ParseRcptTo | AsyncEvent/SMTP/SmtpTypes.cpp:103-135 | the same for a recipient |
| SmtpText.BracketedReads | AsyncEvent/SMTP/SmtpTypes.cpp:66-84 | command, colon, path in angle brackets: the path is what is parsed if the command is the expected one, in any case and with any number of spaces between its words; the line is unrecognized if it is not |
| SmtpText.MailFromReads | AsyncEvent/SMTP/SmtpTypes.cpp:62-92 | such a line, in any case, is accepted exactly when the path is an address |
| SmtpText.RcptToReads | AsyncEvent/SMTP/SmtpTypes.cpp:103-135 | the same for a recipient, which is what follows the last colon of the path |
| SmtpState.HandlersOblige | AsyncEvent/SMTP/Modules/BaseMod.cpp:31-176 | every handler keeps the command order and the greeting, raises the count exactly when its reply will lower it again, and sets a reply when it succeeds |
| SmtpState.WaitsAfterData | AsyncEvent/SMTP/Modules/BaseMod.cpp:117-139 | data is awaited exactly after an accepted DATA command |
| SmtpState.AcceptedExactly | AsyncEvent/SMTP/Modules/BaseMod.cpp:31-176 | which lines are accepted, for every handler: HELO and MAIL with a good argument, MAIL after a greeting, RCPT with one after a sender, DATA with recipients and no unsent reply if it is the bare word, the rest always |
| SmtpState.TransactionChanges | AsyncEvent/SMTP/Modules/BaseMod.cpp:61-154 | only a RCPT with a new address adds a recipient, and it adds that address; only RSET removes them; only an accepted MAIL, with its address, and RSET change the sender |
| SmtpState.GreetingChanges | AsyncEvent/SMTP/Modules/BaseMod.cpp:31-59 | only an accepted HELO greets, with its argument; only QUIT and a refused HELO close the connection |
| SmtpState.EhloFails | AsyncEvent/SMTP/Modules/BaseMod.cpp:22 | EHLO is refused, greeting or not, and changes nothing |
| SmtpState.RepliesHaveText | AsyncEvent/SMTP/SmtpTypes.cpp:20-101 | every line has a non-empty answer: each success sets a reply, each error a handler returns is in the table |
| SmtpState.RepliesAreReplies | AsyncEvent/SMTP/SmtpTypes.cpp:20-101 | every answer is a reply line, three digits of code, a space, a line end, and its code is positive exactly when the command was accepted |
| SmtpState.ErrorsHaveText | AsyncEvent/SMTP/SmtpTypes.cpp:20-28 | the errors without a text are exactly noerror and corrupt |
| SmtpState.IncSmtpState.ResetTransaction | AsyncEvent/SMTP/IncSmtpState.cpp:10-18 | whatever the state was, it is in order again, with a new data buffer; the greeting, the count of unsent replies and the old buffer are untouched |
| SmtpState.IncSmtpState.HeloHandler | AsyncEvent/SMTP/Modules/BaseMod.cpp:31-59 | greeted with the argument exactly when the line has one; a refusal closes the connection; nothing else changes, and the obligations of a handler are met |
| SmtpState.IncSmtpState.MailHandler | AsyncEvent/SMTP/Modules/BaseMod.cpp:61-82 | accepted exactly after a greeting and with an address, which is then the sender; a refusal changes nothing, recipients stay, and the obligations of a handler are met |
| SmtpState.IncSmtpState.RcptHandler | AsyncEvent/SMTP/Modules/BaseMod.cpp:84-115 | accepted exactly after a sender and with an address; recipients grow by that address, by one exactly when the reply will confirm, and the obligations of a handler are met |
| SmtpState.IncSmtpState.DataHandler | AsyncEvent/SMTP/Modules/BaseMod.cpp:117-139 | accepted exactly when no reply is unsent, there are recipients, and the line is the word in any case between white space; data is then awaited; each refusal has its own condition, and the obligations of a handler are met |
| SmtpState.IncSmtpState.CallMappedHandler | AsyncEvent/SMTP/AEvConnection.cpp:183-198 | the handler the command names in any case (`SmtpText.CommandTable`), or unrecognized; either way the obligations of a handler are met |
| SmtpSession.ConfirmsRemove | AsyncEvent/SMTP/AEvConnection.cpp:169-180 | completing a send takes away exactly its own confirmation, wherever it stood |
| SmtpSession.OneLineKeeps | AsyncEvent/SMTP/AEvConnection.cpp:93-121 | handling one line keeps the invariant and the greeting |
| SmtpSession.OneLineChronicled | AsyncEvent/SMTP/Modules/BaseMod.cpp:61-115 | a new sender finds the recipients accepted before it, a new recipient comes after the sender |
| SmtpSession.OneLineRemembers | AsyncEvent/SMTP/Modules/BaseMod.cpp:31-82 | one line keeps: the client is known by the last accepted HELO, the sender by the last accepted MAIL |
| SmtpSession.BeginKeeps | AsyncEvent/SMTP/AEvConnection.cpp:77-124 | handling all queued lines keeps the invariant, and an open session then reads what it waits for into enough room |
| SmtpSession.DataDoneKeeps | AsyncEvent/SMTP/AEvConnection.cpp:150-162 | replacing the state after a message keeps it |
| SmtpSession.SentKeeps | AsyncEvent/SMTP/AEvConnection.cpp:169-180 | a completed send takes its confirmation from the count, a failed one leaves it there |
| SmtpSession.StepKeeps | AsyncEvent/SMTP/AEvConnection.cpp:61-181 | every event keeps the invariant and the greeting |
| SmtpSession.Run | AsyncEvent/SMTP/AEvConnection.cpp:31-181 | so does every run |
| SmtpSession.SeenIs | AsyncEvent/SMTP/AEvConnection.cpp:61-181 | what the invariant says was read and failed is what the events read and failed |
| SmtpSession.PipeliningSafety | AsyncEvent/SMTP/AEvConnection.cpp:77-181 | in every run the count of unsent replies is the number of confirmations under way and of those that failed; it is the number under way if and only if none failed; it never underflows |
| SmtpExamples.FailedReplyStaysCounted | AsyncEvent/SMTP/AEvConnection.cpp:171-178 | a run in which a reply to RCPT fails and stays counted |
| SmtpSession.LinesHandled | AsyncEvent/SMTP/AEvConnection.cpp:61-124 | in every run the lines handled and those queued are the lines of all bytes read as commands, and the unfinished rest is in the buffer |
| SmtpSession.CommandOrder | AsyncEvent/SMTP/Modules/BaseMod.cpp:61-139 | in every run data follows recipients, recipients a sender, a sender the greeting; each message handed over is complete; accepted DATA commands are messages handed over plus one if waiting |
| SmtpSession.RecipientsAfterSender | AsyncEvent/SMTP/Modules/BaseMod.cpp:61-115 | all recipients came after the sender if and only if the sender was accepted when there were none |
| SmtpExamples.SecondSenderInherits | AsyncEvent/SMTP/Modules/BaseMod.cpp:76-82 | a run in which a second sender keeps the first one's recipient |
| SmtpExamples.MessageArrives | AsyncEvent/SMTP/AEvConnection.cpp:77-162 | a whole conversation, in mixed case: the one message is handed over with its sender, its recipient and its text |
| SmtpSession.StepHands | AsyncEvent/SMTP/AEvConnection.cpp:150-162 | a message is handed over only when data was read, and it is the transaction there was, with that data |
| SmtpSession.HandedMessages | AsyncEvent/SMTP/AEvConnection.cpp:126-162 | each message handed over is the transaction of its moment, and its data is what the events had read as data since the last command read, up to the first end-of-data delimiter, unless that came at once |
| SmtpSession.GreetingIsKept | AsyncEvent/SMTP/AEvConnection.cpp:150-162 | a greeting once given survives everything that follows |
| SmtpSession.NamesRemembered | AsyncEvent/SMTP/Modules/BaseMod.cpp:31-82 | so in every run: greeted exactly when a HELO was accepted, known by the last one, with the sender of the last MAIL; neither RSET nor a message handed over forgets the greeting or its text |
| SmtpSession.OneReplyPerLine | AsyncEvent/SMTP/AEvConnection.cpp:77-124 | exactly one reply line for each line taken, in order, positive exactly when the line was accepted, each made in the state the line before it left; lines are left over only when the connection closes |
| SmtpSession.FixedReplies | AsyncEvent/SMTP/AEvConnection.cpp:98-152 | the welcome, the refusal of excess data and the acceptance of a message are reply lines of the right sign |
| SmtpSession.AEvSmtpSession.constructor | AsyncEvent/SMTP/AEvConnection.cpp:31-36 | a session greets and reads |
| SmtpSession.AEvSmtpSession.AsyncReadCommand | AsyncEvent/SMTP/AEvConnection.cpp:61-65 | room is made in the command buffer and a read begins, or the overflow exception leaves the handler |
| SmtpSession.AEvSmtpSession.AsyncReadData | AsyncEvent/SMTP/AEvConnection.cpp:126-132 | the same for the data buffer |
| SmtpSession.AEvSmtpSession.HandleOneLine | AsyncEvent/SMTP/AEvConnection.cpp:93-121 | the oldest line of the real queue is handled as one line of the model |
| SmtpSession.AEvSmtpSession.BeginTransaction | AsyncEvent/SMTP/AEvConnection.cpp:77-124 | the recursion ends with the queue and does what the model does |
| SmtpSession.AEvSmtpSession.ReadNext | AsyncEvent/SMTP/AEvConnection.cpp:79-91 | the real buffers are compacted and cleared, or the overflow exception leaves the handler, as in the model |
| SmtpSession.AEvSmtpSession.OnCommandRead | AsyncEvent/SMTP/AEvConnection.cpp:65-74 | a completed read of commands is the model's step |
| SmtpSession.AEvSmtpSession.HandOver | AsyncEvent/SMTP/AEvConnection.cpp:152-158 | the old state object is handed over with its data and a new one, with its own buffer, takes its place |
| SmtpSession.AEvSmtpSession.DataAccepted | AsyncEvent/SMTP/AEvConnection.cpp:150-162 | an accepted message is the model's step |
| SmtpSession.AEvSmtpSession.OnDataRead | AsyncEvent/SMTP/AEvConnection.cpp:126-148 | a completed read of data is the model's step |
| SmtpSession.AEvSmtpSession.OnSent | AsyncEvent/SMTP/AEvConnection.cpp:164-181 | a completed send, in any order, is the model's step |
| SmtpSession.AEvSmtpSession.OnTimeout | AsyncEvent/AEvBase/AEventAbstract.cpp:82-87 | a stop is the model's step |
| TreeStore.Compare | HUtils/BTreeStore.cpp:34 | zero exactly for equal blocks |
| TreeStore.FirstDifference | HUtils/BTreeStore.cpp:34 | the first byte in which two blocks differ orders them |
| TreeStore.CompareFlips | HUtils/BTreeStore.cpp:34 | swapping the blocks flips the sign |
| TreeStore.CompareTransitive | HUtils/BTreeStore.cpp:34 | the order of blocks is transitive |
| TreeStore.InsertAddsItem | HUtils/BTreeStore.cpp:26-43 | insertion adds the block to the stored set and keeps the strict order |
| TreeStore.FoundIsMember | HUtils/BTreeStore.cpp:45-61 | search answers membership |
| TreeStore.CountIsCardinality | HUtils/BTreeStore.cpp:63-69 | nothing is stored twice |
| TreeStore.StoreIsSet | HUtils/BTreeStore.cpp:13-69 | after any run of insertions: ordered, search answers membership, the count is the number of distinct blocks |
| TreeStore.BTreeStore.Insert | HUtils/BTreeStore.cpp:13-16 | the pointer tree takes the shape of the inserted tree, its set grows by the block, its counter stays the count |
| TreeStore.BTreeStore.Search | HUtils/BTreeStore.cpp:18-24 | true exactly for stored blocks |
| TreeStore.BTreeStore.InsertAt | HUtils/BTreeStore.cpp:26-43 | the recursion through pointer references, with the nodes it may touch |
| TreeStore.BTreeStore.SearchAt | HUtils/BTreeStore.cpp:45-61 | a node exactly when the block is found |
| TreeStore.BTreeStore.Create | HUtils/BTreeStore.cpp:63-69 | one new leaf, counted |
| TreeStore.FusedStore.Insert | HUtils/BTreeStoreCPP.cpp:20-27 | blocks of another size are refused; otherwise the same shape as the plain store |
| TreeStore.FusedStore.Search | HUtils/BTreeStoreCPP.cpp:15-18 | true exactly for stored blocks, and the store is as before |
| TreeStore.FusedStore.SearchAt | HUtils/BTreeStoreCPP.cpp:43-66 | search and insertion in one recursion, with the shape the plain insertion gives |
| TreeStore.FusedStore.Create | HUtils/BTreeStoreCPP.cpp:68-72 | one new leaf, counted |

## Left out

- Sockets, resolvers, timers, logging and configuration: completions and time-outs are events; replies carry the host name as a parameter.
- Allocation failure, and the release of memory by destructors.
- The one-spare-block policies of the DNS and HDFS buffers, and the mutators `change_data_top` and `reset_size`, which nothing calls.
- PBuffer.ParsingBuffer.WhenHaveNewPart: whether a head hook switches the parser off is a parameter of the lines so far; how the HDFS buffer reads its head from them is not part of this model. Nothing calls `parser_on`.
- PBuffer.ParsingBuffer.GetData: requires that the recorded length lies inside the buffer, because a bare `reset` forgets the bytes and keeps the length; `SmtpBuffers.ReceiveMessage` meets it.
- SmtpSession.AEvSmtpSession.OnSent: the count is an integer without the wrap-around of 32 bits, which would take that many replies under way at once.
- SmtpSession.AEvSmtpSession.OnTimeout: only the stop flag is set here; what a stop does to the tree of events is `EventTree`, and the socket is not part of this model.
- What happens after a buffer's overflow exception has left a completion handler: nothing catches it, and the model ends there.
- EventTree.AEvent.CreateChild: requires a parent that has not stopped and no stop under way, because with a stopped parent the invariant is lost (`EventTree.CreatedKeeps` says exactly when).
- Registered utilities of an event, and hooks that create children while a stop is under way; the program's hooks do not.
- The address test and the random id of `create_request` are parameters; its use with a question list left from an earlier request is not modelled.
- `get_flag`, the selection of records by preference or at random, and the fields of the header the codec does not use.
- DnsNames.ReadNameStep: nothing is stated where the reader leaves the packet, does not end, or meets the root name; there the program's behaviour is undefined.
- `cut_part` for parts other than the first, and `cut_part_reverse`.
- `btreeCpp::BTreeStore::search` on strings, which compares only sizes, and the mutex of that store.
- The atomic queue and stack, the detached task queue, the HDFS client, and the file, network and process helpers.
