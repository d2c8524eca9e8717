# A verified model of the hiredis protocol engine and the PHP client on top of it

This project models, in Dafny 4.11, the protocol engine of hiredis (`hiredis/hiredis.c`), the
dynamic strings below it (`hiredis/sds.c`), the asynchronous context (`hiredis/async.c`), and
the layers of the PHP extension that depend on it: the reply hooks (`hooks.c`), the reply
validators and reader queues (`library.c`, `macros.h`) and the pipeline and transaction calls
(`redis.c`). `dafny verify dfyconfig.toml` checks all of it.

## The layers

The reply reader appears three times, and each form is proved against the next:

* `Reader` is the code: a `RedisReader` object with `pos`, `len`, `ridx`, a stack of three linked
  tasks and an `sds` buffer, which builds the reply in place, through parent pointers, as
  `redisReply` objects or as zvals. Every method ends where the pure reader ends.
* `Replies`, `Machine` and `Sessions` are the pure reader: one transition for each consumed type
  byte or item body, a stack of open arrays, and runs over any schedule of feeds and calls.
* `Grammar` is the protocol of the Redis serialization protocol specification, sections "Simple
  strings", "Simple errors", "Integers", "Bulk strings" and "Arrays", twice: as recursive descent
  over at most two array levels, and as a relation between byte strings and replies.

Around it:

* `Printing` inverts the reader, and `Commands` and `Format` are the two command formatters, whose
  output the same reader reads back. `Conservation` accounts for every byte.
* `SdsStrings`, `Numerals`, `Split` and `Quote` are the strings: growth, ranges, integer printing,
  splitting and quoting.
* `Objects` and `Builders` are the two sets of reply constructors behind one contract; the PHP set
  leaves the image of the reply under `Objects.Convert`.
* `Context` is the connection: the reader and the output buffer as objects, and whole conversations
  over it. `Async` is the callback
  queue on linked nodes in front of such a connection, with callbacks that issue commands and ask
  for disconnects while they run.
* `Delivery` joins the reader and the PHP hooks: bytes in any chunks become the zvals of the replies,
  one pipeline after the other.
* `Validators`, `Pipeline`, `Queues` and `RedisSocks` are the PHP side: reader functions, what a
  queue of readers makes of the replies, the linked queues, and the calls of the PHP object.

What `read` and `write` return, what the server answers and what callbacks do are inputs. The
replies the server sends to a PHP object are a first-in first-out field that each appended command
extends by its answer; `Delivery.FetchZvals` is how the bytes of such replies become their zvals.

## Where the code and its documentation differ

* A disconnect of an asynchronous connection does not wait for outstanding replies
  (`hiredis/README.md:267-271`): the guard looks only at the output buffer, and the assert in
  `hiredis/async.c:152` then fails. `Async.AsyncContext.AsyncDisconnect` gives the exact condition
  and `Async.DisconnectTooEarly` a run.
* Outside pipelines `exec` reads one confirmation for each node of a queue that direct commands and
  earlier transactions have left, and that only a pipeline clears. `RedisSocks.PlayProgram` gives the
  exact condition over whole programs and `RedisSocks.TransactionsThatHang` the shortest that hang.
* `exec` walks over the items of a block as if the server had executed all its commands. When one was
  rejected while queueing, the reply to EXEC has an item for the others only, or is an error;
  `Pipeline.RejectionsMixUp` says exactly when the results are still right, and
  `RedisSocks.RejectedCommand` shows a wrong one.
* The reader takes lines that the protocol does not have (`Numerals.Denotes`, `Grammar.LenientEncodings`):
  a length, count or integer in which a character that is no digit comes before the first CR is -1, so
  that `$x` and `*x` are nil and `:x` is -1; one without digits is 0, so that `:` is zero, `$` announces
  an empty string and `*` an empty array; a plus sign and leading zeros are allowed; what follows a CR
  inside the line is ignored; any negative length is nil; and any two bytes may follow a bulk body.
* `sdscatrepr` and `sdssplitargs` are described as inverse to each other
  (`hiredis/sds.c:402-403`). They are, exactly for printable bytes (`Quote.QuoteRoundTrip`).
* The second `multi()` of a pipeline appends its status reader to the list of the block before.
  The readers of a block are a prefix of its list, and that suffices for every reply with at most one
  item for each command (`RedisSocks.OwnReaders`).
* The end of a block without commands has neither a reader nor a list, and `send` calls a NULL
  function for it (`Pipeline.QueueAligned`).

## Model

| member | source | states |
|---|---|---|
| `Bytes.FirstCrlfAfterText` | hiredis/hiredis.c:169-193 | A text is delimited exactly by the CRLF behind it if and only if it contains none itself; a text that ends in CR is no exception. |
| `Bytes.FirstCrlfExtends` | hiredis/hiredis.c:169-193 | A line that has ended stays the same line when more bytes arrive. |
| `Numerals.IntLen` | hiredis/hiredis.c:574-585 | The number of divisions counted is the length of the printed numeral, sign included. |
| `Numerals.FromLongLong` | hiredis/sds.c:352-365 | For every value strictly between -2^63 and 2^63 the bytes written backwards into the 32-byte buffer are its decimal numeral, and no write leaves the buffer. |
| `Numerals.ReadLongLongAt` | hiredis/hiredis.c:197-222 | The walk over the buffer up to the CR computes the value of the line in front of it, and its accumulator never exceeds the value of the digits. |
| `Numerals.ReadsWhatItDenotes` | hiredis/hiredis.c:197-222 | The value read from a line is `v` if and only if the line denotes `v`: an optional sign and digits up to the first CR, or -1 when a character that is no digit comes first. |
| `Numerals.ReadNumeral` | hiredis/hiredis.c:197-222 | Reading a printed numeral gives the number back. |
| `Numerals.ReadSigned` | hiredis/hiredis.c:197-222 | A numeral may carry either sign, or none, and leading zeros. |
| `Numerals.AccumulatorNeverOverflows` | hiredis/hiredis.c:210-219 | When the value of a numeral fits `long long`, so does every intermediate value of the accumulator, before and after a digit is added. |
| `Numerals.PositionalNotation` | hiredis/hiredis.c:197-222 | What a line of digits denotes: with one more digit behind it ten times as much and that digit, with a minus sign in front its negative, with a plus sign itself, and nothing is zero. |
| `Numerals.DecimalIsUnique` | hiredis/sds.c:352-365 | The printed numeral is the only one without a plus sign and leading zeros that denotes its number. |
| `Numerals.NumeralHasNoCrlf` | hiredis/sds.c:352-365 | A printed numeral never ends its own line. |
| `Replies.ReadItem` | hiredis/hiredis.c:264-379 | A completed item takes at least its CRLF and no more than there is; only arrays open a level, and only with a count between 1 and `INT_MAX`. |
| `Replies.ReadItemExtends` | hiredis/hiredis.c:264-379 | An item, once read, is not reconsidered when more bytes arrive. |
| `Machine.Settle` | hiredis/hiredis.c:239-262 | The pop loop ends with a root reply or with a shorter or equal stack in which every open array still misses an element. |
| `Machine.Step` | hiredis/hiredis.c:381-432 | Every transition keeps the stack invariant (at most two open arrays, none empty or full, no array type on the third level) and consumes at least one byte. |
| `Machine.RunLeavesSuffix` | hiredis/hiredis.c:514-549 | A call leaves a suffix of its bytes, and waits only where no transition is possible. |
| `Machine.StepExtends` | hiredis/hiredis.c:381-432 | A transition that is possible is not changed by bytes that arrive later. |
| `Machine.RunExtends` | hiredis/hiredis.c:514-549 | Parsing some bytes and later the rest is parsing them at once, also when a call stops behind a type byte. |
| `Machine.DrainExtends` | hiredis/hiredis.c:504-571 | Draining two chunks one after the other yields the replies, the task stack and the retained bytes of draining their concatenation. |
| `Grammar.Descend` | hiredis/hiredis.c:264-432 | A tree read by recursive descent takes at least one byte and no more than there are. |
| `Grammar.RefineElement` | hiredis/hiredis.c:239-432 | From any stack with a fresh slot the machine with its explicit stack does what recursive descent says: it waits, fails with the same fault, or settles the same tree after the same bytes. |
| `Grammar.ReaderRefinesGrammar` | hiredis/hiredis.c:239-432 | From the empty stack: the reader emits a reply if and only if recursive descent reads that tree, leaving the same bytes, and agrees on faults and on waiting. |
| `Grammar.ReadsExactlyEncodings` | hiredis/hiredis.c:264-432 | With anything behind it, a byte string is read as a reply and consumed whole if and only if it encodes that reply in the declarative grammar, whose numerals are defined without the reader. |
| `Grammar.LenientEncodings` | hiredis/hiredis.c:197-379 | Concrete lines beyond the protocol that encode nil, -1, zero, the empty string and the empty array. |
| `Grammar.Refuses` | hiredis/hiredis.c:332-432 | An unknown type byte is refused as such, and an array count below -1 or beyond `int` as a bad count, whatever follows. |
| `Grammar.RefusesThirdLevel` | hiredis/hiredis.c:336-341 | With two arrays open, the type byte of a third one is refused. |
| `Grammar.EncodingsArePrefixFree` | hiredis/hiredis.c:264-432 | No encoding is a proper prefix of another, and none has two meanings. |
| `Grammar.EncodingDescends` | hiredis/hiredis.c:264-432 | Recursive descent reads every declarative encoding as its reply, at every level. |
| `Grammar.DescendEncodes` | hiredis/hiredis.c:264-432 | Conversely, what recursive descent reads is an encoding of the tree it returns. |
| `Printing.PrintReadRoundTrip` | hiredis/hiredis.c:264-432 | Printing a reply and reading it gives the reply back and leaves what follows alone, if and only if its texts are free of CRLF, it has at most two array levels and its counts fit `int`. |
| `Printing.PrintsCanonically` | hiredis/hiredis.c:671-683 | A reply has one canonical form, byte by byte: its type byte, a decimal length or text, CRLF, and for arrays the forms of the elements one after the other. |
| `Printing.EmittedIffPrintable` | hiredis/hiredis.c:264-432 | The replies the reader can ever emit are exactly the printable ones. |
| `Printing.DrainEncodings` | hiredis/hiredis.c:504-571 | A stream of encodings yields their replies in order and nothing else. |
| `Sessions.GetReply` | hiredis/hiredis.c:514-571 | Every call keeps the invariant; a recorded length that is stale occurs only after an error, on an empty buffer and an empty stack. |
| `Sessions.FaultIsFinal` | hiredis/hiredis.c:485-571 | A reader that has failed never delivers a reply again, whatever is fed to it. |
| `Sessions.GetConserves` | hiredis/hiredis.c:514-571 | One call: the reply it delivers is the next one of the stream, and the state it leaves behind yields the others. |
| `Sessions.RunConserves` | hiredis/hiredis.c:504-571 | Every run, any order of feeds and calls: the replies delivered, followed by those still to come out of the retained bytes and stack, are the replies of the stream. |
| `Sessions.QuietMeansWaiting` | hiredis/hiredis.c:514-571 | A call that came back without a reply leaves a state in which nothing more can be read. |
| `Sessions.ChunkIndependence` | hiredis/hiredis.c:504-571 | However one stream is cut into feeds and however many calls are made between them, once the last call comes back empty-handed the same replies have been delivered, the first fault, if any, is the same, and so are the bytes and the stack retained. |
| `Conservation.RunLocal` | hiredis/hiredis.c:514-549 | A run that does not fail depends only on the bytes it consumes: on those alone it comes to the same reply, or to the same stack, with nothing left. |
| `Conservation.BytesAreConserved` | hiredis/hiredis.c:504-549 | In every run without an error the bytes fed are the encodings of the replies delivered, in order, then the bytes consumed towards the open stack, then the retained buffer. |
| `SdsStrings.Sds.constructor` | hiredis/sds.c:44-61 | A new string has the given content, no free room and its terminator. |
| `SdsStrings.Sds.MakeRoomFor` | hiredis/sds.c:98-116 | The content stays; when there is not enough room the capacity becomes twice the length asked for and the old bytes move once. |
| `SdsStrings.Sds.CatLen` | hiredis/sds.c:118-130 | The bytes are appended, terminator and header stay consistent, and capacity and moved bytes follow the growth rule. |
| `SdsStrings.Sds.Range` | hiredis/sds.c:210-236 | The content becomes the range between two inclusive positions, negative ones counted from the end, clamped to the string; the capacity stays. |
| `SdsStrings.RangeMeans` | hiredis/sds.c:210-236 | The range as slices: inside the string, empty when the end comes first, cut at the end, the last byte when it starts beyond the end, and negative positions by their distance from the end. |
| `SdsStrings.RangeDropsPrefix` | hiredis/hiredis.c:537-549 | With the length as end position a consumed prefix is dropped correctly if and only if something remains or nothing was there; with -1 it always is. |
| `SdsStrings.AppendsAreAmortised` | hiredis/sds.c:98-130 | Any sequence of appends to an empty string that reaches n > 0 bytes moves fewer than 2n bytes and ends with a capacity of at most 2n. |
| `SdsStrings.AppendAll` | hiredis/sds.c:98-130 | The same on the object: any list of chunks appended to a string that started empty leaves their concatenation and fewer than two bytes moved for each byte of content. |
| `Objects.CloseArray` | hiredis/hiredis.c:124-135 | An array object whose slots are all filled shows the array reply of its elements, in both sets of objects. |
| `Objects.CloseChild` | hiredis/hiredis.c:239-262 | A child that was linked into its parent before it was filled counts as an element once it is finished. |
| `Objects.ReplyTells` | hiredis/hiredis.c:52-156 | The object is that of a reply if and only if its type is that of the reply and so are its text with its length, its integer, or its elements. |
| `Objects.ZvalTells` | hooks.c:15-96 | A zval is the image of a reply if and only if it is true for a status other than PONG, false for an error or nil, the integer, the string (of `+PONG` the text with its sign), or an array with the images of the elements under 0, 1, 2 and so on. |
| `Builders.Link` | hiredis/hiredis.c:102-156 | A default constructor fills exactly the slot of its task in the parent. |
| `Builders.TryParentize` | hooks.c:4-13 | A hook adds its zval under the index of its task to the parent table. |
| `Builders.AddEntryAppends` | hooks.c:4-13 | A new key goes to the end of the table and leaves the entries before it alone. |
| `Builders.CreateString` | hooks.c:15-51 | Both constructors of strings, statuses and errors: the object shows the reply, or its image under the conversion that `Objects.ZvalTells` spells out, and the parent holds it as its next element. |
| `Builders.CreateInteger` | hooks.c:69-82 | The same for integers. |
| `Builders.CreateNil` | hooks.c:84-96 | The same for nil. |
| `Builders.CreateArray` | hooks.c:53-67 | The array is open and empty, and already linked into the parent as its next element. |
| `Reader.SeekNewline` | hiredis/hiredis.c:169-193 | The two nested loops find the first CRLF of the line or none; the look at the byte behind the range is in bounds because of the terminator. |
| `Reader.SeekBulk` | hiredis/hiredis.c:289-318 | The length line and the body are found exactly when the pure reader finds the item; the two bytes behind the body are counted and not looked at. |
| `Reader.RedisReader.ReadByte` | hiredis/hiredis.c:158-166 | A byte is taken if and only if there is one. |
| `Reader.RedisReader.ReadLine` | hiredis/hiredis.c:224-237 | A line is taken up to its first CRLF, which is consumed with it, or nothing is. |
| `Reader.RedisReader.MoveToNextTask` | hiredis/hiredis.c:239-262 | In place, the stack ends as the pure pop loop says: the asserts hold, exactly the first `idx` elements of each open array are filled, parents link adjacent slots, and a finished root shows the whole reply. |
| `Reader.RedisReader.ProcessLineItem` | hiredis/hiredis.c:264-287 | The item of the pure reader is stored in the tree, or nothing has happened. |
| `Reader.RedisReader.ProcessBulkItem` | hiredis/hiredis.c:289-330 | The same for bulk strings and nil. |
| `Reader.RedisReader.ProcessMultiBulkItem` | hiredis/hiredis.c:332-379 | An array on the third level is an error, whatever its count; below, the header opens a level, or an empty or nil array is stored. |
| `Reader.RedisReader.ProcessItem` | hiredis/hiredis.c:381-432 | One item: it leaves fewer unread bytes on the way to the same outcome, or the reader has arrived at it. |
| `Reader.RedisReader.ProcessItems` | hiredis/hiredis.c:533-536 | The loop terminates and ends where the run of the pure reader ends. |
| `Reader.RedisReader.SetError` | hiredis/hiredis.c:485-497 | The reply and the buffer are dropped, the stack is empty, and the recorded length is stale. |
| `Reader.RedisReader.Compact` | hiredis/hiredis.c:538-549 | After discarding what was consumed the buffer holds exactly the unread bytes, also when all of it was consumed. |
| `Reader.RedisReader.SetPrivdata` | hiredis/hiredis.c:456-463 | The private data is replaced if and only if there is no reply object, which is always so between replies; it then is the target of the next reply, while a reply that has been begun keeps its own. |
| `Reader.RedisReader.Feed` | hiredis/hiredis.c:504-512 | The object with its buffer refines the feed of the pure reader. |
| `Reader.RedisReader.GetReply` | hiredis/hiredis.c:514-571 | The object refines the pure reader: same status, same state, and the object handed out tells the reply by its kind: a `redisReply` tree with its type and its bytes, integer or elements, or with the PHP hooks a zval that is true for a status other than PONG, false for an error or nil, the integer, the string, or the images of the elements under 0, 1, 2 and so on, in the zval that was the private data when the reply was begun. |
| `Delivery.FetchZval` | redis.c:424-430 | One reply of the stream, whatever the chunks it arrives in, fills one new zval: true for a status other than PONG, false for an error or nil, and otherwise its integer, its string or its elements; what earlier replies are made of is left alone. |
| `Delivery.FetchZvals` | redis.c:424-430 | Asking for n replies gives, in order, zvals that picture the first n of the stream by their kinds, or all that it has: the values that `send` walks over. The reader is then ready for more, with the rest of the stream. |
| `Delivery.FetchPipelines` | redis.c:394-475 | From a new reader on: of any number of pipelines each gets zvals that picture its own replies, the next ones of the stream, whatever the chunks it arrives in, and the values of earlier pipelines stay what they were. |
| `Commands.BuildCommand` | hiredis/hiredis.c:671-683 | A buffer of the announced size is filled exactly: every write is in range and the last position is the size. |
| `Commands.FormatCommandArgv` | hiredis/hiredis.c:716-745 | With lengths the j-th argument is the first `argvlen[j]` bytes of its memory, without them the bytes before its first NUL; the reader reads the command back as the array of exactly these strings and leaves what follows alone; the computed size is the size of the text. |
| `Commands.RequestReadsBack` | hiredis/hiredis.c:716-745 | The text of a command is read as an array of its arguments as strings, whatever follows it. |
| `Commands.FormatParseRoundTrip` | hiredis/hiredis.c:716-745 | Any concatenation of formatted commands is read back as exactly these commands, with no byte left over. |
| `Format.VFormatCommand` | hiredis/hiredis.c:595-688 | When the words of a format spell non-empty arguments, `%s` the bytes before the NUL, `%b` the bytes its length covers, `%d` and `%i` the decimal numeral, two percent signs one, and other bytes themselves, the command is the array of exactly these; in general it is the command of the declarative split, in a buffer of exactly the computed size. |
| `Format.ScanFormat` | hiredis/hiredis.c:601-666 | The arguments collected are the non-empty words of the format with values interpolated, plus an empty one at the end when a value is pending there; the sizes add up. |
| `Format.ArgcFollowsFormat` | hiredis/hiredis.c:601-666 | When all interpolated values are non-empty the number of arguments depends on the format alone: spaces inside values never split. |
| `Format.EmptyValueAtEnd` | hiredis/hiredis.c:661-666 | An empty value standing alone at the end of a format is an argument. |
| `Format.EmptyValueInside` | hiredis/hiredis.c:605-614 | An empty value standing alone between any two parts of a format adds nothing, unless no text follows it and nothing else is pending at the end: then it is an argument. |
| `Format.FormatReadsBack` | hiredis/hiredis.c:595-688 | Whatever is interpolated, the reader reads the formatted command back as its arguments. |
| `Format.RenderSpells` | hiredis/hiredis.c:617-646 | What is interpolated for a value is the only text that the value spells. |
| `Format.FormatSpells` | hiredis/hiredis.c:595-666 | If the words of a format spell non-empty texts, these are its arguments. |
| `Format.WordInFormat` | hiredis/hiredis.c:595-666 | A word between spaces or the ends, with any format in front of it and behind it, is one argument with exactly what it spells, and the arguments around it are those of the two parts. |
| `Format.FormatAround` | hiredis/hiredis.c:595-688 | The same on the command: it has that argument, and the reader reads it back. |
| `Format.LonePercent` | hiredis/hiredis.c:615-624 | A percent sign at the very end of a format stands for itself, as two of them do. |
| `Context.AwaitTakesNext` | hiredis/hiredis.c:901-929 | The reply a blocking call waits for is the next one of what is buffered, what arrives and whatever comes later. |
| `Context.ArrivalStreams` | hiredis/hiredis.c:835-854 | Bytes that arrive do not disturb the accounts of the reader: replies taken and replies still in it are those of everything received. |
| `Context.TakingStreams` | hiredis/hiredis.c:892-900 | Taking a reply moves it from the reader to those taken. |
| `Context.FetchStreams` | hiredis/hiredis.c:901-929 | A whole call of `redisGetReply`, blocking or not and with whatever outcome, keeps these accounts for the bytes that have arrived meanwhile. |
| `Context.ConversationStreams` | hiredis/hiredis.c:835-940 | Whatever order commands and replies are asked for in, the replies handed out are the first of the stream of what has arrived, and the others are still to come. |
| `Context.FetchTakesNext` | hiredis/hiredis.c:901-929 | The same for `redisGetReply` as a whole, from any state of the reader. |
| `Context.AwaitStops` | hiredis/hiredis.c:918-923 | The read loop stops at the first read that fails or gives an answer, only the reads up to there count, and an I/O error, end of file, protocol error or none is recorded according to which it was. |
| `Context.FetchStops` | hiredis/hiredis.c:901-929 | A call that need not wait, or may not, reads nothing; a blocking one comes back without a reply only when the reads are used up; and it fails if and only if an error is recorded. |
| `Context.FlushStops` | hiredis/hiredis.c:910-915 | The write loop stops at the first write that fails or with which everything is written, and what is left is what the writes up to there have not taken. |
| `Context.RedisContext.AppendCommand` | hiredis/hiredis.c:938-940 | A command joins the output behind all earlier ones. |
| `Context.RedisContext.BufferWrite` | hiredis/hiredis.c:865-887 | For full, partial, zero and refused writes alike, what was issued is what the socket took followed by the buffer; an error is the only other outcome. |
| `Context.RedisContext.BufferRead` | hiredis/hiredis.c:835-854 | Bytes reach the reader, end of file and errors become the error of the context, and the output side is untouched. |
| `Context.RedisContext.Flush` | hiredis/hiredis.c:910-915 | The write loop ends as `Context.FlushStops` says of the results of the writes, and when it is done everything issued has been sent. |
| `Context.RedisContext.SetPrivdata` | hiredis/hiredis.c:456-463 | A new zval becomes the target of the next reply, and the one before is no longer touched. |
| `Context.RedisContext.RedisGetReply` | hiredis/hiredis.c:901-929 | With either set of constructors and in every case: what is handed out, where the reader is, what is left to write and which error is recorded follow from what is buffered, written and read; a call that had to wait for a reply has sent every command before. |
| `Context.Hold` | hiredis/hiredis.c:835-940 | Every conversation on the real objects, with either set of constructors: the connection goes where the pure conversation goes, and the objects it hands out tell the first replies of what has arrived by kind and content, the earlier ones untouched by the later calls. |
| `Async.CallbackList.Push` | hiredis/async.c:91-109 | On linked nodes: the callback joins the end of the list. |
| `Async.CallbackList.Shift` | hiredis/async.c:111-125 | On linked nodes: the first callback is taken off, or the list is empty; head and tail keep representing the rest. |
| `Async.CallsInOrder` | hiredis/async.c:174-206 | The n-th call of user code is for the n-th command, with the n-th reply, or NULL beyond the replies. |
| `Async.CallsKeep` | hiredis/async.c:174-206 | What has been called is not affected by commands and replies that come later. |
| `Async.AsyncContext.AsyncCommand` | hiredis/async.c:247-264 | A command is refused if and only if a disconnect is under way; otherwise its bytes join the output buffer and its callback the list. |
| `Async.AsyncContext.Fire` | hiredis/async.c:194-199 | A callback is run once, on the object that shows its reply, a NULL one not at all; of its actions those in front of the first request for a disconnect are accepted, in order, and none once a disconnect is under way. |
| `Async.AsyncContext.AsyncDisconnect` | hiredis/async.c:140-172 | After an error every pending callback has been called exactly once with NULL, in issue order, before the disconnect callback; a clean disconnect passes the assert if and only if no callback is pending. |
| `Async.AsyncContext.FireAll` | hiredis/async.c:156-160 | The drain loop terminates although callbacks try to issue commands. |
| `Async.AsyncContext.ProcessCallbacks` | hiredis/async.c:174-206 | On the real reader and output buffer: the i-th reply goes to the i-th callback ever issued, although callbacks may issue commands and ask for disconnects. Afterwards the connection is freed cleanly if and only if the protocol is intact, a disconnect was asked for, all output is written and every command has its reply; freed with a protocol error, aborted, or alive under conditions that are just as exact. |
| `Async.AsyncContext.HandleRead` | hiredis/async.c:211-221 | The same for each read event; a read that fails frees the connection with the error recorded. |
| `Async.AsyncContext.HandleWrite` | hiredis/async.c:223-240 | Bytes written and bytes left are the commands in issue order; a failed write drains the callbacks. |
| `Async.AsyncContext.Handle` | hiredis/async.c:140-264 | Whatever happens, the connection goes where a pure account of commands, callbacks and bytes says, and after a read it is alive, freed or aborted exactly under the conditions of `ProcessCallbacks`. |
| `Async.EventLoop` | hiredis/async.c:140-264 | Every run: the script and the behaviour of the callbacks determine what is accepted, sent and received, the error, and how the run ends; a run whose last event was a read ends under the exact conditions of `ProcessCallbacks`; a live connection has made exactly the calls for the replies received, and a freed one has called every callback once, with its reply or NULL, before the disconnect callback. |
| `Async.AcceptsUntil` | hiredis/async.c:247-264 | Of any list of actions everything in front of the first request for a disconnect is accepted, in order, and nothing behind it. |
| `Async.CleanDisconnect` | hiredis/async.c:140-240 | From any state: a disconnect is asked for, all output is written and an intact stream arrives. The connection is then freed if and only if there are exactly as many replies as commands, all callbacks having been called with them, in order, and the disconnect callback last; otherwise it aborts. |
| `Async.Visit` | hiredis/async.c:140-264 | From a new connection: the commands go out in order, and if there is a reply for each, the k-th callback gets the k-th reply before the clean disconnect. |
| `Async.DisconnectTooEarly` | hiredis/async.c:184-187 | A concrete run: with one command issued and written, nothing received, a disconnect asked for and no error, the assert fails, contrary to the documentation: the guard looks only at the output buffer. |
| `Validators.Zip` | library.c:69-127 | The loop that moves the hash cursor twice a round computes the table of name and value pairs. |
| `Validators.ZipLooksUp` | library.c:84-117 | In that table every name occurs once, with the value of its last pair, and nothing else occurs. |
| `Validators.StrayReadersIgnored` | redis.c:438-460 | Readers beyond the values of the EXEC reply are never reached. |
| `Validators.LockstepPairs` | redis.c:438-460 | With one value for each reader, the i-th result is the i-th value as its own reader sees it. |
| `Validators.ApplyGives` | library.c:24-127 | What each kind of reader gives for each kind of reply, PONG and tables of names and values included. |
| `Validators.LockstepGives` | redis.c:438-460 | A block gives under the keys 0, 1, 2 and so on what the k-th reader gives for the k-th item. |
| `Pipeline.GroupResults` | redis.c:424-471 | The readers queued for one command, or for one block with all its confirmations, turn its replies into its one entry, also when a later MULTI has left its status reader in the list of the block. |
| `Pipeline.EntryGives` | redis.c:424-471 | The entry of a command is what its reader gives for its reply, that of a block an array of what its readers give for the items. |
| `Pipeline.QueueAligned` | redis.c:424-471 | The main queue has one reader for each reply, and the walk over both yields one entry for each command and each block, in order; it crashes if and only if a block is empty or its EXEC reply is not an array. |
| `Pipeline.RejectionsMixUp` | redis.c:438-460 | When the server has rejected commands of a block, the walk gives every reply to EXEC the results that the accepted commands ask for, if and only if their readers are the same as the first readers of the block. |
| `Pipeline.AllAccepted` | redis.c:438-460 | Without rejected commands they are all the readers of the block. |
| `Queues.EnqueueNode` | library.c:177-188 | Appending to a linked list changes the `next` pointer of the tail and nothing else. |
| `Queues.ChainAppends` | library.c:177-188 | The list is the old one with the node at its end. |
| `Queues.ChainKept` | library.c:177-188 | No other list is disturbed. |
| `Queues.PushListKeeps` | library.c:206-207 | A node at the end of the current list leaves the main queue and all earlier lists as they were, although blocks in the main queue refer to lists. |
| `Queues.ResetListKeeps` | redis.c:507-511 | Forgetting the head and the tail of a list keeps what blocks in the main queue find in it. |
| `Queues.WalkBlock` | redis.c:438-460 | The lockstep walk over linked nodes and hash cursor computes the results of the pure walk. |
| `Queues.CommandQueues.PushMain` | library.c:200-212 | A reader joins the main queue. |
| `Queues.CommandQueues.PushList` | library.c:200-209 | A reader joins the list that `multi_tail` ends, be it stale or not. |
| `RedisSocks.GroupsKeep` | library.c:200-209 | The commands of a block leave what earlier blocks find in their lists. |
| `RedisSocks.GroupsFollowed` | redis.c:507-511 | The status reader of the next MULTI joins the list of the block before, and no other. |
| `RedisSocks.FitsCommand` | macros.h:10-20 | One command, in every mode, keeps one reader for each reply to be read. |
| `RedisSocks.FitsMulti` | redis.c:506-513 | MULTI in a pipeline keeps it, although its status reader goes to the list of the block before. |
| `RedisSocks.FitsExec` | redis.c:576-591 | EXEC in a pipeline keeps it and closes the block. |
| `RedisSocks.RedisSock.StartPipeline` | redis.c:394-408 | A pipeline starts if and only if none is active and no transaction is open, with an empty queue. |
| `RedisSocks.RedisSock.Enqueue` | library.c:190-213 | In a block a reader that skips joins the main queue and the real one the list; otherwise the real one joins the main queue. |
| `RedisSocks.RedisSock.Run` | macros.h:10-20 | A direct command returns what its kind of command gives for its reply: a string reader exactly the bytes of a string, a long reader the integer, a status reader whether it is a status other than PONG, a bool reader whether it is the integer 1, an array reader the elements in order; in a pipeline or block it returns nothing and is recorded with its reply. |
| `RedisSocks.RedisSock.Multi` | redis.c:477-516 | Outside pipelines a transaction opens if and only if the answer is a status other than PONG; a refusal leaves the `multi` flag set, so that commands are recorded behind what the list holds from before. |
| `RedisSocks.RedisSock.ExecPiped` | redis.c:576-591 | The block joins the pipeline as one group with its commands, its confirmations and the answer to EXEC, whatever that is. |
| `RedisSocks.RedisSock.ExecDirect` | redis.c:527-575 | For any answer to EXEC: the call waits for a reply that never comes if and only if the main queue was not empty when the transaction was opened; else it takes an answer that is not an array for one, or returns for each command what its reader gives for its item. |
| `RedisSocks.RedisSock.Exec` | redis.c:518-594 | The same for both modes; outside pipelines the main queue keeps its length. |
| `RedisSocks.RedisSock.Send` | redis.c:410-475 | One entry for each command and each block since `pipeline()`, in order, each with what the readers give for the replies, a block under the keys 0, 1, 2 and so on; or a crash if and only if a block is empty or was refused by the server; afterwards no reply is left over. |
| `RedisSocks.PlayPipeline` | redis.c:394-594 | Every run of a pipeline, with any answers of the server: it crashes if and only if a block is empty or refused, and otherwise the i-th entry is what the reader of the i-th command gives for its reply, or for a block an array with under key k what the k-th reader gives for the k-th item. |
| `RedisSocks.OwnReaders` | redis.c:438-460 | Unless EXEC returns more items than there were commands, the entry of a block is made by the readers of its own commands alone. |
| `RedisSocks.PlayTransaction` | redis.c:477-594 | Every transaction outside pipelines, with any answers to MULTI and EXEC: it hangs if and only if the main queue was not empty; otherwise, if the answer is an array, it returns for each command what its reader gives for its item; its own nodes stay in the queue, and after a refused MULTI the readers of an old list come first. |
| `RedisSocks.PlayProgram` | redis.c:394-594 | Every program of commands, transactions and pipelines gets exactly as far as its steps pass: a transaction hangs if and only if a direct command or a transaction with commands has been run since the last pipeline. |
| `RedisSocks.TransactionsThatHang` | redis.c:477-594 | Every transaction right behind a direct command, or right behind a transaction with commands, hangs. |
| `RedisSocks.RejectedCommand` | redis.c:527-575 | A concrete transaction whose first command is rejected: the integer of the second is taken for the string of the first, and `exec` returns false for it. |
| `Split.SplitLen` | hiredis/sds.c:278-343 | NULL if and only if there is no separator, no tokens if and only if the string is empty, and otherwise tokens free of the separator that join to the string and are leftmost; every write to the token array is in range. |
| `Split.TokensJoin` | hiredis/sds.c:278-343 | Joining the tokens with the separator gives back the string, and no separator starts inside a token. |
| `Split.SplitInvertsJoin` | hiredis/sds.c:278-343 | Splitting undoes joining if and only if the tokens are the leftmost ones. |
| `Split.TokensAreFree` | hiredis/sds.c:278-343 | No token contains the separator. |
| `Split.OneByteSplits` | hiredis/sds.c:278-343 | For a separator of one byte, splitting undoes joining if and only if no token contains it. |
| `Quote.CatRepr` | hiredis/sds.c:367-390 | The quoted form is appended; of a control escape only the backslash is. |
| `Quote.QuotedSpells` | hiredis/sds.c:367-390 | Every byte is spelled on its own, in order and between quotes: a backslash in front of a quote or backslash, a lone backslash for the control bytes 7 to 10 and 13, itself if it is between 32 and 126, and otherwise two hexadecimal digits with its value. |
| `Quote.PlainQuoted` | hiredis/sds.c:367-390 | Text of printable bytes without quotes and backslashes is quoted as it stands. |
| `Quote.SplitArgs` | hiredis/sds.c:404-479 | The two nested loops compute the arguments of the line and their count; the vector is NULL for a line without arguments, with a count of zero, and for unbalanced quotes, with a count of -1. |
| `Quote.ReadArgument` | hiredis/sds.c:416-464 | One argument: quotes, escapes, terminators and errors, and the bytes it takes. |
| `Quote.QuotedArgument` | hiredis/sds.c:404-479 | Behind any blanks and bare bytes, quotes hold an argument in which an escaped n, r, t, b or a is the byte 10, 13, 9, 8 or 7 and any other escaped byte itself; a closing quote that no blank or end follows is an error. |
| `Quote.UnclosedArgument` | hiredis/sds.c:418-424 | Quotes that are never closed are an error, with or without a lone backslash at the end. |
| `Quote.BareArgument` | hiredis/sds.c:445-464 | Without quotes an argument is its bytes up to a space, tab, CR, LF or the end. |
| `Quote.NothingOnLine` | hiredis/sds.c:411-415 | A line of blanks has no arguments. |
| `Quote.PrintableReadsBack` | hiredis/sds.c:420-445 | The inside of a quoted printable string is read back as that string, up to the closing quote. |
| `Quote.UnprintableIsLost` | hiredis/sds.c:425-432 | A quoted string with an unprintable byte is never read back as itself, whatever follows. |
| `Quote.QuoteRoundTrip` | hiredis/sds.c:367-479 | For every list of strings: quoting each, joining by single spaces and splitting is the identity if and only if all bytes are between 32 and 126. |

## Left out

* Sockets, event loops and adapters (`hiredis/net.c`, `hiredis/adapters`), and the scheduling hooks of
  the asynchronous context: foreign calls.
* Zend internals: reference counts, resources, parameter parsing, and the engine's rewriting of numeric
  string keys. A zval is a value or an ordered table of references to zvals.
* The thin PHP methods (`get`, `set`, `hset` and so on): they format a command and name a validator.
* `hmget` with its closure of field names (`library.c:129-175`); in a pipeline the names are dropped at
  `macros.h:25`.
* `exec` without `multi`: in a pipeline the code follows a NULL tail or repeats an old block; outside, it takes
  the error of the server for an array.
* Machine integers: lengths, positions and sums are mathematical, except that counts are bounded by `INT_MAX`
  and integers by `long long` where that matters. `INT_MIN` and `LLONG_MIN` are excluded.
* Out-of-memory exits, freeing of memory, NULL function tables, and error texts.
* `%f` and `sdscatvprintf`: the rendered text of a double is an input.
* Locales: `isprint` and `isspace` are those of the C locale, on unsigned bytes.
- Replies.ReadItem: an array count below -1 or beyond `int` is the fault `BadCount`, where the code runs out of
  memory, truncates the count, or with the PHP hooks goes on with an empty array.
- Reader.RedisReader.ProcessMultiBulkItem: the same counts end in `BadCount`.
- Validators.Zip: a value that is not a string counts as the empty string, where the code reads its memory as
  a string.
- RedisSocks.RedisSock.Multi: a second `multi()` or a `pipeline()` between a refused `multi()` and its `exec()` is
  not modelled: replies to other commands are then read in its place.
- RedisSocks.RedisSock.Send: the replies are those that the server has sent; that bytes become their zvals is
  `Delivery.FetchPipelines`, on a reader of its own.
