# Verification of webserv

A Dafny model of the hand-written core of an asynchronous HTTP server, with proofs of what that core promises:
its regular expression engine, its message framing in both directions, its executors, the life of a connection,
the copy and spill pipeline, and its codecs and date arithmetic. `dafny verify dfyconfig.toml` checks all of it.

Where the program changes state step by step, so does the model: objects are classes with the same fields, loops are
loops, buffers are arrays. Each such method is proved against a function of its inputs or of the old state, and the
properties of that function are lemmas. Readers and writers are adversaries: a script of results (not ready, some
bytes, end of file, failure) or of turns that a descriptor will take. As in the program, a transfer of zero bytes is
end of file (`ioruntime/IoResult.cpp:13-15`).

| files | part of the program |
|---|---|
| `RegexNodes`, `RegexSemantics`, `RegexMatcher`, `RegexCompiler`, `RegexPrinter`, `RegexTokens`, `Regex` | matching, its declarative meaning, the compiler, a printer for programs, the patterns that compile, the object |
| `Ascii`, `Numerals`, `Wrappers`, `AsyncIo` | characters, numerals, adversarial readers and descriptors |
| `CharacterStream`, `MessageSyntax`, `MessageParser`, `Framing` | parsing: the byte stream, a pure fold over bytes, the object that refines it, what the fold accepts |
| `MessageExact` | which texts are accepted, as which message, and why others are refused |
| `StandardChunks` | the chunked coding of RFC 7230, and when the parser agrees with it |
| `MessageReader`, `MessageRoundTrip` | printing, and printing followed by parsing |
| `Task`, `PooledExecutor`, `PooledHistory` | the task protocol, the concurrent executor as interleaved steps, its runs told by their steps |
| `ThreadlessExecutor`, `ThreadlessHistory` | the sequential executor, its runs told by their events |
| `SpanReader`, `IoCopyFuture`, `IncomingBody` | copying and spilling a body to a file |
| `Connection` | one client connection |
| `Calendar` | seconds to calendar dates |
| `Ipv6Text`, `Ipv6Printer`, `Ipv6Address` | the address grammar, the printed form, the in-place algorithms |
| `JsonSyntax`, `JsonGrammar`, `JsonNumbers`, `JsonRoundTrip`, `JsonSound`, `JsonUtf8`, `Json` | what the parser computes, documents, their numbers, the round trip, its converse, when strings are UTF-8, the parser object |
| `UriSyntax`, `Authority`, `Uri`, `UriExact` | request targets |
| `Base64`, `Timeouts` | the encoding; the timer queue of the reactor |

What the proofs found where the code does not do what one would expect. Each has its exact condition, for all inputs,
or a concrete input in the table below, at the member named:

- `+` compiles to the lazy plus, like `+?` (`regex/Regex.cpp:69`; PlusIsNeverGreedy, PlusIsLazy), and a bare `{m}` is
  accepted but leaves the kind of its node unset (CompiledIsWellFormed, BareCountAccepted). The check of a range in
  brackets looks past its upper end, so `[z-a]` is taken and `[a-z!]` refused (RangeOrderUnchecked, CompileExact).
- An empty header value, or an empty name behind the first header, ends the header block early
  (`http/MessageReader.cpp:26-64`; HeadersPrintedInFull).
- After the last chunk the parser leaves the final CRLF unread (`http/MessageParser.cpp:453-497`; FeedDechunks).
- Chunk sizes may be written with all letters, not only HEXDIG, and wrap at 64 bits; chunk extensions with a value are
  refused and such without a name taken (StandardExact). Percent escapes take all letters as well
  (StandardTextExact).
- A wake-up that arrives while its task is being polled is dropped by the pooled executor
  (`futures/Task.cpp:11-12`; WakeUpTaken, WakeUpLost), so a task can be left waiting for ever.
- `UriExceededBuffer`, `InvalidMethod` and `UnsupportedVersion` derive privately (`http/RequestParser.hpp:16-29`), so
  the handler in `http/Server.cpp:151` does not catch them and they leave the poll instead of becoming error pages. A
  failing answer becomes a page if it comes in the poll that read the request and leaves the poll if it comes later
  (`http/Server.cpp:208-216`; ConnectionFuture.Poll).
- The second check of `secs_to_tm` (`utils/localtime.hpp:84-85`) never refuses anything: a year it would refuse has
  overflowed an `int` before, and many times that pass the first check do so (SecsToTm, OverflowZones).
- An address with two runs of two or more zero groups is printed with two `::` and does not parse (RoundTrip).
- Short negative JSON integers read as zero (`json/Json.cpp:596-600`; NegativeReadsZero), and a lone surrogate escape
  gives a string that is no UTF-8 (DecodedIsUtf8, LoneSurrogate). The character behind the digits of a fraction or an
  exponent is swallowed, whatever it is, and an exponent behind a fraction is taken only behind that character and
  does not count (`json/Json.cpp:602-619`; ParseExact, ReadNumeral).
- Encoding base64 reads one byte behind a text that is not a multiple of three (`utils/base64.cpp:67-83`;
  StandardWhen); decoding does not notice. Decoding takes padding in any group (DecodeExact).
- An absolute target without a path is refused when its query or fragment holds a slash (`http/Uri.cpp:457-466`;
  AbsoluteExact).
- Absolute targets are printed without the marks of query and fragment (`http/Uri.hpp:149-168`; AbsoluteReprint).
- A disconnected timeout fires nevertheless if no step comes before its deadline
  (`ioruntime/TimeoutEventHandler.cpp:27-46`; DisconnectedFate).

## Model

| member | source | states |
|---|---|---|
| RegexMatcher.MatchPattern | regex/Regex.cpp:341-371 | For every well-formed program, text, node and position: no match is returned exactly when no derivation exists, and otherwise the end returned is that of the derivation the greedy (largest count first) and lazy (smallest count first) quantifiers prefer. Each nested call has fewer nodes left, so the recursion ends. |
| RegexMatcher.MatchQuantity | regex/Regex.cpp:302-315 | Greedy repetition answers the declarative semantics of node, quantifier and rest, for every minimum and maximum, also when the minimum cannot be reached. |
| RegexMatcher.MatchQuantityLazy | regex/Regex.cpp:317-339 | Lazy repetition answers the same declarative semantics with the smallest count first. |
| RegexMatcher.MatchCharacterClass | regex/Regex.cpp:236-262 | A character is matched exactly when some range the bracket text denotes holds it; both ends of a range also count alone, and the upper end may start the next range. |
| RegexMatcher.MatchOne | regex/Regex.cpp:264-300 | A one-character node matches exactly the characters of its kind; every other node matches none. |
| RegexEngine.Regex.Match | regex/Regex.cpp:373-403 | The match found starts at the leftmost position that has one (only at the start after a leading `^`), ends where the preferred derivation ends, and is absent exactly when no position has one; an empty text has none. |
| RegexEngine.LeftmostAnswerIsUnique | regex/Regex.cpp:373-403 | That specification determines the result: two results that both meet it are equal. |
| RegexSemantics.AnswerIsUnique | regex/Regex.cpp:341-371 | The preferred end is unique, so the matcher specification is a function of program, text and position. |
| RegexSemantics.PreferenceIsStrict | regex/Regex.cpp:302-339 | Two derivations that are each at least as preferred as the other are the same one, counts and end. |
| RegexSemantics.DerivationEnds | regex/Regex.cpp:341-371 | No derivation leaves the text or moves backwards. |
| RegexSemantics.ChooseCount | regex/Regex.cpp:302-339 | A repetition count is right when the rest matches behind it and every count the quantifier would rather take leaves the rest without a match. |
| RegexEngine.Regex.Compile | regex/Regex.cpp:17-208 | The compiler succeeds exactly on the patterns the specification accepts and leaves exactly the specified program at the front of its table, one the matcher can run if and only if the pattern has no bare count; after a failure there is none. |
| RegexEngine.Regex.CompileNode | regex/Regex.cpp:40-200 | One round of the compiler loop: node, next position, whether a quantifier may follow, bytes of the class buffer used, or an error. |
| RegexEngine.Regex.ParseBracket | regex/Regex.cpp:111-152 | Bracket contents with the range check and the bound of the class buffer. |
| RegexEngine.Regex.ParseMin | regex/Regex.cpp:158-171 | The lower bound of a count, at least one digit, wrapping at 64 bits. |
| RegexEngine.Regex.ParseMax | regex/Regex.cpp:173-192 | The upper bound of a count. |
| RegexCompiler.CompiledIsWellFormed | regex/Regex.cpp:17-208 | The program of an accepted pattern ends in its only end node within 64 entries, has every quantifier directly behind a one-character node and its bounds in order, if and only if none of the first 63 tokens of the pattern text is a count that closes before any comma. |
| RegexCompiler.StepReadsToken | regex/Regex.cpp:40-200 | An accepted step reads exactly one token of the pattern text, and leaves its node unset exactly when the token is a bare count. |
| RegexCompiler.BareCountExact | regex/Regex.cpp:154-196 | From any place of an accepted pattern, the compiled program has an unset node exactly when the text has a bare count. |
| RegexCompiler.BareCountAccepted | regex/Regex.cpp:154-196 | An input: the pattern `a{2}` is accepted and its second node has no kind. |
| RegexCompiler.PlusIsNeverGreedy | regex/Regex.cpp:64-70 | No accepted pattern compiles to the greedy plus. |
| RegexEngine.PlusIsLazy | regex/Regex.cpp:64-70 | An input: `a+` and `a+?` compile to the same program, and on two letters it matches one. |
| RegexPrinter.CompileUndoesPrint | regex/Regex.cpp:17-208 | Compiling the printed form of a printable program of at most 63 nodes gives the program back. |
| RegexPrinter.PrintingIsFaithful | regex/Regex.cpp:17-208 | For every accepted pattern whose text has no bare count, the printed program compiles to the same program: what the compiler forgets (such as `+` and `+?` both being lazy) it forgets once. |
| RegexPrinter.CompiledIsPrintable | regex/Regex.cpp:17-208 | Every program the compiler produces from a text without a bare count is printable: the round trip leaves out none of them. |
| RegexTokens.CompileExact | regex/Regex.cpp:17-208 | Exactly which patterns compile, and to what: a pattern compiles to a program if and only if it is a row of well-formed tokens (or begins with 63 of them), each allowed where it stands, and the program is their nodes. Every way of writing a count, an escape, brackets and laziness is a token; counts wrap at 64 bits and must keep 1024 and their order. |
| RegexTokens.RangeOrderUnchecked | regex/Regex.cpp:136-146 | Two inputs: `[z-a]` compiles, and `[a-z!]` does not, because the check of a range looks at the character behind its upper end. |
| Numerals.Uint64ToHexstring | utils/utils.hpp:233-252 | The digits collected from the back and reversed are the hexadecimal numeral. |
| Numerals.Uint64ToString | utils/utils.hpp:254-273 | The same for the decimal numeral. |
| Numerals.HexstringToUint64 | utils/utils.hpp:210-231 | Left to right evaluation modulo 2^64 with the partial overflow check, an error for an empty text or another character. |
| Numerals.StringToUint64 | utils/utils.hpp:170-188 | The same for decimal text; the empty text is zero. |
| Numerals.ReadPrintedHex | utils/utils.hpp:210-252 | Every 64-bit number survives printing and reading in hexadecimal. |
| Numerals.ReadPrintedDecimal | utils/utils.hpp:170-188 | Every 64-bit number survives printing (utils.hpp:254-273) and reading in decimal. |
| Numerals.HexReadExactly | utils/utils.hpp:210-231 | HEXDIG text is read as the number it denotes if and only if that fits 64 bits. |
| Numerals.ReadExactly | utils/utils.hpp:170-231 | Any text, decimal or hexadecimal: it reads if and only if it is all digits and no shift makes the wrapped number smaller, and then as what it denotes modulo 2^64. |
| Numerals.DecimalReads | utils/utils.hpp:170-188 | Decimal text below 2^64 is read as the number it denotes, however many leading zeros it has. |
| CharacterStreams.CharacterStream.PollNext | ioruntime/CharacterStream.cpp:18-51 | A character delivered is the first of what remains; pending and end of file lose nothing, end of file comes only when nothing is left, and a failed read throws. |
| CharacterStreams.CharacterStream.ShiftBack | ioruntime/CharacterStream.cpp:53-56 | A pushed-back character is the next to be delivered. |
| MessageParsers.MessageParser.Settle | http/MessageParser.cpp:102-113 | Polled as long as anything is left to happen, the parser ends with the outcome of a pure fold over the delivered bytes and the way they end, and leaves the same bytes unread: reads of any size, pending results, push-backs and copy delays do not matter. Only a copy into the body that fails can throw instead. |
| MessageParsers.MessageParser.Poll | http/MessageParser.cpp:102-113 | One poll either keeps the prospective outcome and waits, or reports exactly it: the message, or the kind of error. |
| MessageParsers.MessageParser.InnerPoll | http/MessageParser.cpp:259-554 | One step keeps the prospective outcome; what is left to do shrinks with every step that goes on. |
| MessageParsers.MessageParser.HandleByte | http/MessageParser.cpp:270-542 | A byte is consumed, or pushed back while a chunk is still being copied; either way the outcome over this byte and the rest stays the same. |
| MessageParsers.MessageParser.TakeByte | http/MessageParser.cpp:272-512 | The effect of one byte in each state is that of the pure step. |
| MessageParsers.MessageParser.TakeHeaderLine | http/MessageParser.cpp:318-430 | A header line is split, trimmed, validated and recorded as the pure step does, with the same error kinds. |
| MessageParsers.MessageParser.TakeSizeLine | http/MessageParser.cpp:453-497 | A chunk size line: extension cut off, size read, body limit checked, last chunk finished. |
| MessageParsers.MessageParser.AppendChunk | http/MessageParser.cpp:513-539 | A finished chunk is appended to the body under the body limit when the copy is through; it waits and throws exactly when the copy does. |
| MessageParsers.ValidateFieldName | http/MessageParser.cpp:117-132 | Accepts exactly the names made of token characters. |
| MessageParsers.TrimFieldValue | http/MessageParser.cpp:134-143 | Removes the blanks at both ends and nothing else. |
| MessageParsers.ValidateFieldValue | http/MessageParser.cpp:145-161 | Accepts exactly the values made of visible characters and blanks. |
| MessageSyntax.JudgeTake | http/MessageParser.cpp:259-554 | The whole-input outcome unfolds over one byte. |
| Framing.FeedLine | http/MessageParser.cpp:273-283 | A line ends at the first CRLF wherever the reads were cut; without one, or with one too far away, the message is not complete. |
| Framing.FeedBlankLine | http/MessageParser.cpp:284-316 | The blank line is taken at once and hands what follows to the choice of the body, which MessageExact, UnframedRoundTrip and SizedVerdict state by the headers. |
| Framing.FeedHeaders | http/MessageParser.cpp:273-430 | A printed header block is read back as the same list of headers, with the framing the headers ask for. |
| Framing.FeedChunk | http/MessageParser.cpp:498-512 | A chunk is taken exactly when that many bytes and a CRLF stand there and fit the buffer; nothing else completes. |
| Framing.FeedDechunks | http/MessageParser.cpp:443-539 | For all input, in both directions: a chunked body completes exactly when a separate recursive reader of lines and chunks accepts it under the limits, with the concatenation of the chunk data and the same rest unread. |
| StandardChunks.StandardExact | http/MessageParser.cpp:443-539 | A second reader follows the grammar of sections 4.1 and 4.1.1 of RFC 7230 up to the trailer. While every size line met is HEXDIG digits below 2^64 with extensions that are just names, both readers decode the same; a text both decode has only such lines. |
| StandardChunks.ParserMeetsStandard | http/MessageParser.cpp:443-539 | The parser delivers exactly the bodies of the standard while the size lines conform, and never one of the standard when a line does not. |
| StandardChunks.LineExact | http/MessageParser.cpp:453-480 | Parser and standard read the same size from a line if and only if it conforms. |
| StandardChunks.ValuesRefused | http/MessageParser.cpp:453-470 | Extensions of the standard are taken if and only if none has a value. |
| StandardChunks.EmptyNamesTaken | http/MessageParser.cpp:453-470 | What is taken as extensions meets the standard if and only if every one has a name. |
| StandardChunks.LetterTaken | utils/utils.hpp:218-221 | An input: the size `G` is read as 16. |
| StandardChunks.WideSizeWraps | utils/utils.hpp:222-227 | Sizes over 64 bits wrap whenever shifting them does not make the number smaller. |
| StandardChunks.ValueRefused | http/MessageParser.cpp:453-470 | An input: the line `1;a=b` is refused. |
| StandardChunks.EmptyNameTaken | http/MessageParser.cpp:453-470 | An input: the line `1;;` is taken. |
| Framing.FeedBody | http/MessageParser.cpp:432-442 | A body of known length completes exactly when the length keeps the limits and that many bytes come; it is those bytes, and the rest stays unread. |
| Framing.DechunkPrinted | http/MessageParser.cpp:443-539 | The recursive chunk reader undoes the chunk printer, and leaves just the last CRLF and what follows. |
| Framing.ChunkedRoundTrip | http/MessageParser.cpp:259-554 | Printed headers with a chunked body, in any chunks, parse to the same headers and body; the final CRLF stays unread. |
| Framing.LengthRoundTrip | http/MessageParser.cpp:259-554 | The same for a body of declared length; nothing of it stays unread. |
| Framing.PlainHeadersAccepted | http/MessageParser.cpp:339-427 | Headers without a check of their own never fail; the body is chunked exactly when one of them is `Transfer-Encoding`. |
| Framing.LimitsHold | http/MessageParser.cpp:261-263 | In every reachable state the buffer holds at most one byte more than its limit, and a completed body at most the body limit. |
| Framing.AcceptedWithinLimit | http/MessageParser.cpp:432-539 | No accepted message has a body over the limit. |
| MessageExactness.MessageExact | http/MessageParser.cpp:259-554 | Exactly which texts are accepted, as which message, with what left unread, without mention of any step: well-formed header lines within the buffer, each header acceptable and at most one a Host, the empty line, and then no body, the announced length, the chunks, or everything up to the end of input. |
| MessageExactness.UnframedRoundTrip | http/MessageParser.cpp:310-315 | Printed headers that announce neither a length nor chunks: the body is all that follows when the input ends; an open input waits, a broken one fails, and a body over a limit is refused for the smaller of the two. |
| MessageExactness.BodilessRoundTrip | http/MessageParser.cpp:293-297 | A message that can have no body ends with the empty line, and all behind it stays unread. |
| MessageExactness.SizedVerdict | http/MessageParser.cpp:298-305 | Printed headers that announce a length, for every input behind them: the verdict, the bytes left unread and the error of a limit passed or an end that comes too soon. |
| MessageExactness.EffectsExact | http/MessageParser.cpp:339-427 | Headers are accepted if and only if every length reads, every coding is `chunked`, the checked ones pass and at most one is a Host; the length that counts is the last one. |
| MessageExactness.LineRefused | http/MessageParser.cpp:318-427 | Why a text is refused at its first bad line: malformed when the line is no header line, and otherwise what is wrong with the header, a second Host included. |
| MessageExactness.SplitLine | http/MessageParser.cpp:318-337 | A line that is not a name, a colon, blanks, a value and blanks is malformed. |
| MessageExactness.ChunkRefused | http/MessageParser.cpp:453-511 | Why a chunk is refused: its line does not read, its size passes the body limit, or CRLF does not stand behind its data. |
| MessageExactness.CutShort | http/MessageParser.cpp:545-550 | A message that waits for more is an unexpected end when the input ends there, unless that is how its body ends. |
| MessageReaders.HeadersReader.PollRead | http/MessageReader.cpp:26-64 | Each read hands out a non-empty piece of what is left to print, at most as long as the buffer; end of file comes when nothing is left. |
| MessageReaders.HeadersPrintedInFull | http/MessageReader.cpp:26-64 | The headers are printed in full if and only if no value and no later name is empty: an empty piece reads as end of file. |
| MessageReaders.ChunkedBodyReader.PollRead | http/MessageReader.cpp:84-149 | Pieces of any size add up to the chunk-framed body; pending results lose nothing and use up a delay of the source, and a failed read is an error. |
| MessageReaders.ChunkedBodyReader.PollBody | http/MessageReader.cpp:84-149 | Each read of the body becomes the size, the data and the line ends of one chunk, or the closing chunk. |
| MessageReaders.MessageReader.PollRead | http/MessageReader.cpp:162-209 | The bytes handed out are, in order, the headers, the blank line and the body in the framing the headers ask for. |
| MessageReaders.MessageReader.PollHead | http/MessageReader.cpp:164-201 | The same for the header block and the switch to the blank line. |
| MessageReaders.MessageReader.PollTerminator | http/MessageReader.cpp:151-158 | The blank line is handed out in full, in as many pieces as the buffer needs. |
| MessageReaders.Drain | http/MessageReader.cpp:162-209 | After any sequence of non-empty buffers, what was emitted followed by what is left is the message; at the end it is the message, and enough buffers get there unless the body never ends. |
| MessageReaders.ChunksCarryBody | http/MessageReader.cpp:84-149 | However the body arrives, its chunks concatenate to it and each is non-empty and fits the data buffer. |
| MessageReaders.PrintedMessageParses | http/MessageReader.cpp:162-209 | For every list of printable headers that the parser accepts and that ask for chunks, and every body however it arrives, the parser accepts what the printer prints as the same headers and body, leaving the final CRLF. |
| MessageReaders.PrintedSizedMessageParses | http/MessageReader.cpp:162-209 | The same with a correct `Content-Length`, leaving nothing. |
| MessageReaders.LengthStays | http/MessageParser.cpp:339-427 | An accepted Content-Length header, and nothing else, leaves a length, and no later header removes it: headers accepted as chunked are printed as chunked. |
| MessageRoundTrip.Transmit | http/MessageReader.cpp:162-209 | End to end, with the printer writing into buffers of any sizes and the parser reading in any pieces with any delays: with enough buffers the printer gets to its end, and once its bytes have arrived the parser has completed the same message, chunked or with a `Content-Length`, for all headers the parser accepts, unless copying the body failed. |
| MessageRoundTrip.Receive | http/MessageParser.cpp:102-113 | A fresh parser on any arrival ends with the outcome of the fold over the delivered bytes, unless copying the body fails. |
| Tasks.Task.Consume | futures/Task.cpp:8-23 | The result, the future handed out and all three fields afterwards are those of the protocol, also in the states no run reaches. |
| Tasks.Task.Deconsume | futures/Task.cpp:25-31 | The future is back and both flags are off. |
| Tasks.ConsumeExcludes | futures/Task.cpp:8-31 | A consumed task refuses every further consume until it is put back, and putting it back restores it exactly. |
| PooledExecutors.FuturesAreExclusive | ioruntime/PooledExecutor.cpp:97-143 | In every reachable state of every interleaving: at most one worker holds a task; a worker that polls has the task's own future, never none, of a task neither finished nor failed; stale equals in use for every task. |
| PooledExecutors.NeverPolledAgain | ioruntime/PooledExecutor.cpp:130-143 | However a run goes on, no worker ever holds a task that polled ready or threw. |
| PooledExecutors.CounterIsBalanced | ioruntime/PooledExecutor.cpp:90-95 | The counter is the number of unfinished tasks, less the spawns not yet pushed or counted, plus the completions not yet counted; with none outstanding it is positive exactly while a task is unfinished. |
| PooledExecutors.ReachableInvariant | ioruntime/PooledExecutor.cpp:47-143 | The invariant behind these holds in every reachable state, for any number of workers. |
| PooledExecutors.RunKeeps | ioruntime/PooledExecutor.cpp:47-143 | Every run from a state with the invariant ends in one. |
| PooledExecutors.StepKeeps | ioruntime/PooledExecutor.cpp:47-196 | Every atomic step of every thread keeps the invariant. |
| PooledExecutors.InitInvariant | ioruntime/PooledExecutor.cpp:11-45 | The executor starts in it, whatever the number of workers. |
| PooledExecutors.BeginSpawnKeeps | ioruntime/PooledExecutor.cpp:47-69 | Choosing the queue for a new task keeps the invariant. |
| PooledExecutors.PushSpawnKeeps | ioruntime/PooledExecutor.cpp:47-69 | Pushing it does, before it is counted. |
| PooledExecutors.CountSpawnKeeps | ioruntime/PooledExecutor.cpp:47-69 | Counting it does, however late. |
| PooledExecutors.PushWakeKeeps | ioruntime/PooledExecutor.cpp:71-88 | Queueing a task again does, also when it is running or done. |
| PooledExecutors.PopKeeps | ioruntime/PooledExecutor.cpp:110-118 | Taking a task from the own queue does. |
| PooledExecutors.StealKeeps | ioruntime/PooledExecutor.cpp:175-196 | Taking one from another queue does. |
| PooledExecutors.TakeKeeps | ioruntime/PooledExecutor.cpp:132 | Consuming it does, whether it succeeds or not. |
| PooledExecutors.ReturnKeeps | ioruntime/PooledExecutor.cpp:134-135 | Putting a pending future back does. |
| PooledExecutors.PollReadyKeeps | ioruntime/PooledExecutor.cpp:136-139 | A future that is ready does, before the counter follows. |
| PooledExecutors.CountDoneKeeps | ioruntime/PooledExecutor.cpp:136-139 | Counting the completion does. |
| PooledExecutors.PollThrowKeeps | ioruntime/PooledExecutor.cpp:141-143 | A future that throws does; its task is never counted as completed. |
| PooledExecutors.WakeUpTaken | ioruntime/PooledExecutor.cpp:130-143 | A queued wake-up leads to a poll if and only if nobody holds the task at that moment and it has neither finished nor failed. |
| PooledExecutors.WakeUpLost | ioruntime/PooledExecutor.cpp:97-143 | A concrete run with two workers in which a wake-up of an unfinished task is dropped and everything comes to rest with the task never polled again. |
| PooledHistories.EndedForGood | ioruntime/PooledExecutor.cpp:130-143 | By the steps of a run alone: after a poll of a task was ready or threw, no worker holds the task in any later state and its future is gone, however often it is woken. |
| PooledHistories.EntriesConserved | ioruntime/PooledExecutor.cpp:47-143 | In every run, the spawns and wake-ups of a task are exactly its consumes and its entries on the way, in queues or just taken: none is lost between queueing and consuming, and none is made up. |
| PooledHistories.FuturesConserved | ioruntime/PooledExecutor.cpp:97-143 | In every run, the future of a spawned task is in exactly one place, its task or one pair of hands, until the poll that ends it. |
| PooledHistories.ConsumedWhenPresent | ioruntime/PooledExecutor.cpp:130-132 | A worker that has taken an entry polls the task exactly when its future is there. |
| PooledHistories.CounterCountsSteps | ioruntime/PooledExecutor.cpp:90-95 | In every run the counter is the counting steps of spawns less those of completions, and the ready polls and spawns are those steps plus the ones still outstanding: k ready polls and their k completions lower it by k. |
| PooledHistories.QueuesAreFifo | ioruntime/PooledExecutor.cpp:47-118 | A step appends to a queue, takes its front, or leaves it alone. |
| PooledHistories.QueuesTakeTurns | ioruntime/PooledExecutor.cpp:47-88 | In every run the next spawn or wake-up goes to the queue whose turn it is, counting both. |
| PooledHistories.IdleFinds | ioruntime/PooledExecutor.cpp:107-121 | An idle worker with an empty queue gets, by its own steps alone, to the front of the first other queue that has any entry, and leaves the other queues as they are. |
| PooledHistories.StealFinds | ioruntime/PooledExecutor.cpp:175-196 | The search passes over its own queue and empty ones and stops at the first that has an entry. |
| ThreadlessExecutors.ThreadlessExecutor.Step | ioruntime/ThreadlessExecutor.cpp:28-59 | A step replays the script until the queue is empty: queue, tasks, counter, script and history afterwards are exactly those of the replay; every queued wake-up in the history was followed by a poll begun after it or its task was over; it reports more work exactly while the counter is positive. |
| ThreadlessExecutors.ThreadlessExecutor.RunFront | ioruntime/ThreadlessExecutor.cpp:36-57 | One round takes the front entry: a task that is over is dropped; otherwise its poll is recorded, then what the event of the script asks for, then the end its result says, and the queue, counter and script follow. |
| ThreadlessExecutors.ThreadlessExecutor.Serve | ioruntime/ThreadlessExecutor.cpp:12-21 | What a poll asks for is queued and recorded task by task in order, each spawn counted, and nothing else. |
| ThreadlessExecutors.AskedExactly | ioruntime/ThreadlessExecutor.cpp:12-21 | One request more adds a fresh task, the task it names, or nothing when that task does not exist. |
| ThreadlessHistories.EveryRun | ioruntime/ThreadlessExecutor.cpp:12-59 | Every run of spawns, wake-ups and steps, by its history alone: entries leave the queue in the order they came and none is lost, only a task that is not over is polled, the k-th poll is answered by the k-th event of the script to the letter, and the counter is the spawned tasks less the ready polls. |
| ThreadlessExecutors.ThreadlessExecutor.BeginPoll | ioruntime/ThreadlessExecutor.cpp:44-45 | A consumed task is marked and its poll recorded. |
| ThreadlessExecutors.ThreadlessExecutor.EndPoll | ioruntime/ThreadlessExecutor.cpp:46-56 | Pending puts the future back, ready counts down once, a throw does not; the front is popped in all three cases. |
| ThreadlessExecutors.ThreadlessExecutor.DropFront | ioruntime/ThreadlessExecutor.cpp:44-52 | A task that cannot be consumed is over, so dropping it loses no wake-up. |
| ThreadlessExecutors.ThreadlessExecutor.Spawn | ioruntime/ThreadlessExecutor.cpp:12-16 | A spawned task is queued last and counted. |
| ThreadlessExecutors.ThreadlessExecutor.Respawn | ioruntime/ThreadlessExecutor.cpp:18-21 | A woken task is queued last and not counted. |
| ThreadlessExecutors.CounterIsUnfinished | ioruntime/ThreadlessExecutor.cpp:28-59 | The counter is never negative and is zero exactly when every spawned task has polled ready. |
| Connections.Serve | http/Server.cpp:130-287 | Over any number of polls with any behaviour of parser, handler, answer, pages, timer and socket, what the peer saw after each is a prefix of the serialization of one response. If a request and its answer come, nothing fails and the timer stays quiet, then with enough useful turns of the socket and enough polls the connection ends with exactly the serialization of that answer on the socket, without its body for HEAD. |
| Connections.SeenIsPrefix | http/Server.cpp:130-287 | In every valid state the peer has seen a prefix of the response in force, and nothing before there is one. |
| Connections.ConnectionFuture.Poll | http/Server.cpp:130-287 | One poll never goes back a state, only appends to the socket, replaces a response at most once and only before its first byte, cuts one off or replaces it only after trouble; an answer that comes becomes the response in the same poll; waiting while responding uses a turn of the socket or finds none left; and a connection nothing goes wrong with is done or nearer to it. |
| Connections.ConnectionFuture.PollRespond | http/Server.cpp:217-282 | While responding: the connection is cut off or a response replaced only if the body or the socket was going to fail or the timer to fire; waiting uses up a turn of the socket or finds none left; recovery nests once. |
| Connections.ConnectionFuture.Recover | http/Server.cpp:236-281 | An error page takes over if and only if no recovery happened, nothing was written and the page can be made; otherwise nothing changes. |
| Connections.ConnectionFuture.CopyOrTimeOut | http/Server.cpp:218-235 | The copier runs first, the timer only when it waits; which failure is reported and when, and that waiting restarts the inactivity count and uses a turn of the socket. |
| Connections.ConnectionFuture.PollListen | http/Server.cpp:133-207 | A request moves on, a failure is answered by the page of its status, the three privately derived parser errors escape. |
| Connections.ConnectionFuture.Hear | http/Server.cpp:134-150 | What the parser and the timer say, with a refusing handler counted as a failure. |
| Connections.ConnectionFuture.Answered | http/Server.cpp:151-206 | Which failures get a page, which escape, and that a failing page closes the connection. |
| Connections.ConnectionFuture.PollAnswer | http/Server.cpp:208-216 | The answer that comes is the response in force unless a page has replaced it; without one nothing happens to the socket; it leaves the poll as an exception exactly when the answer failed. |
| Connections.ConnectionFuture.TakeAnswer | http/Server.cpp:210-216 | The answer becomes the response and its copy begins in the same poll. |
| Connections.ConnectionFuture.TakeOver | http/Server.cpp:236-281 | After trouble the page is copied in the same poll, or the connection closes. |
| Connections.ConnectionFuture.CopyOn | http/Server.cpp:218-235 | A failure of the copy is trouble that was coming; without one, a connection nothing goes wrong with has its response out or still has what it takes. |
| Connections.ConnectionFuture.SwitchToRespondMode | http/Server.cpp:117-127 | The copier starts afresh on this very response, without its body for HEAD. |
| Connections.ConnectionFuture.RespondWithPage | http/Server.cpp:195-200 | A page that can be made becomes the response; otherwise nothing changes. |
| IoCopyFutures.IoCopyFuture.Poll | ioruntime/IoCopyFuture.hpp:149-203 | Whatever reader and writer do, bytes accepted followed by the unsent buffer and the unread source are the source; the written count is exact; it completes only at the end of the source with everything accepted; copying from memory, every turn of the writer that can move a byte does, but for one at the end; the nesting of calls is bounded. |
| IoCopyFutures.IoCopyFuture.WriteOnce | ioruntime/IoCopyFuture.hpp:180-197 | One write and what follows: every useful turn moves a byte, pays for an empty read, or completes the copy. |
| IoCopyFutures.IoCopyFuture.Read | ioruntime/IoCopyFuture.hpp:153-167 | A read gets the free, never empty part of the buffer. |
| IoCopyFutures.IoCopyFuture.Fill | ioruntime/IoCopyFuture.hpp:152-179 | Reading ends with a full buffer, a pending read or the end of the source, and loses nothing. |
| IoCopyFutures.IoCopyFuture.Write | ioruntime/IoCopyFuture.hpp:180-189 | A partial write advances the span by what was accepted. |
| IoCopyFutures.IoCopyFuture.Accept | ioruntime/IoCopyFuture.hpp:188-189 | The accepted prefix moves from the buffer to the writer and into the count. |
| IoCopyFutures.IoCopyFuture.Finish | ioruntime/IoCopyFuture.hpp:190-197 | An emptied span completes the copy after end of file and goes back to reading otherwise. |
| IoCopyFutures.CopyAll | ioruntime/IoCopyFuture.hpp:149-203 | Polled while the writer has turns left, a copy that completes has written the source exactly; it throws only if the reader or the writer failed; and with more useful turns than bytes and reads it does not stay waiting. |
| SpanReaders.SpanReader.PollRead | http/SpanReader.cpp:14-26 | Hands out the longest prefix that fits, or end of file for none, and counts it. |
| SpanReaders.Source.Poll | http/SpanReader.cpp:14-26 | What both kinds of source guarantee to a copy. |
| AsyncIo.FileDescriptor.PollRead | ioruntime/FileDescriptor.cpp:56-99 | A successful read returns the bytes at the offset and advances it, nothing else moves it; exactly when it is pending and when it fails. |
| AsyncIo.FileDescriptor.PollWrite | ioruntime/FileDescriptor.cpp:101-146 | A successful write appends the prefix of the slice its turn allows; pending and error write nothing, and when they come. |
| IncomingBodies.WriteThenRead | http/IncomingBody.cpp:9-83 | A body given any chunks and then read to its end yields exactly the concatenation of the chunks, across the asynchronous switch to a file with pending and partial transfers. A body below the threshold always comes through, and any other does if the file never fails and takes at least two turns for each byte and two more in which it can move something. |
| IncomingBodies.WriteAll | http/IncomingBody.cpp:34-78 | Offering the unaccepted rest again and again appends every byte once; it gets stuck only when the file has no turns left and had too few useful ones. |
| IncomingBodies.ReadAll | http/IncomingBody.cpp:9-32 | Reading hands out the accepted bytes in order from the position on; it gets stuck only when the file has no turns left and had no more useful ones than bytes. |
| IncomingBodies.WriteEach | http/IncomingBody.cpp:34-78 | The same for chunk after chunk: every useful turn of the file beyond those the switch takes moves a byte. |
| IncomingBodies.IncomingBody.PollWrite | http/IncomingBody.cpp:34-78 | Each result says exactly which prefix of the buffer the body gained; waiting and converting gain nothing; a body stays in memory exactly below the threshold. |
| IncomingBodies.IncomingBody.Write | http/IncomingBody.cpp:34-78 | The same without the rewind mark, with the nested calls of the switch bounded. |
| IncomingBodies.IncomingBody.BeginConverting | http/IncomingBody.cpp:53-58 | The switch starts a copy of exactly the bytes in memory. |
| IncomingBodies.IncomingBody.Convert | http/IncomingBody.cpp:41-51 | When the copy is through, the file holds exactly those bytes and takes over. |
| IncomingBodies.IncomingBody.WriteToVector | http/IncomingBody.cpp:60-63 | In memory the whole buffer is appended. |
| IncomingBodies.IncomingBody.WriteToFile | http/IncomingBody.cpp:67-76 | In the file a prefix is appended and the size follows it. |
| IncomingBodies.IncomingBody.PollRead | http/IncomingBody.cpp:9-32 | A read hands out the next bytes of the contents and changes nothing else; end of file comes at the end. |
| Calendar.SecsToTm | utils/localtime.hpp:27-102 | For every time, negative ones included: it is refused exactly when the first check refuses it, an `int` of the computation overflows exactly outside the stated range, at the stated place, and inside it the fields form the one date whose seconds are the time, with the right weekday and day of the year. The second check never refuses anything. |
| Calendar.SplitSeconds | utils/localtime.hpp:40-50 | Truncating division and correction give days, seconds of the day and the weekday. |
| Calendar.SplitDays | utils/localtime.hpp:52-79 | The 400, 100, 4 and 1 year steps give the year counted from March and its day, and whether the year is a leap year; multiplying or adding up overflows exactly for the stated years. |
| Calendar.SplitCycle | utils/localtime.hpp:59-72 | Within 400 years the capped quotients account for every day, and a 366th day is left only at the end of a leap year. |
| Calendar.FindMonth | utils/localtime.hpp:81-82 | The month loop stays in its table and finds the month of the day. |
| Calendar.DateIsUnique | utils/localtime.hpp:27-102 | No two dates have the same seconds. |
| Calendar.LastYearOverflows | utils/localtime.hpp:84-92 | An input: at the first second of the year after the last one, both checks pass and the year field overflows, because it is stepped after them. |
| Calendar.OverflowZones | utils/localtime.hpp:37-92 | All times that pass the first check and overflow nevertheless, in seconds, by the place where they do. |
| Calendar.OverflowInputs | utils/localtime.hpp:52-85 | An input for each other place: the first second the second check would refuse, the first whose year is no `int`, and the lowest the second check would let through. |
| Calendar.Cycles | utils/localtime.hpp:52-79 | Day counts of the cycle constants agree with leap year counting. |
| Calendar.DateFromMarch | utils/localtime.hpp:84-95 | March to December: the fields denote the day. |
| Calendar.DateFromJanuary | utils/localtime.hpp:84-95 | January and February: the fields denote the day in the next year, also on 29 February. |
| Ipv6Addresses.LocalInetPton6 | net/Ipv6Address.cpp:77-162 | The pointer loop computes the specified parse of every text. |
| Ipv6Text.ParseExact | net/Ipv6Address.cpp:77-162 | A text is accepted as an address if and only if the grammar of section 2.2 of RFC 4291, as the code has it, derives exactly these sixteen bytes from it: groups, at most one `::` for at least one byte, a dotted quad last. |
| Ipv6Text.Complete | net/Ipv6Address.cpp:77-162 | Every text of the grammar is accepted with its bytes. |
| Ipv6Text.Sound | net/Ipv6Address.cpp:77-162 | Every accepted text has a derivation. |
| Ipv6Addresses.LocalInetPton4 | net/Ipv6Address.cpp:19-61 | Writes the four bytes of an accepted quad and nothing else; a refused one leaves the array alone. |
| Ipv6Text.QuadExact | net/Ipv6Address.cpp:19-61 | A text is accepted as these four bytes if and only if it is their canonical dotted form. |
| Ipv6Addresses.HexDigitValue | net/Ipv6Address.cpp:63-75 | Non-negative exactly for the hexadecimal digits, and then their value. |
| Ipv6Addresses.ReadQuadTail | net/Ipv6Address.cpp:134-138 | A trailing quad is taken only behind a dot and with room for four bytes. |
| Ipv6Addresses.Conclude | net/Ipv6Address.cpp:141-161 | The last group is stored and the gap expanded, or the text is refused for its length. |
| Ipv6Addresses.ExpandInPlace | net/Ipv6Address.cpp:148-156 | The overlapping move and the zero fill put zeros exactly in the gap. |
| Ipv6Addresses.FtMemmove | utils/mem_copy.cpp:20-35 | Overlapping or not, the destination gets the old source and the rest stays. |
| Ipv6Addresses.FtMemcpy | utils/mem_copy.cpp:9-18 | The forward copy is right whenever the destination does not lie behind the source. |
| Ipv6Addresses.PrintAddress | net/Ipv6Address.cpp:210-236 | The index loop prints the specified text. |
| Ipv6Addresses.SkipRun | net/Ipv6Address.cpp:217-219 | A run of zero groups is skipped to its end. |
| Ipv6Printer.RoundTrip | net/Ipv6Address.cpp:210-236 | For every address: the printed text parses back to it if it has at most one run of two or more zero groups, and is refused otherwise. |
| JsonRoundTrip.RoundTrip | json/Json.cpp:750-764 | For every document tree, with any white space and any mix of escapes: the printed text parses to its meaning and to the end if its depth keeps the limit of 20, and fails for its depth otherwise. |
| JsonSoundness.ParseExact | json/Json.cpp:645-764 | Exactly which texts are accepted, and as what: a text parses to a value if and only if it is a document of the grammar, all of it, nested at most 20 levels, and the value is its meaning. The grammar has every number the code takes, with the character it swallows behind a fraction or an exponent. |
| JsonSoundness.TrailingRefused | json/Json.cpp:757-762 | A document with anything but white space behind it is refused for that very character. |
| JsonNumbers.ReadNumeral | json/Json.cpp:578-621 | Every number of the grammar, negative, long, with fraction or exponent, is read as what it means: an integer of at most nine characters by value, any other as the numeral `strtod` reads. |
| JsonRoundTrip.ReadValue | json/Json.cpp:645-740 | A printed value is read back, with what follows left unread. |
| JsonRoundTrip.ReadItems | json/Json.cpp:711-735 | Printed items are read back in order up to the closing bracket. |
| JsonRoundTrip.ReadMembers | json/Json.cpp:673-709 | Printed members are read back; of equal keys the last counts. |
| JsonGrammar.ReadPieces | json/Json.cpp:466-572 | Any mix of plain characters, escapes and surrogate pairs decodes to the UTF-8 of its code points. |
| JsonGrammar.EscapesListed | json/Json.cpp:537-571 | The one-letter escapes and what they stand for are those of section 7 of RFC 8259. |
| JsonSyntax.Utf8Decodes | json/Json.cpp:440-460 | A decoder of section 3 of RFC 3629 gives back every code point up to 0x10FFFF from its encoding, and refuses exactly those of surrogates. |
| JsonUtf8.DecodedIsUtf8 | json/Json.cpp:466-572 | A parsed string is UTF-8 if and only if the bytes that stood in it as they are form whole sequences and every surrogate escape stands in a pair. |
| JsonUtf8.LoneSurrogate | json/Json.cpp:519-531 | An input: the text `"\ud800"` is accepted and its value is no UTF-8. |
| JsonNumbers.ReadInteger | json/Json.cpp:578-600 | Every integer below 10^9 is read back. |
| JsonNumbers.NegativeReadsZero | json/Json.cpp:596-600 | A short negative integer reads as zero: the conversion stops at the sign. |
| JsonParsers.JsonParser.Parse | json/Json.cpp:750-764 | The parser object computes the specified result on every text: the value, or the first error. |
| JsonParsers.JsonParser.ParseJson | json/Json.cpp:645-740 | The same for one value at one depth. |
| JsonParsers.JsonParser.ParseObject | json/Json.cpp:673-709 | The same for an object. |
| JsonParsers.JsonParser.ParseArray | json/Json.cpp:711-735 | The same for an array. |
| JsonParsers.JsonParser.ParseString | json/Json.cpp:466-490 | The same for a string, with the pending code point flushed where the code does. |
| JsonParsers.JsonParser.ParseEscape | json/Json.cpp:492-571 | The same for one escape. |
| JsonParsers.JsonParser.ParseUnicode | json/Json.cpp:498-535 | The same for a four digit escape and the pairing of surrogates. |
| JsonParsers.JsonParser.ParseNumber | json/Json.cpp:578-594 | The same for a number, integers by value. |
| JsonParsers.JsonParser.ParseFraction | json/Json.cpp:596-608 | The same for a fraction, with the step past its last digit. |
| JsonParsers.JsonParser.ParseExponent | json/Json.cpp:611-621 | The same for an exponent. |
| JsonParsers.JsonParser.EncodeUtf8 | json/Json.cpp:440-460 | Appends the UTF-8 bytes of a code point, nothing for a negative one. |
| JsonParsers.JsonParser.Expect | json/Json.cpp:630-638 | A literal word is matched in full or is an error. |
| JsonParsers.JsonParser.NextToken | json/Json.cpp:425-433 | The next character behind white space, or an error at the end. |
| JsonParsers.JsonParser.Trim | json/Json.cpp:415-419 | Moves past white space and nothing else. |
| JsonParsers.JsonParser.Error | json/Json.cpp:404-410 | Only the first error is kept. |
| JsonParsers.JsonParser.StringToUint64AtoiLike | utils/utils.hpp:190-208 | Reads the leading digits. |
| Uris.Reprint | http/Uri.hpp:136-187 | Printing an accepted origin-form or asterisk-form target reproduces the input byte for byte; printing an authority gives a text that parses to the same authority; the absolute form prints as stated. A target is accepted exactly when its parts are. |
| Uris.ParseUri | http/Uri.cpp:443-474 | Which form a text has and when it is accepted, the absolute form with its scheme, authority and rest included; an origin-form path stored as escaped is the percent-decoding of the path as written. |
| Uris.ParsePath | http/Uri.cpp:302-342 | The longest path is taken; both copies are right although the raw one is only started at the first escape. |
| Uris.ParsePathQueryFragment | http/Uri.cpp:287-409 | Accepted exactly when the text splits into path, query and fragment, with these parts. |
| Uris.ParseQuery | http/Uri.cpp:351-377 | The same from the query on. |
| Uris.ParseFragment | http/Uri.cpp:379-408 | The same from the fragment on. |
| Uris.PrintUri | http/Uri.hpp:136-187 | Prints the parts with their marks, in the absolute form without the marks of query and fragment, as the program does. |
| Uris.AbsoluteReprint | http/Uri.hpp:149-168 | An absolute target comes out as it went in if and only if it has neither query nor fragment and its authority is spelled as it is printed. |
| Uris.ParseAbsolute | http/Uri.cpp:455-471 | Scheme, authority and rest are cut at the first `://` and the first slash, or without one the first question mark or number sign; refused exactly when one of them is. |
| Uris.ReadScheme | http/Uri.cpp:20-45 | Accepts exactly a letter followed by letters, digits, `=`, `-` and `.`. |
| UriSyntax.StandardTextExact | http/RfcConstants.hpp:108-114 | A text the parser takes has only escapes of section 2.1 of RFC 3986 if and only if every percent sign stands before two HEXDIG. |
| UriSyntax.LettersDecoded | http/RfcConstants.hpp:117-133 | An input: `%GG` is taken and decodes to one byte. |
| UriSyntax.SplitExact | http/Uri.cpp:287-409 | A text splits into these parts if and only if the parts consist of allowed characters and escapes and rendering them gives the text. |
| Uris.DecodeAppend | http/Uri.cpp:302-342 | Percent-decoding distributes over pieces that end between escapes. |
| Uris.ReadAuthority | http/Uri.cpp:171-260 | The authority is read or refused as specified, on every text. |
| Uris.ReadPort | http/Uri.cpp:217-229 | A port is read up to 65535. |
| Authorities.ReadsBack | http/Uri.cpp:171-260 | Every well-formed authority survives printing and reading. |
| Authorities.ReadsOk | http/Uri.cpp:171-260 | What is read is well-formed and the text is its printed form up to the spelling of the port. |
| Authorities.Normalises | http/Uri.cpp:171-260 | Printing and reading again changes nothing any more. |
| UriExactness.AuthorityExact | http/Uri.cpp:171-260 | A text is read as an authority if and only if it is its user information, its host and nothing, a colon, or a colon and any spelling of the port up to 65535. |
| UriExactness.PortExact | http/Uri.cpp:217-229 | Digits are a port if and only if they denote a number up to 65535, and then that number. |
| UriExactness.AbsoluteExact | http/Uri.cpp:453-471 | An absolute target put together from scheme, authority and rest is taken apart into them if and only if the rest has a path, or no slash and, without a query, no question mark; otherwise it is refused. |
| UriExactness.SlashInQueryRefused | http/Uri.cpp:457-466 | Every absolute target without a path whose query holds a slash is refused, although its parts are well formed. |
| Base64.DecodesEncoded | utils/base64.cpp:35-104 | Decoding undoes encoding for every byte string, whatever byte is read behind the end of the text. |
| Base64.StandardWhen | utils/base64.cpp:66-87 | The encoding is the standard one of section 4 of RFC 4648 if and only if no bits are read behind the text or those read are zero. |
| Base64.DecodeExact | utils/base64.cpp:35-58 | A text decodes to these bytes if and only if it is a row of groups of four letters, two or three of them padded wherever they stand, and the bytes are theirs; the character behind a first padding is anything. |
| Base64.TripleIsBits | utils/base64.cpp:88-100 | The four groups are the 24 bits of the three bytes, first byte first. |
| Base64.EncodeString | utils/base64.cpp:60-104 | The loop computes the specified encoding. |
| Base64.DecodeString | utils/base64.cpp:35-58 | The loop computes the specified decoding: padding, foreign characters and a length that is no multiple of four included. |
| Timeouts.TimeoutEventHandler.ReactorStep | ioruntime/TimeoutEventHandler.cpp:18-66 | In each step exactly the due timeouts fire, in the order of their deadlines and, for equal ones, of their registration; of the others, those not disconnected stay, as do all that the callbacks register; no used entry is left. |
| Timeouts.StepOutcome | ioruntime/TimeoutEventHandler.cpp:18-66 | The step keeps the accounting: every timeout ever registered is waiting, has fired once and not early, or was dropped after being disconnected. |
| Timeouts.StepAccounted | ioruntime/TimeoutEventHandler.cpp:18-66 | The same for firing and erasing alone. |
| Timeouts.InsertInOrder | ioruntime/TimeoutEventHandler.cpp:77-83 | A new timeout keeps the queue in order of deadline and registration. |
| Timeouts.DueInOrder | ioruntime/TimeoutEventHandler.cpp:23-47 | What is due leaves a queue in order in that order. |
| Timeouts.RegisteredSnoc | ioruntime/TimeoutEventHandler.cpp:48-51 | Each registration of a callback adds one timeout with its deadline and the next identity, and nothing else does. |
| Timeouts.TimeoutEventHandler.Collect | ioruntime/TimeoutEventHandler.cpp:23-47 | The due callbacks are taken out in order and marked, the disconnected later ones erased. |
| Timeouts.TimeoutEventHandler.RunCallbacks | ioruntime/TimeoutEventHandler.cpp:48-51 | Each callback runs once and its registrations and disconnections take effect in order. |
| Timeouts.TimeoutEventHandler.Sweep | ioruntime/TimeoutEventHandler.cpp:52-65 | Exactly the used entries go, although registrations have mixed new entries among them. |
| Timeouts.TimeoutEventHandler.RegisterTimeoutReal | ioruntime/TimeoutEventHandler.cpp:77-83 | A new timeout goes behind those with the same deadline. |
| Timeouts.TimeoutEventHandler.DisconnectTimeout | ioruntime/TimeoutEventHandler.cpp:101-108 | A disconnection marks the timeout and nothing else. |
| Timeouts.DisconnectedFate | ioruntime/TimeoutEventHandler.cpp:27-46 | The first step after a disconnection decides: it drops the timeout if and only if the deadline is still to come, and fires it otherwise. |
| Timeouts.DisconnectedFires | ioruntime/TimeoutEventHandler.cpp:27-46 | An input: a timeout disconnected in time fires at its deadline if no step came before. |
| Timeouts.UnusedInsert | ioruntime/TimeoutEventHandler.cpp:52-65 | Erasing used entries commutes with registering new ones. |
| Timeouts.UnusedMarked | ioruntime/TimeoutEventHandler.cpp:23-65 | Marking and sweeping together leave exactly the later timeouts that nobody disconnected. |

## Left out

Regular expressions:
- RegexEngine.Regex.Match: asks for a program without an unset node, because what a bare `{m}` does at run time depends on memory never written; RegexEngine.Regex.Compile says for which patterns that is.
- Brackets: contents are values of their node; in the program they share one buffer of 128 bytes, and closing a bracket when all of it is used writes one byte behind it. Escapes inside brackets are rejected by the compiler (`regex/Regex.cpp:120`), so the matcher's branch for them is not modelled. Copying a `Regex`, whose nodes point into its buffer, is not modelled.
- Text: characters are compared by code; the program compares signed bytes, which differs above 0x7F in ranges only. A read behind the closing NUL reads NUL.

Messages:
- The checks of `Host`, `User-Agent`, `Referer` and the `Accept` headers are a parameter of the parser's configuration, so every result of theirs is covered; the URI, media type and language parsers they call are not.
- The start line (`http/RequestParser.cpp`, `http/ResponseParser.cpp`) is not modelled.
- The body the parser collects is a value; whether its storage delays a chunk or fails is a script. `_is_http_1_1` is never set by the code and left out.
- MessageReaders.PrintedMessageParses: the empty value is excluded, because the printer stops there; MessageReaders.HeadersPrintedInFull says exactly when it prints everything.
- Polling a message without a body again after its end is not modelled; the chunk printer is allocated with its message.

Executors:
- PooledExecutors.FuturesAreExclusive: safety, not liveness; that every wake-up is served is false, as PooledExecutors.WakeUpLost shows.
- A critical section is one atomic step, and so is a poll's result; memory ordering, sleeping and thread creation are left out, as is `abandon`, which no executor calls.
- The sequential executor takes its polls' results and requests from a finite script: a task that wakes itself for ever would keep one step from ending.

Connection and copying:
- Parser, handler, answers, error pages, timer and the kind of failure the copier reports are the environment of the connection, given as scripts and one function; the addresses, header fields and logging are left out, and so is what becomes of an exception that leaves the poll.
- Opening the temporary file and seeking in it do not fail in the model. Writing after reading has begun, and reading during the switch to the file, are outside what callers do and are excluded. The byte count of a failed transfer is uninitialised in the program; the model claims nothing about the size behind a failed write. Move construction is left out.
- The other specializations of `IoCopyFuture` are left out.

Codecs and arithmetic:
- Calendar.SecsToTm: what an overflow of an `int` leads to is not modelled, since the language leaves it open; the contract says for which times one happens and where.
- The address printer reads group 8 before it checks the bound; the model checks first. IPv4 printing is left out.
- JsonNumbers.ReadNumeral: a number that is no short integer is kept as the numeral `strtod` reads in place of the `double` it stands for. A fraction or exponent that ends the input reads behind it, which the model reports as an error of its own. Error messages are kinds.
- Uris.PrintUri: an absolute target without a path is excluded, because the printer reads a path that is not there, and so are schemes other than `http` and `https`, whose object claims to hold a standard one (`http/Uri.cpp:22-42`).
- Base64.EncodeString: the byte read behind the text is a parameter.
- Timeouts.TimeoutEventHandler.ReactorStep: the clock is a parameter, deadlines are unbounded, callbacks do not throw and other threads do not register during a step.

Not modelled at all: sockets, `select` and the event handlers, the file system, CGI, signals, configuration, media type and status tables, and the bundled Lua and Duktape sources.
