# Oak-Barrels, modelled and proved

Oak-Barrels is a relay station (C++) that a host (a Dart client) talks to over a
byte stream.  This project states what its protocol, its session, its audio
queue and its discovery promise, and proves it for every input and every run.

- **JSON** (`JsonValue`, `Utf8`, `JsonGrammar`, `JsonReader`, `JsonParser`,
  `JsonCorrectness`, `JsonText`, `JsonPrinter`, `JsonRoundTrip`, `JsonNumbers`,
  `JsonTerminals`).  The grammar of
  sections 2 to 7 of RFC 8259 is written down on its own, as concrete syntax
  trees with a spelling and a meaning: an unescaped character is a code point
  spelled in UTF-8, a `\u` escape any four hex digits.  One production is added,
  a bare byte from 0x80 up; trees without it are the RFC's.  `JsonReader` is the
  parser as functions, `JsonParser` the class with a moving position that refines
  them, `JsonCorrectness` proves exactly which derivations the parser accepts,
  and `JsonText` sets that against the RFC.  The round trip follows: the printer
  writes the spelling of a tree that means the value.  `JsonNumbers` and
  `JsonTerminals` say what digits, fractions, exponents and escapes are worth,
  of the reader and without the functions it shares with the grammar.
- **The audio queue** (`RingMath`, `RingBuffer`, `Spsc`, `BulkChannel`,
  `ChannelProgress`).  The
  ring is proved twice: as a sequential class over an array that refines a
  queue, and as two threads whose loads, byte copies and publishing stores
  interleave freely, each possibly seeing an old index of the other.  The
  channel adds the engine's callback, the worker and the owner on top:
  `BulkChannel` says what no run loses, `ChannelProgress` that every run moves on.
- **Frames and the station** (`Frames`, `FramesDart`, `Station`).  Both decoders
  as classes over one specification, and the read/decode/handle loop as a
  method whose outcome is a function of the concatenated input.
- **Session, handles and host** (`Messages`, `Session`, `SessionCalls`,
  `SessionRuns`, `SessionReplies`, `ReplyText`, `Reports`, `Handles`, `SessionHandles`, `HostJson`,
  `Client`, `Pairing`).  The session class is proved against a function `React`;
  everything about runs is proved of `React` for an arbitrary backend.
  `SessionCalls` says which payload makes which call, `Reports` what can be read
  back from a reply.
  `HostJson` is JSON as the host reads it.  `Pairing` puts host, transport and
  station together, for any backend; `Deployment` does so for the real one.
- **Discovery and binding** (`Scanner`, `ScanOrder`, `Truncation`, `Profiles`, `Prober`,
  `ProbingBackend`).  A bounded walk over a finite tree, profile documents,
  first-match binding, and the backend that remembers it all.

Where the original works by changing things in place there is a class or a
method with loops, each with a contract that ties it to a function of its
inputs or its old state; the functions carry the properties.  A byte is an
integer from 0 to 255, text is a sequence of bytes, a JSON number is the exact
real it denotes, an infinity, or not a number.

## What the proofs found

- `json.hpp` says the grammar is RFC 8259.  It differs in two ways.  Bytes from
  0x80 up are not checked: the string of the single byte 0xFF is accepted and is
  no JSON text (`JsonText.AcceptedThoughNotUtf8`).  Surrogate escapes must be
  paired: `"\ud800"` is a JSON text and is refused (`JsonText.RefusedThoughDerived`).
  `JsonText.ParseIsRfcExactly` says that these, with the nesting limit, are all:
  for every text the parser does what the RFC says, within the two limits, if and
  only if the text is UTF-8 or has no derivation within them.
- The session takes any number whose integer part, within 64 bits, is 1 modulo
  2^32 for revision 1: 4294967297 and 1.5 negotiate.
  `SessionRuns.NegotiationFaithfulExactly` says for which offers the choice is
  one that was offered.
- The Dart decoder throws away frames that precede a violation in the same
  chunk, the station's does not.  `FramesDart.LostExactlyBeforeViolation` says,
  for every chunking and in bytes, when the two hand over the same frames.
- A payload that is not UTF-8 makes the Dart decoder throw an exception the
  client does not catch.  The client is not failed and its request goes on
  waiting, whatever arrives later: `Client.HangsExactly`.
- Handles run out: after 2^32 - 1 opens the next is 0; the OPEN is refused as an
  internal error, but 0 stays in the table and in the count of targets
  (`Handles.HandlesRunOut`, `SessionHandles.OpenGivesNext`).
- `scanner.hpp` says a truncated result is partial.  It need not be, in two ways:
  an empty directory below the depth limit, or anything at all left to look at
  after the last file allowed (`Truncation.EmptyDirectoryBelow`,
  `Truncation.LinkAfterLastFile`).  `Truncation.TruncatedThoughComplete` is the
  exact condition on the tree.
- The two lookups of an engine may name different bindings:
  `Prober.UnsatisfiedProfilesDisagree` gives an engine, never built by
  `bindFirstAvailable`, where they do.  By `Prober.LookupsAgreeExactly` they agree
  on a role if and only if no binding declares it, or the first that does
  resolves, or none that does resolves.
- A second `stop` of a channel says yes although the first one timed out and the
  worker may still run (`ProbingBackend.ProbingBackend.Stop`); nothing calls it
  twice.

## Model

| member | source | states |
|---|---|---|
| JsonCorrectness.ParseExactlyTheGrammar | src/relay/protocol/json.cpp:43-276 | `parse` yields a value if and only if the grammar, bare bytes included, derives the text, at most 64 deep, with its surrogate escapes paired, meaning that value |
| JsonCorrectness.ParseOfDerivation | src/relay/protocol/json.cpp:43-276 | every derivation of a text decides the verdict: accepted with its meaning when it is at most 64 deep and its surrogates are paired, refused otherwise |
| JsonCorrectness.DerivationsAgree | src/relay/protocol/json.cpp:43-276 | however deep, all derivations of a text agree on whether surrogates are paired, and if they are, on the meaning |
| JsonCorrectness.TreeComplete | src/relay/protocol/json.cpp:57-159 | on the spelling of a tree followed by anything a number cannot swallow, `parseValue` consumes exactly the spelling and yields the meaning, or fails exactly when a value is too deep or a surrogate unpaired |
| JsonCorrectness.ValueSound | src/relay/protocol/json.cpp:57-159 | whatever `parseValue` consumed is the spelling of a well-formed tree that means the value it returned, within the depth limit |
| JsonCorrectness.ItemsComplete | src/relay/protocol/json.cpp:132-159 | the array loop yields the items in order and stops behind the closing bracket, or fails exactly when an item is outside the limits |
| JsonCorrectness.FieldsComplete | src/relay/protocol/json.cpp:92-130 | the object loop yields the members with the last value of a repeated key in the place of its first, or fails exactly when a member is outside the limits |
| JsonCorrectness.CharsComplete | src/relay/protocol/json.cpp:180-242 | a spelled string reads back as its meaning up to the closing quote when its surrogate escapes are paired, and is refused otherwise |
| JsonCorrectness.CharsSound | src/relay/protocol/json.cpp:180-242 | every string accepted is spelled by legal characters, escapes and bare bytes, each surrogate escape in a pair |
| JsonCorrectness.UnicodeSound | src/relay/protocol/json.cpp:161-242 | what a `\u` escape consumes is one escape outside the surrogates or a high one and a low one, and it yields the UTF-8 of the code point meant |
| JsonCorrectness.TokenComplete | src/relay/protocol/json.cpp:244-276 | every number token of the grammar is consumed whole |
| JsonCorrectness.TokenSound | src/relay/protocol/json.cpp:244-276 | what the number scanner consumes is a number token of the grammar: no leading zeros, digits after point and exponent |
| JsonParser.Parser.ParseDocument | src/relay/protocol/json.cpp:43-56 | the class, run on a text, returns what the specification function returns; it terminates on every text |
| JsonParser.Parser.ParseValue | src/relay/protocol/json.cpp:57-83 | the method moves the position over exactly what the specification reads at this depth, and never back |
| JsonParser.Parser.ParseObject | src/relay/protocol/json.cpp:92-130 | as above, for an object with its loop over members |
| JsonParser.Parser.ParseArray | src/relay/protocol/json.cpp:132-159 | as above, for an array with its loop over items |
| JsonParser.Parser.ParseHex4 | src/relay/protocol/json.cpp:161-178 | four hex digits in either case, or failure |
| JsonParser.Parser.ParseString | src/relay/protocol/json.cpp:180-242 | the loop over a string's characters, which always advances |
| JsonParser.Parser.ParseNumber | src/relay/protocol/json.cpp:244-276 | the number scanner, and the value of the token scanned, whose worth `JsonNumbers.NumbersMean` gives |
| JsonNumbers.NumbersMean | src/relay/protocol/json.cpp:244-276 | for digit strings `w` and `f` and an exponent spelled `e`, with or without a minus, the reader yields the `x` for which `x * 10^|f|` is `10^e` times the integer spelled by `w` and `f` together, a negative `e` multiplying the other side; it is infinite from 2^1024 - 2^970 on, negated behind a minus |
| JsonNumbers.WorthSomething | src/relay/protocol/json.cpp:258-275 | every such spelling has exactly one such `x` |
| JsonNumbers.HalfReads | src/relay/protocol/json.cpp:244-276 | two inputs: `0.5` reads as one half, `-25e-1` as minus two and a half |
| JsonTerminals.Structure | src/relay/protocol/json.cpp:30-32 | which bytes are whitespace, brackets, commas and literals, and the depth limit, in characters and digits |
| JsonTerminals.Escapes | src/relay/protocol/json.cpp:180-242 | the eight letters that may follow a backslash alone, and the byte each stands for |
| JsonTerminals.HexDigits | src/relay/protocol/json.cpp:161-178 | a hex digit is its place in the alphabet, in either case |
| JsonTerminals.CodeUnitsRead | src/relay/protocol/json.cpp:161-178 | each of the 65536 code units, written as four hex digits in either case, reads as itself |
| JsonTerminals.SurrogatesInOrder | src/relay/protocol/json.cpp:180-242 | surrogate pairs combine in the order of the pairs, which with the bijection leaves one way to combine them |
| JsonTerminals.EncodingKeepsOrder | src/relay/protocol/json.cpp:10-26 | `appendUtf8` keeps the order of code points and writes ASCII as itself |
| JsonTerminals.NestingLimit | src/relay/protocol/json.cpp:57-159 | `n` arrays or objects around an empty one are read if and only if `n` is at most 64 |
| JsonText.ParseKeepsUtf8 | src/relay/protocol/json.cpp:161-242 | a document that is well-formed UTF-8 (section 4 of RFC 3629) gives only well-formed strings and keys |
| JsonText.ParseIsRfcExactly | src/relay/protocol/json.cpp:43-276 | for every text: the parser yields exactly the values RFC 8259 gives it, at most 64 deep and with paired surrogates, if and only if the text is UTF-8 or the grammar with bare bytes does not derive it within those limits |
| JsonText.RfcExactlyUtf8 | src/relay/protocol/json.cpp:235-241 | a text derives in the RFC's own grammar if and only if it is UTF-8 and derives with bare bytes |
| JsonText.AcceptedThoughNotUtf8 | src/relay/protocol/json.cpp:235-241 | the input: a string of the byte 0xFF is accepted and is no JSON text |
| JsonText.RefusedThoughDerived | src/relay/protocol/json.cpp:180-242 | the input: a lone surrogate escape is a JSON text and is refused |
| JsonText.ParseProper | src/relay/protocol/json.cpp:92-130 | every value parsed has unique keys at every level |
| Utf8.EncodeThenDecode | src/relay/protocol/json.cpp:10-26 | decoding what `appendUtf8` wrote gives the code point back and consumes exactly its bytes |
| Utf8.DecodeThenEncode | src/relay/protocol/json.cpp:10-26 | every well-formed sequence is what `appendUtf8` writes for the scalar it decodes to, so there is no other encoding |
| Utf8.SurrogatesBijective | src/relay/protocol/json.cpp:180-242 | combining surrogate pairs is a bijection onto U+10000 to U+10FFFF |
| JsonRoundTrip.RoundTrip | src/relay/protocol/json.cpp:282-365 | for unique keys, any bytes and numbers on the integer branch, `parse(dump(v))` is `v`, order included, if its height is at most 64 and is refused otherwise |
| JsonRoundTrip.ReadsExactly | src/relay/protocol/json.cpp:57-83 | parsing `dump(v)` followed by text that cannot continue a number consumes exactly `dump(v)` |
| JsonRoundTrip.TreeOfCorrect | src/relay/protocol/json.cpp:326-365 | whenever fractional numbers are printed as numbers, the printer writes a spelling in the grammar as deep as the value, that means the value when its numbers are exact and its keys unique |
| JsonRoundTrip.DumpIsRfc | src/relay/protocol/json.cpp:282-365 | every value whose strings and keys are UTF-8 is printed as JSON by RFC 8259, at any depth |
| JsonRoundTrip.TextUtf8 | src/relay/protocol/json.cpp:282-365 | the text of a value whose strings and keys are UTF-8 is UTF-8 |
| JsonRoundTrip.IntTokenCorrect | src/relay/protocol/json.cpp:308-324 | below 10^15 the text written is a number token that denotes the integer exactly |
| JsonRoundTrip.CharsOfCorrect | src/relay/protocol/json.cpp:282-306 | the escaped text of any byte string is legal and means that string |
| JsonPrinter.Writer.WriteValue | src/relay/protocol/json.cpp:326-365 | the appending printer, with its two loops, adds exactly the specified text |
| JsonPrinter.Writer.WriteEscapedString | src/relay/protocol/json.cpp:282-306 | the escaping loop adds exactly the specified text |
| JsonPrinter.Dump | src/relay/protocol/json.cpp:446-450 | the text of a value, as the round trip takes it |
| JsonTerminals.NotFinitePrintsNull | src/relay/protocol/json.cpp:308-324 | an infinity and a NaN come back as null |
| JsonValue.SetMemberEffect | src/relay/protocol/json.cpp:427-444 | `set` keeps keys unique, is found by `find`, leaves every other key alone, and keeps the order of first occurrence |
| JsonValue.FindExactly | src/relay/protocol/json.cpp:427-433 | `find` yields a value if and only if the object has that member |
| JsonValue.EqualExactly | src/relay/protocol/json.cpp:452-477 | two values are equal if and only if they have the same content: the same kind, numbers neither NaN, the same text, items pairwise, members matched by key both ways |
| JsonValue.EqualReflexive | src/relay/protocol/json.cpp:452-477 | a value equals itself exactly when it holds no NaN |
| JsonValue.EqualSymmetric | src/relay/protocol/json.cpp:452-477 | the one-sided member check with the size test is symmetric |
| JsonValue.EqualTransitive | src/relay/protocol/json.cpp:452-477 | equality is transitive |
| JsonValue.KeysFoundBothWays | src/relay/protocol/json.cpp:452-477 | with equally many unique keys, finding all of one side's keys in the other finds all of the other's in the one |
| JsonValue.EqualIgnoresOrder | src/relay/protocol/json.cpp:452-477 | objects with the same members in any order are equal |
| RingBuffer.RingBuffer.constructor | src/relay/bulk/ring_buffer.cpp:8-10 | an empty queue of the capacity asked for, one slot spare |
| RingBuffer.RingBuffer.Write | src/relay/bulk/ring_buffer.cpp:11-35 | appends exactly the first min(bytes, free) bytes to the queue, and the two runs are byte-at-a-time stores around the ring |
| RingBuffer.RingBuffer.Read | src/relay/bulk/ring_buffer.cpp:37-55 | removes exactly the first min(capacity, size) bytes and hands them over in order |
| RingBuffer.RingBuffer.Size | src/relay/bulk/ring_buffer.cpp:57-61 | the number of bytes queued |
| RingBuffer.RingBuffer.EmptyAndFull | src/relay/bulk/ring_buffer.cpp:8-35 | equal indices mean empty and only that, head one before tail means full and only that |
| RingBuffer.TwoRuns | src/relay/bulk/ring_buffer.cpp:19-32 | two straight copies are the same as storing the bytes one by one modulo the size |
| RingBuffer.AppendKeepsOrder | src/relay/bulk/ring_buffer.cpp:11-35 | storing behind the head and moving it appends to what is read from the tail |
| RingBuffer.RemoveKeepsOrder | src/relay/bulk/ring_buffer.cpp:37-55 | moving the tail drops exactly the bytes read |
| RingMath.StoreAroundAt | src/relay/bulk/ring_buffer.cpp:19-32 | each slot after a wrapping store: the byte at its distance from the start, or what it held |
| Spsc.SafeInEveryRun | src/relay/bulk/ring_buffer.cpp:11-55 | in every interleaving: what was read is a prefix of what was accepted, never more than the capacity behind, the slots being written are disjoint from all that are queued or being read, and every byte fetched is the right one |
| Spsc.StepKeeps | src/relay/bulk/ring_buffer.cpp:11-55 | every load, copy and publish step of either thread keeps the invariant, whatever old index was loaded |
| Spsc.LoadTailTakes | src/relay/bulk/ring_buffer.cpp:11-18 | a write takes min(offered, free space by the index it saw), exactly the free space when the index is the newest, never more |
| Spsc.LoadHeadTakes | src/relay/bulk/ring_buffer.cpp:37-44 | a read takes min(asked, queued by the index it saw), all that is queued when the index is the newest |
| BulkChannel.BytesConserved | src/relay/bulk/bulk_channel.cpp:45-79 | in every reachable state accepted = handed to the endpoint, then the chunk in hand or the unsent rest of a failed one, then the queue; offered = accepted + dropped + the call in progress (modulo 2^64); the endpoint's stream is a prefix of the accepted one; accepted exceeds what is counted as forwarded by at most 131072 + 16384 |
| BulkChannel.FreedOnlyAfterExit | src/relay/bulk/bulk_channel.cpp:81-110 | a freed channel's worker has finished and has no step left, and a stop that timed out is never followed by freeing |
| BulkChannel.NeverFreedAfterTimeout | src/relay/probe/probing_backend.cpp:16-31 | once a stop has timed out the channel stays kept or released for the rest of the run |
| ChannelProgress.WorkerNeverStuck | src/relay/bulk/bulk_channel.cpp:61-79 | in every reachable state a worker that has not exited has a step to take, once a pending write of the endpoint is answered |
| ChannelProgress.WorkerNearer | src/relay/bulk/bulk_channel.cpp:61-79 | while nobody stops, the engine is quiet, the endpoint takes what it is given and the index loaded is the newest, every step of the worker, whichever it is, lowers a measure of its phase and the bytes still queued |
| ChannelProgress.QueueEmpties | src/relay/bulk/bulk_channel.cpp:61-79 | from every such state some steps of the worker end with every accepted byte at the endpoint and counted as forwarded modulo 2^64 |
| ChannelProgress.EveryScheduleEmpties | src/relay/bulk/bulk_channel.cpp:61-79 | and so does every sequence of its steps that is longer than the measure |
| ChannelProgress.RunsFlow | src/relay/bulk/bulk_channel.cpp:61-79 | every state of every run is such a state, unless a stop was asked for or the endpoint has failed |
| ChannelProgress.StoppedWorkerLeaves | src/relay/bulk/bulk_channel.cpp:61-110 | after a stop is asked for, each step of the worker brings it nearer to its exit, which is at most 16384 + 9 steps away, even with the engine still calling |
| ChannelProgress.CallNeverStuck | src/relay/bulk/bulk_channel.cpp:45-59 | the engine's callback always has a step to take, whatever the worker does |
| ChannelProgress.CallNeverWaits | src/relay/bulk/bulk_channel.cpp:45-59 | and each of them brings it nearer to its return |
| Frames.EncodeFrame | src/relay/protocol/frame.cpp:31-44 | the step-by-step encoder writes length, type and payload, with the 32-bit arithmetic of the length |
| Frames.FrameDecoder.Feed | src/relay/protocol/frame.cpp:50-53 | appends to the buffer unless the decoder has failed |
| Frames.FrameDecoder.Next | src/relay/protocol/frame.cpp:55-85 | nothing after a failure; else a frame cut from the front, nothing yet, or a failure that leaves the buffer alone |
| Frames.FrameDecoder.Fail | src/relay/protocol/frame.cpp:46-48 | the first error is kept |
| Frames.ChunksDoNotMatter | src/relay/protocol/frame.cpp:50-85 | feeding chunks and taking frames as they come gives the frames, the error and the tail of decoding the concatenation |
| Frames.DrainAppend | src/relay/protocol/frame.cpp:50-85 | decoding more input is decoding the tail kept with it; after a failure nothing more comes |
| Frames.FailureIsSticky | src/relay/protocol/frame.cpp:46-60 | a failed decoder yields nothing ever again |
| Frames.DecodeEncoded | src/relay/protocol/frame.cpp:31-85 | any list of frames within the budget decodes back, whatever follows it |
| Frames.AnyChunkingRoundTrips | src/relay/protocol/frame.cpp:31-85 | the same under any chunking |
| Frames.EncodeDecoded | src/relay/protocol/frame.cpp:31-85 | for any input, re-encoding the frames decoded and appending the bytes kept gives the input back |
| Frames.ComesBackExactlyWithinBudget | src/relay/protocol/frame.cpp:31-85 | one encoded frame decodes back if and only if its payload is within the budget |
| Frames.OversizedIsRefused | src/relay/protocol/frame.cpp:62-70 | a payload of 2^20 to 2^32 - 2 bytes is refused as too large |
| Frames.NextFrameExactly | src/relay/protocol/frame.cpp:55-85 | the verdict from the bytes: with `n` the little-endian length, too small if and only if `n` is 0, too large if and only if it is above 2^20, more needed if and only if fewer than 4 or than 4 + `n` bytes are there, an unknown type if and only if the frame is whole and its fifth byte is none of fourteen listed; else the frame of that type with the bytes behind it |
| Frames.TypesByTheirBytes | src/relay/protocol/frame.cpp:8-29 | the fourteen types and their bytes, one for one |
| Frames.DecodeWritten | src/relay/session.cpp:61-73 | reading back what a sink was given is decoding its concatenation |
| FramesDart.EncodeChecked | lib/src/relay/frame.dart:81-98 | the host encodes exactly the frames within the budget, to the bytes the station would write, and throws on the others |
| FramesDart.DartDecoder.Add | lib/src/relay/frame.dart:126-171 | one offset scan and one compaction give what decoding frame by frame gives: the frames and tail, a violation, or the escape of a payload that is not UTF-8, whichever fault comes first, with the buffer kept on both |
| FramesDart.TwoDecodersAgree | lib/src/relay/frame.dart:126-171 | over any chunking both decoders emit the same frames and keep the same tail if and only if the stream has no violation and no payload the host cannot read |
| FramesDart.LostExactlyBeforeViolation | lib/src/relay/frame.dart:126-171 | over any chunking, with the decoder used on after it has thrown, the host is handed all the station's frames if and only if there are no frames and a violation after them such that one chunk ends a frame and shows the violation, and no payload the host cannot read |
| FramesDart.LostTogetherKeptApart | lib/src/relay/frame.dart:126-171 | a frame that arrives together with a violation is lost by the host, and kept when it arrives before |
| FramesDart.HostLosesFramesBeforeViolation | lib/src/relay/frame.dart:126-171 | the concrete stream: a BYE followed by a zero length |
| Station.Run | src/relay/main.cpp:245-275 | for every backend and every chunking, the bytes written and the exit code are a function of the concatenated input |
| Station.HandleAll | src/relay/main.cpp:257-263 | the inner loop handles the frames decoded, in order, until the session is over |
| Station.StopsForGood | src/relay/main.cpp:258-263 | once the session has ended, no further input changes what was written |
| Station.FailsForGood | src/relay/main.cpp:265-271 | once the stream is in violation, no further input adds a frame |
| Station.ExitCodes | src/relay/main.cpp:248-275 | the exit code is 1 exactly for a violation or failed read that the session did not end before and 0 otherwise, and what was written is the encoded replies |
| Station.UnknownTypeEndsIt | src/relay/main.cpp:245-275 | behind any frames, a whole frame of an undefined type ends the station with exit code 1 while the session is open, after the replies to those frames and nothing else |
| Station.FeedIsRun | src/relay/main.cpp:257-263 | stopping at the end of the session writes what handling every frame would |
| Session.SelectRevision | src/relay/session.cpp:24-32 | the double loop computes the best common revision, for any list of supported ones |
| Session.BestRevisionIsGreatestCommon | src/relay/session.cpp:24-32 | the revision chosen is in both lists and is the greatest such; 0 if and only if none is above 0 |
| Session.Session.Handle | src/relay/session.cpp:119-168 | one frame changes the flags, the backend, the frames written and the calls made exactly as `React` says |
| Session.Session.HandleHello | src/relay/session.cpp:170-208 | as above, for HELLO |
| Session.Session.HandleOpen | src/relay/session.cpp:224-247 | as above, for OPEN |
| Session.Session.HandlePost | src/relay/session.cpp:249-276 | as above, for POST |
| Session.Session.HandleSet | src/relay/session.cpp:278-312 | as above, for SET, with its range test |
| Session.Session.HandleClose | src/relay/session.cpp:314-330 | as above, for CLOSE |
| Session.Session.HandleDiagRequest | src/relay/session.cpp:332-388 | as above, for DIAG_REQUEST with its two switches |
| SessionCalls.SetReaches | src/relay/session.cpp:278-312 | a payload with a usable handle `h`, a string `p` and a number `x` in [0, 1] makes the one call of `setLevel` with `h`, `p` and `x`; the engine is what that call leaves, the reply STATUS or the reason it gave |
| SessionCalls.SetRefused | src/relay/session.cpp:278-312 | every other payload makes no call, changes nothing and is answered as a bad argument |
| SessionCalls.PostReaches | src/relay/session.cpp:249-276 | likewise for POST, with the `args` given if they are an object and the empty object otherwise |
| SessionCalls.PostRefused | src/relay/session.cpp:249-276 | every other POST is a bad argument |
| SessionCalls.OpenReaches | src/relay/session.cpp:224-247 | OPEN passes the kind, and the name if it is a string and the empty one otherwise; a handle is acknowledged, 0 is an error with the backend's reason, or internal if it gave none |
| SessionCalls.OpenRefused | src/relay/session.cpp:224-247 | an OPEN without a string kind is a bad argument |
| SessionCalls.CloseReaches | src/relay/session.cpp:314-330 | CLOSE passes the handle and reports the backend's reason |
| SessionCalls.CloseRefused | src/relay/session.cpp:314-330 | a CLOSE without a usable handle is a bad argument |
| SessionCalls.HandleRead | src/relay/session.cpp:43-50 | a handle is read if and only if the member is a finite number whose integer part is that handle, from 1 to 2^32 - 1 |
| SessionCalls.HelloNegotiates | src/relay/session.cpp:170-208 | HELLO with a list of revisions negotiates the best common one and acknowledges it, or ends the session without one; any other HELLO ends it as a bad argument |
| SessionCalls.ByeEnds | src/relay/session.cpp:119-168 | BYE is echoed and ends the session, whatever came before |
| SessionCalls.TooEarlyEnds | src/relay/session.cpp:119-168 | any other first frame than HELLO ends the session with a bad argument |
| SessionCalls.UnreadableRefused | src/relay/session.cpp:119-168 | in a session a payload that does not parse is a bad argument and nothing more |
| SessionCalls.StrayRefused | src/relay/session.cpp:119-168 | in a session a second HELLO or a reply type is unsupported and nothing more |
| SessionCalls.DiagSwitches | src/relay/session.cpp:332-388 | the two switches after a DIAG_REQUEST in terms of them before it and the two members, and exactly when a report is withheld |
| SessionCalls.CapsAnswered | src/relay/session.cpp:210-222 | CAPS_REQUEST is answered with the capabilities and changes nothing |
| SessionCalls.ReasonNumbers | src/relay/session.cpp:103-110 | the number the host reads for each of the eleven reasons |
| Reports.DiagReads | src/relay/session.cpp:332-388 | a report, parsed, holds under each of its twelve names the switch, count or list of classes meant, for counts below 10^15 |
| Reports.CapsReads | src/relay/session.cpp:210-222 | a capability reply, parsed, holds the classes in order, the limits and whether a bulk channel runs |
| Reports.FlatRepliesRead | src/relay/session.cpp:103-110 | ERROR and HELLO_ACK, parsed, hold the reason with its phrase, and the revision |
| SessionRuns.OneReplyPerFrame | src/relay/session.cpp:119-168 | a frame gets exactly one reply before the session is over; after it nothing is written, changed or called |
| SessionRuns.RepliesMatchFrames | src/relay/session.cpp:119-168 | over a run there are as many replies as frames while it is open, and none is added once it is over |
| SessionRuns.EveryRunSound | src/relay/session.cpp:119-388 | in every run identify implies diagnose implies negotiated, the revision is supported, no backend operation comes before negotiation, and every operation has a non-zero handle and a level in [0, 1] |
| SessionRuns.LiveEffect | src/relay/session.cpp:224-330 | the backend moves only by the one operation recorded |
| SessionRuns.DecidedByFirstFrame | src/relay/session.cpp:119-208 | the first frame alone decides negotiation and revision; the session is over if and only if that frame negotiated nothing or a BYE has come |
| SessionRuns.NegotiatesWhatWasOffered | src/relay/session.cpp:181-199 | offers of whole numbers within `int` negotiate if and only if they hold revision 1 |
| SessionRuns.NegotiationFaithfulExactly | src/relay/session.cpp:181-199 | for all offers: revision 1 is negotiated without having been offered if and only if it is not among them and some number in them is finite with an integer part within 64 bits that is 1 modulo 2^32; an offer of 1 is always taken |
| SessionRuns.NegotiatesWhatPasses | src/relay/session.cpp:181-199 | revision 1 is negotiated if and only if some entry is such a number |
| SessionRuns.FractionalOfferAliases | src/relay/session.cpp:181-199 | the counterexample within `int`: 1.5 negotiates as revision 1 |
| SessionRuns.OutOfRangeOfferAliases | src/relay/session.cpp:181-199 | the counterexample: 2^32 + 1 negotiates as revision 1 |
| SessionReplies.RepliesOfTheRightKind | src/relay/session.cpp:119-388 | each request is answered by its own reply type or by an ERROR whose reason is not "ok" |
| SessionReplies.EveryReplyUnderstood | lib/src/relay/client.dart:164-249 | read back from its text as the host does, where an integer is one written as an integer, no reply has an unexpected type, lacks an integer revision or lacks a usable handle, and what the host reads is the session's revision and the backend's handle |
| SessionReplies.StatusMeansSuccess | src/relay/session.cpp:112-117 | STATUS, read back, names the handle of the request and the reason "ok": failures travel as ERROR |
| SessionReplies.RevisionStays | src/relay/session.cpp:119-208 | a revision once negotiated is kept for the rest of the run |
| ReplyText.RepliesReadable | src/relay/session.cpp:80-388 | the host can decode a reply if and only if it is UTF-8, and every reply of a backend with UTF-8 class names and limits is |
| HostJson.IntegerMemberReads | lib/src/relay/client.dart:204-248 | an integer member of any printed object is found by its key and is written as an integer |
| HostJson.DecodesDerivation | lib/src/relay/frame.dart:173-191 | the host's reader takes every derivation with paired surrogates, of any depth, as what it means |
| Client.Relay.TakeBytes | lib/src/relay/client.dart:118-136 | the decoded frames go to the waiter first and to the queue after; a violation fails the client; a payload that is not UTF-8 leaves it as it was |
| Client.Relay.FailWith | lib/src/relay/client.dart:140-148 | the first failure is remembered and wakes the waiter |
| Client.Relay.Request | lib/src/relay/client.dart:150-171 | a remembered failure is thrown, then a request over the budget is refused, both before anything is sent; else the encoded request is sent and a queued frame taken or a wait begun |
| Client.HangsExactly | lib/src/relay/client.dart:118-136 | a waiting request goes on waiting through any arrivals if and only if they complete no frame and no violation, or the first frame came together with a payload that is not UTF-8, before any other fault |
| Pairing.RequestsGetTheirReplies | lib/src/relay/client.dart:118-178 | in every run of host, transport and station whose replies are UTF-8 and within the budget: the queue is always empty, every completed request holds the session's answer to that very frame, in order, and the only failure seen is the station having closed after the session's end |
| Pairing.EveryRequestCompletes | lib/src/relay/client.dart:150-178 | from every reachable state an outstanding request can go on, and within at most 3 * (2^20 + 6) steps, whichever are taken, it is completed with the session's answer to it, or thrown if the session had ended |
| Pairing.StepProgress | lib/src/relay/client.dart:118-178 | every step brings an outstanding request nearer to its end or ends it |
| Pairing.Utf8BackendsAreGood | src/relay/session.cpp:80-388 | with a backend that names in UTF-8 the budget is the only thing asked of a reply |
| Deployment.DeployedRuns | src/relay/main.cpp:245-275 | for the station over the probing backend with profiles from a UTF-8 document, any steps from the start are such a run if and only if every CAPS_REPLY and DIAG_REPLY fits the frame budget |
| Deployment.OnlyReportsCanBeLarge | src/relay/session.cpp:80-388 | for any backend no other reply can be over the budget |
| Deployment.BackendUtf8 | src/relay/probe/probing_backend.cpp:55-75 | whatever its table, the probing backend names classes and limits in UTF-8 when its profile document is UTF-8 |
| Pairing.HostAndSessionAgree | lib/src/relay/client.dart:187-249 | in every run every answer passes the host's checks, and the revision recorded by the host is the one the session speaks |
| Pairing.ThrownOnlyAfterEnd | lib/src/relay/client.dart:140-148 | a request that failed was made to a session already over |
| Pairing.StationKeeps | src/relay/main.cpp:245-275 | a read of any size keeps the composed invariant |
| Pairing.HostKeeps | lib/src/relay/client.dart:118-136 | an arrival of any size keeps the composed invariant |
| Handles.NextIsCount | src/relay/probe/probing_backend.cpp:92-108 | over any run the next handle is one more than the opens so far, modulo 2^32 |
| Handles.HandlesDistinct | src/relay/probe/probing_backend.cpp:92-108 | over at most 2^32 - 1 opens all handles are non-zero and strictly increasing |
| Handles.HandlesRunOut | src/relay/probe/probing_backend.cpp:92-108 | the handle is 0 exactly when the count of opens has wrapped |
| Handles.LiveExactly | src/relay/probe/probing_backend.cpp:92-149 | a handle is live if and only if some open returned it and no close has named it since |
| Handles.LiveOnce | src/relay/probe/probing_backend.cpp:92-114 | no handle is listed twice, and none that was not given out |
| Handles.TargetCount | src/relay/probe/probing_backend.cpp:170-172 | over every run, past the wrap too, the target count is the opens minus the closes that closed something |
| SessionHandles.TableIsHistory | src/relay/session.cpp:224-330 | over every list of frames the handle table is the one its opens and closes make |
| SessionHandles.StatusExactlyForLiveHandle | src/relay/session.cpp:249-312 | over every list of frames with fewer than 2^32 opens, POST or SET gets STATUS if and only if the session is live, the fields have the right types, the engine has an entry point of the right shape, and the handle is one that an OPEN_ACK carried to the host and no acknowledged CLOSE has named since |
| SessionHandles.AckedHandlesDiffer | src/relay/session.cpp:224-247 | any two OPEN_ACKs of such a run carry different handles, growing and not zero |
| SessionHandles.LiveAsAcked | src/relay/probe/probing_backend.cpp:92-114 | a handle is live if and only if an OPEN_ACK carried it to the host and no CLOSE of it has been acknowledged since |
| SessionHandles.CloseAlwaysSucceeds | src/relay/session.cpp:314-330 | CLOSE of any handle in range is answered with STATUS, live or not |
| SessionHandles.OpenGivesNext | src/relay/session.cpp:224-247 | an OPEN on a bound engine puts the next handle in the table and is acknowledged with it, unless it is 0: then it is refused, 0 stays in the table, and no CLOSE can name it |
| ProbingBackend.ProbingBackend.EnsureProbed | src/relay/probe/probing_backend.cpp:33-53 | what the lazy cache holds is the one scan and binding of its setup, and a channel runs only for an engine that takes a sink |
| ProbingBackend.ProbingBackend.DisposeBulk | src/relay/probe/probing_backend.cpp:16-31 | whatever the other threads do during the wait and after it, a channel held ends freed or released; it is freed if and only if its worker had finished when the wait ended, and then the worker has left its loop, been joined and has no step left |
| ProbingBackend.ProbingBackend.Stop | src/relay/bulk/bulk_channel.cpp:89-110 | a first stop drives flag, wait and join and says whether the worker had finished when the wait ended; a later one changes nothing and says yes |
| ProbingBackend.ProbingBackend.Elapse | src/relay/bulk/bulk_channel.cpp:45-79 | any steps of the engine's and the worker's threads keep the backend's invariant |
| ProbingBackend.ProbingBackend.Destroy | src/relay/probe/probing_backend.cpp:16-31 | no channel is held after it, and one that was ended as disposal says |
| ProbingBackend.ProbingBackend.BulkChannel | src/relay/probe/probing_backend.cpp:77-80 | true exactly while an endpoint was given and the engine takes a sink for bulk |
| ProbingBackend.ProbingBackend.CapabilityClasses | src/relay/probe/probing_backend.cpp:55-66 | the satisfied profiles' classes in order, then the bulk class while a channel runs |
| ProbingBackend.ProbingBackend.OpenTarget | src/relay/probe/probing_backend.cpp:92-108 | the next handle, wrapping at 2^32, or no engine |
| ProbingBackend.ProbingBackend.CloseTarget | src/relay/probe/probing_backend.cpp:110-114 | removes the first occurrence of the handle, and only that |
| ProbingBackend.ProbingBackend.Post | src/relay/probe/probing_backend.cpp:116-133 | no engine, unknown handle, no such capability, in that order of precedence |
| ProbingBackend.ProbingBackend.SetLevel | src/relay/probe/probing_backend.cpp:135-149 | the same, for the level shape |
| ProbingBackend.RefusalsInOrder | src/relay/probe/probing_backend.cpp:116-149 | which of the three refusals comes, and when none does: each if and only if |
| ProbingBackend.ProbedEngine | src/relay/probe/probing_backend.cpp:33-66 | the engine the backend probes is the one of the first loadable candidate that satisfies a profile, with just its satisfied profiles; the classes it offers are theirs in order, and it can be called in a role and shape if and only if the first of them that declares the role declares that shape |
| Reports.DeployedFacts | src/relay/probe/probing_backend.cpp:151-190 | what each count of a report is for the real backend: files examined, candidates, addresses, targets, truncation, bytes of the channel |
| Reports.LimitsRead | src/relay/probe/probing_backend.cpp:68-75 | the limits are the two scan limits under their names, and print and parse unchanged |
| ProbingBackend.CarriesAudioExactly | src/relay/probe/probing_backend.cpp:33-53 | audio is carried if and only if an endpoint was given and the first satisfied bulk binding has shape sink |
| Scanner.ScanResult.Walk | src/relay/discovery/scanner.cpp:27-83 | the recursive walk over a shared result takes exactly the prefix of the pruned listing that the budget leaves, and sets `truncated` exactly when a limit was met |
| Scanner.ScanForCandidates | src/relay/discovery/scanner.cpp:87-104 | over all roots the files examined are the first maxFiles of the sorted, depth-pruned, link-free preorder listing |
| Scanner.NotTruncatedMeansComplete | src/relay/discovery/scanner.cpp:27-104 | a scan not truncated is the scan under any larger limits, which is not truncated either |
| Truncation.TruncatedExactly | src/relay/discovery/scanner.cpp:27-104 | `truncated` is set if and only if a directory the walk comes upon lies below the depth limit, or there are more files than allowed, or as many and the last of them is not the last thing to be looked at |
| Truncation.LostExactly | src/relay/discovery/scanner.cpp:27-104 | every file there is was examined if and only if there are no more than allowed and none lies below the depth limit |
| Truncation.TruncatedThoughComplete | src/relay/discovery/scanner.cpp:27-104 | `truncated` is set although nothing was lost if and only if both hold of the tree; never the other way round |
| Truncation.EmptyDirectoryBelow | src/relay/discovery/scanner.cpp:27-83 | one such tree: an empty directory below the depth limit |
| Truncation.LinkAfterLastFile | src/relay/discovery/scanner.cpp:27-83 | another: a link after the last file allowed |
| Scanner.EnumerationOrderIrrelevant | src/relay/discovery/scanner.cpp:27-83 | the order in which a directory is enumerated cannot be seen in the result |
| Scanner.CandidatesInOrder | src/relay/discovery/scanner.cpp:27-83 | the candidates are the loadable files in the order examined, numbered from 1 |
| ScanOrder.ListingExactly | src/relay/discovery/scanner.cpp:27-83 | a file is listed under a path if and only if the path is the root followed by the names that lead to it, through directories within the depth; the listing is in the order of the paths, name by name, each path once |
| ScanOrder.RootsInOrder | src/relay/discovery/scanner.cpp:87-104 | several roots are listed one after the other, and one that is no directory not at all |
| ScanOrder.NamesCompared | src/relay/discovery/scanner.cpp:27-83 | names are compared at the first byte in which they differ, a prefix first |
| Profiles.ParseProfiles | src/relay/probe/profile.cpp:69-132 | the nested loops with early refusal compute the specified reading |
| Profiles.ReadableExactlyValid | src/relay/probe/profile.cpp:69-132 | a list of profiles is the reading of some document if and only if it is not empty and every profile has a class name, at least one binding, one binding per role and no empty symbol |
| Profiles.DocumentReads | src/relay/probe/profile.cpp:69-132 | the document printed for a valid list reads back as that list, through the printer and the parser |
| Profiles.NamesRoundTrip | src/relay/probe/profile.cpp:24-60 | role and shape names read back as what they name |
| Profiles.NamesMean | src/relay/probe/profile.cpp:24-60 | the names of the roles and shapes, spelled out, each read as its own and no other text as any |
| Profiles.DocumentsMean | src/relay/probe/profile.cpp:69-132 | a text reads as a list of profiles if and only if it parses and the value describes that list: its members by name, in order, nothing else asked for |
| Profiles.ReadBindingsValid | src/relay/probe/profile.cpp:97-124 | bindings read are all of those listed, one per role, with symbols |
| Prober.BuildEngine | src/relay/probe/prober.cpp:21-41 | the constructor's nested loops fill the addresses the specification gives |
| Prober.ChosenEngineAgrees | src/relay/probe/prober.cpp:43-67 | for a chosen engine `addressFor` is non-null exactly when the first satisfied profile declaring the role declares that shape, and is then the address of that binding's symbol |
| Prober.AddressesAgree | src/relay/probe/prober.cpp:21-67 | the same for any engine whose profiles the library satisfies |
| Prober.LookupsAgreeExactly | src/relay/probe/prober.cpp:21-67 | for every library, profile list and role: for all shapes `addressFor` gives the declared binding's own address, if and only if nothing is declared, or the first binding declared resolves, or no binding of the role does |
| Prober.UnsatisfiedProfilesDisagree | src/relay/probe/prober.cpp:21-67 | the input: two unsatisfied profiles for which a call of the first's shape reaches the second's entry point |
| Prober.BindFirstAvailable | src/relay/probe/prober.cpp:93-131 | the loop picks the first loadable candidate that satisfies a profile, with the counters of candidates loaded and profiles tried |
| Prober.BoundToFirstThatSuits | src/relay/probe/prober.cpp:93-131 | if something is bound, the library is that of some candidate, no loadable one before it satisfies a profile, the profiles kept are exactly those satisfied, each once and in order, and the counters count the loadable candidates up to it; if nothing is, no loadable candidate satisfies any profile |
| Prober.BoundEngineCalls | src/relay/probe/prober.cpp:43-67 | what the engine bound can be called with, and where each call goes |
| Prober.BoundExactly | src/relay/probe/prober.cpp:93-131 | something is bound if and only if some loadable candidate satisfies some profile |
| Prober.SatisfiedInOrder | src/relay/probe/prober.cpp:93-131 | the engine's profiles are exactly the satisfied ones, each once, in file order |

## Left out

- Rounding to double, the sign of zero, the `%.17g` text of other numbers and what `strtod` makes of it: numbers are exact reals, the text of a number off the integer branch is a parameter; overflow to infinity is modelled.
- `asInt` outside the 64-bit range is undefined in C++; the model takes the value x86-64 gives.
- The memory model: acquire and release are stale but never backward snapshots of the peer's index; reordering of plain stores is covered by letting bytes be copied in any order before the index is published.
- ChannelProgress.WorkerNearer: of the worker's loads it asks that they see the newest index: one that saw an old index for ever would drain nothing, and that does not happen in a cache-coherent machine.
- Reports.DiagReads: counts from 10^15 on, whose printed text is the `%.17g` text that is a parameter.
- `size()` called from a third thread, where its two loads are no snapshot.
- `RingBuffer` and `BulkChannel` shared between threads are step systems, not classes; only the sequential ring is a class over an array.
- The engine still inside its sink, or calling it, when the channel is freed: the source uninstalls nothing, so this is a duty of engines, which are not part of this model.
- Timeouts and concurrent requests on the Dart client.
- The destructor of a channel that was never stopped, which leaves its worker running in freed memory: the backend stops its channel first.
- Runs of host and station in which a reply exceeds the frame budget or is not UTF-8: `Pairing` speaks of the others; `Client.HangsExactly` says what a reply that is not UTF-8 does.
- What a Dart runtime does with the exception that nothing catches: the client is left as it is.
- Station.Run: a write to the transport is never refused, and one read with everything it leads to is one step of `Pairing`.
- Dart's `jsonDecode` is a predicate on payloads in `FramesDart` and the reader of `HostJson` elsewhere; unlike it, Dart's takes unpaired surrogate escapes and drops a leading byte order mark, and the station writes neither.
- `Capabilities.fromPayload` and `Diagnostics.fromPayload`, which accept any payload.
- ProbingBackend.ProbingBackend.BulkChannel: how long a stop waits is not modelled, only what the other threads do meanwhile; the byte counters of the channel are parameters of the backend the session sees, their meaning is proved in `BulkChannel`.
- Backend queries do not change what a session sees of a backend: the lazy probe is a cache of one answer.
- Scanner.ScanResult.Walk: the file system is a finite tree that stands still; links, special files and entries whose status cannot be read are leaves that are skipped; recognising a module by its magic numbers is a flag on each file.
- Whether a level reaches an engine function and what it does there: a library is a map from symbols to addresses, and calls go no further.
- The transports, dynamic loading, wide strings, command line, transcripts, `NullBackend`, `DiscoveryBackend` and the reading of the profile file.
