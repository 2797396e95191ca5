# A model of libvarlink

libvarlink is a C library for JSON calls and replies over byte streams. This project models its four layers and
proves what they owe each other:

1. the **AVL tree with parent pointers** under every object, type, interface and service;
2. the **JSON** scanner, parser and printer with the UTF-8 verifier;
3. the **byte stream**, the messages on it, and the **call/reply protocol** of client and server;
4. the **interface description language**.

Code that changes things in place is imperative here too: tree nodes, scanners, objects, arrays, stream buffers,
connections and services are classes or arrays that are updated by loops. Each method is proved against a function
of the values before it, and the theorems are about these functions. Characters stand for bytes; every text that
enters the scanner is required to consist of characters below 256, and reading one position past the end of a text
gives the terminating NUL.

| file | what it holds |
|---|---|
| `Errors`, `Text`, `Names` | error codes; C strings and `strcmp`; maps ordered by name |
| `Ordered` | sorted sequences: what a map is, whatever the history of insertions and removals |
| `AvlShape`, `AvlTree` | shapes of trees and of their surroundings (a zipper); the code on nodes |
| `Floats` | doubles as exact numbers, rounded to digits and back |
| `Utf8` | well-formed sequences, encoding and decoding, the word-at-a-time verifier |
| `Tokens`, `Literals`, `Scanning` | tokens as functions of a text; literals printed and read; the scanner object |
| `Numerals`, `Spellings` | numbers and string literals as they can be written, and what they stand for |
| `Json`, `JsonGrammar` | values, reader and printer; the documents that can be written, which are exactly those accepted |
| `JsonRoundTrip`, `JsonSound`, `JsonExact`, `JsonText` | theorems about printing and reading |
| `Containers`, `JsonReader`, `JsonWriter` | mutable objects and arrays; the parse and print loops |
| `Message`, `Framing` | calls and replies as objects; NUL framing |
| `Descriptor`, `Filling` | what a socket answers; how far a reader and a writer get with it |
| `Stream`, `EndToEnd` | the buffers; delivery |
| `Forgery` | what a quote in the name of a parameter can do to a call |
| `Protocol` | client, server and two channels as a transition system |
| `Connection`, `Service` | the client's and the server's end as classes, with a history of what they did |
| `Session` | both ends and the bytes between them: together they are a run of `Protocol` |
| `Uri`, `Directory`, `Dispatch` | names of methods and errors; the interfaces of a service; the service that finds and runs the methods of calls |
| `Information` | what clients get to see of a service: its answers about itself, and its errors |
| `Fairness` | what a service, and the client's calls to it, do to the conditions of the protocol |
| `Idl`, `IdlReader`, `IdlWriter` | reader and printer of interfaces; their loops |
| `IdlGrammar`, `IdlLayout` | the words and signs of an interface, and the gaps between them: exactly such texts are accepted |
| `IdlReferences` | which types an interface refers to, and whether they are there |
| `IdlRoundTrip`, `IdlSound`, `IdlText` | theorems about interfaces |

## Where the code differs from what is said about it

- `varlink_stream_write` compares the unsigned result of a flush with zero from below, so errors of the descriptor
  never reach its caller (lib/stream.c:310-312). `Streams.Stream.Write` says so: only the two size checks fail.
- A string literal that cannot be read makes `varlink_value_read_from_scanner` return a negative number, which its
  callers take for success (lib/value.c:74-76). Parsing rejects the document all the same, because the scanner
  stays in front of the quote: `JsonSound.AcceptedIsGood`.
- Names are printed without escaping (lib/object.c:486), so not every object is read back as it was printed.
  `JsonExact.RoundTripExactly` says for every object whether it is, and `JsonRoundTrip.QuotedNameForges` shows what a
  quote in a name can do. In the parameters of a call it can make a call that waits for its reply arrive as one that
  takes none: `Forgery.ParametersForge` and, with an example, `Forgery.ArrivesOneWay`.
- The check that all referenced types exist (lib/interface.c:292) does not look into optional types:
  `IdlReferences.ResolvesNeeded` and `IdlSound.UndeclaredTypeAccepted`.
- String literals may hold control characters other than NUL, tab and newline as they are (lib/scanner.c:524-639), which
  RFC 8259, section 7, does not allow: `Spellings.LiteralIsSpelled`.
- A comment is the documentation of the next documented word, even if other words stand between, unless there is an
  empty line (lib/scanner.c:77-153): `IdlLayout.LaidOutExactly`.
- A dispatch resets the mask of awaited events, and so forgets that it waits for output when only input was ready and
  nothing is written (lib/service.c:532-542): `Services.DispatchConnection` states exactly when, and
  `Services.ForgetOutput` is such a dispatch. An error reply made later is not followed by an update of epoll
  (lib/service.c:722-727): `Services.ReplyError`.
- The service answers calls that it cannot serve with errors, one-way calls too (lib/service.c:262-288), which breaks
  the protocol: `Fairness.OwnAnswerHarmsExactly`. A malformed method name is answered with an error that the library
  then refuses to send, for the same reason, and the connection is closed: `Fairness.BadNameFails`.
- lib/avltree.h names other error codes than lib/avltree.c returns; the model follows the code.
- The protocol is safe under four conditions: there is room for the text of every call that is to be answered; no
  error is sent for a one-way call; only calls that asked for more get continued replies; and no name in the
  parameters of a call or of an answer that is written has a quote or backslash. `Protocol.HarmExactly` shows that at
  every step each of the first three is needed, and `Forgery.ParametersForge` what happens without the fourth. All
  four are left to the users of the library, and the second is not in the hands of the server's user alone: a service
  that looks up its methods sends such errors by itself, so that there it is for the client to make one-way calls only
  to methods that the service has and that are implemented, and to ask for descriptions only of interfaces that are
  there. `Fairness.ServeEvents` shows that this is enough. `Session` carries the protocol to the code: whatever the
  two ends do, they take its steps.

## Model

| member | source | states |
|---|---|---|
| AvlTrees.RotateLeft | lib/avltree.c:64-92 | links, parents and heights after a left rotation, and the parent's link to the new root of the subtree |
| AvlTrees.RotateRight | lib/avltree.c:101-129 | the mirror image |
| AvlShape.RebalancedContents | lib/avltree.c:135-156 | rotations keep the elements and their order |
| AvlShape.RebalancedHeight | lib/avltree.c:135-156 | a tree whose sides differ by two becomes balanced, and its height shrinks by at most one |
| AvlTrees.RebalanceNode | lib/avltree.c:135-156 | the rotations chosen by the stored heights produce the rebalanced shape in place |
| AvlTrees.InsertSubtree | lib/avltree.c:243-289 | recursive insertion through the link: key exists and nothing is changed, or the balanced tree with one new leaf |
| AvlShape.Grown | lib/avltree.c:243-289 | after an insertion a balanced tree is balanced, and at most one level higher |
| AvlShape.GrownNodes | lib/avltree.c:243-289 | the grown tree has the old nodes and the new leaf, each once |
| AvlShape.GrownInserts | lib/avltree.c:243-289 | the in-order elements of the grown tree are those of a sorted insertion |
| AvlTrees.AvlTree.Insert | lib/avltree.c:291-300 | refines insertion into a sorted map, keeps order, balance, stored heights, mutual links and the count; an existing key leaves the very same nodes |
| AvlShape.RefreshedStep | lib/avltree.c:302-313 | one step of the walk: the subtree is balanced again, its height falls by at most one, and the step outward meets its premises |
| AvlTrees.RebalanceFrom | lib/avltree.c:302-313 | the walk to the root restores heights and balance of every ancestor, ends at the root, and loses no element |
| AvlShape.LoneSide | lib/avltree.c:334-358 | in a balanced tree the only child of a node is a leaf, so freeing it without looking below loses nothing |
| AvlShape.SplicedValues | lib/avltree.c:324-347 | moving the rightmost value of the left side up and dropping its node loses exactly the removed value |
| AvlTrees.RemoveNode | lib/avltree.c:315-381 | each of the removal cases takes exactly one value out of the sequence and leaves a balanced linked tree |
| AvlTrees.AvlTree.Remove | lib/avltree.c:315-381 | refines removal from a sorted map; an unknown key leaves the very same nodes; the count follows |
| AvlTrees.AvlTree.FindNode | lib/avltree.c:391-406 | finds the node of a key iff there is one, in at most as many steps as the tree is high |
| AvlTrees.AvlTree.PathBound | lib/avltree.c:391-406 | a path of n steps needs at least Fib(n+2) - 1 elements, and a search among n elements takes at most 2 log2(n+1) + 1 steps |
| AvlShape.HeightIsLogarithmic | lib/avltree.c:135-156 | a balanced tree of height h holds at least Fib(h+2) - 1 elements |
| AvlShape.HeightBound | lib/avltree.c:135-156 | a balanced tree of n elements is at most 2 log2(n+1) + 1 levels high |
| AvlTrees.AvlTree.Find | lib/avltree.c:383-389 | the stored value of a key, or none |
| AvlTrees.NodeNext | lib/avltree.c:19-34 | through parent links, the in-order successor, or null at the end |
| AvlTrees.NodePrevious | lib/avltree.c:36-51 | the in-order predecessor, or null at the start: the exact reverse |
| AvlTrees.AvlTree.First | lib/avltree.c:192-202 | the first node in order |
| AvlTrees.AvlTree.Last | lib/avltree.c:204-214 | the last node in order |
| AvlTrees.AvlTree.GetElements | lib/avltree.c:220-241 | first and repeated next visit every element once, in order, and fill exactly the counted slots |
| Ordered.SortedCanonical | lib/avltree.c:243-289 | a sorted map is determined by its elements, whatever history led to it |
| Ordered.RemoveInsert | lib/avltree.c:315-381 | removing what was just inserted gives back the original map |
| Names.ByNameLawful | lib/object.c:26-30 | `strcmp` on names is a strict linear order that matches exactly equal names |
| Text.StrCmpDecides | lib/object.c:26-30 | the first byte in which two strings differ decides their order, and the end of a string comes first |
| Utf8.WordTest | lib/c-utf8.c:29-32 | the subtract-and-mask test holds iff all eight bytes are in 0x01..0x7F, despite borrows |
| Utf8.VerifyAscii | lib/c-utf8.c:48-97 | the aligned two-word loop equals the byte scan for every alignment and length |
| Utf8.Verify | lib/c-utf8.c:115-241 | stops exactly at the end of the longest prefix made of well-formed sequences without U+0000 |
| Utf8.DecodeEncode | lib/scanner.c:494-518 | the bytes written for a scalar value decode to it and are well-formed unless it is zero |
| Utf8.EncodeDecode | lib/c-utf8.c:115-241 | a well-formed sequence is the encoding of the scalar value it decodes to |
| Utf8.EncodingUnique | lib/scanner.c:494-518 | no other sequence encodes the same scalar value |
| Utf8.ValidIffEncoded | lib/c-utf8.c:115-241 | valid strings are exactly the concatenated encodings of scalar values other than zero |
| Floats.NearestIsNearest | lib/scanner.c:652-659 | a decimal number is read as a double than which no other is nearer |
| Floats.NearestIsEven | lib/scanner.c:652-659 | of two doubles that are equally near, the one with the even significand is read |
| Floats.NearestOverflows | lib/scanner.c:652-659 | a number is refused iff it is at least half a step beyond the largest double |
| Floats.DecimalIsNearest | lib/scanner.c:652-659 | digits with a power of ten are read as a double of their sign than which no other is nearer to their value |
| Floats.FloatRoundTrip | lib/value.c:177-184 | 22 digits identify a double: every finite one, subnormal ones too, is read back from its rounded decimal form as it was |
| Scanning.Scanner.Advance | lib/scanner.c:77-108 | skips blanks and comments and remembers where the last comment starts, forgetting it at an empty line |
| Scanning.Scanner.WordLen | lib/scanner.c:160-186 | the length of the word at the next token |
| Scanning.Scanner.ReadKeyword | lib/scanner.c:188-201 | a whole word is compared, not a prefix |
| Scanning.Scanner.ExpectOperator | lib/scanner.c:673-685 | moves past an operator iff it comes next |
| Scanning.ReadUnicodeChar | lib/scanner.c:459-521 | the encoding of the code point of an escape or surrogate pair; lone and inverted surrogates are refused |
| Scanning.ScanBody | lib/scanner.c:524-639 | collects what the grammar of literals says, piece by piece |
| Scanning.Scanner.ExpectString | lib/scanner.c:524-639 | a literal is accepted iff it is well-formed and its bytes are valid UTF-8; otherwise the scanner stays in front of it |
| Spellings.LiteralIsRead | lib/scanner.c:459-639 | a literal, with its characters as they are or in any of their escapes and surrogate pairs, is read as the string it stands for iff this is valid UTF-8 |
| Spellings.LiteralIsSpelled | lib/scanner.c:459-639 | nothing else is read as a string |
| Scanning.ReadDigits | lib/scanner.c:641-671 | decimal digits with their value, or overflow, with nothing computed beyond the limit |
| Numerals.NumeralIsRead | lib/scanner.c:641-671 | blanks, a sign, digits, a fraction and an exponent, with either sign and either letter, are read as exactly the number they stand for, with nothing left over; a letter without digits behind it adds nothing |
| Numerals.NumberIsNumeral | lib/scanner.c:641-671 | nothing else is read as a number |
| Scanning.Scanner.ReadNumber | lib/scanner.c:641-671 | integers in the range of long, and decimal numbers, as the nearest double, that are not rounded to infinity; all others are refused: the number at the scanner, which `Numerals` pins for every way to write it |
| Literals.WriteString | lib/value.c:97-149 | every byte is written as itself or as its escape |
| Spellings.EscapeIsShortest | lib/value.c:97-149 | no literal that RFC 8259 allows stands for the same string and is shorter than the one that is written |
| Literals.StringRoundTrip | lib/value.c:97-149 | scanning the quoted output of the writer succeeds iff the string is valid UTF-8, and then yields it and consumes exactly the literal |
| Literals.KeyRoundTrip | lib/object.c:486 | a name printed unescaped is read back iff it has no quote, backslash, tab or newline and is valid UTF-8 |
| Literals.IntegerRoundTrip | lib/value.c:172-175 | printed 64-bit integers are read back exactly |
| Literals.FloatRoundTrip | lib/value.c:177-184 | printed floats are read back exactly, in front of anything but a digit |
| Containers.VarlinkObject.AddField | lib/object.c:43-63 | adds an undefined field, or reports that the name is taken |
| Containers.VarlinkObject.RemoveField | lib/object.c:65-67 | the field is gone and nothing else |
| Containers.VarlinkObject.Set | lib/object.c:378-396 | the typed setters: read-only, or a map update |
| Containers.VarlinkObject.SetNull | lib/object.c:316-322 | removes the field |
| Containers.WithFieldReads | lib/object.c:271-284 | after a set the field reads back, and every other field reads as before |
| Containers.VarlinkObject.GetBool | lib/object.c:224-237 | unknown field, wrong type, or the value |
| Containers.VarlinkObject.GetString | lib/object.c:271-284 | unknown field, wrong type, or the value |
| Containers.VarlinkObject.GetObject | lib/object.c:301-314 | unknown field, wrong type, or the value |
| Containers.VarlinkObject.GetFieldNames | lib/object.c:193-222 | the names in strict order, and a final null |
| Containers.VarlinkObject.Collect | lib/object.c:462-495 | looking up all listed names gives all fields |
| Containers.VarlinkArray.AppendSlot | lib/array.c:19-35 | one more undefined element; the storage doubles when full and keeps its contents |
| Containers.VarlinkArray.FillSlot | lib/array.c:81-90 | an element is taken iff it fits the kind of the array, which null never changes |
| Containers.VarlinkArray.Add | lib/array.c:229-249 | the typed appends: read-only, wrong type, or one more element |
| Containers.AppendStaysWellFormed | lib/array.c:229-249 | arrays built by the appends are ones that can be printed and read back |
| JsonReader.ReadValue | lib/value.c:37-95 | the reader on the scanner gives what the grammar says, for every text, position and depth |
| JsonReader.ReadObject | lib/object.c:89-139 | the object loop with its in-place field tree |
| JsonReader.ReadField | lib/object.c:102-130 | one round: duplicate names fail, null fields are dropped again |
| JsonReader.ReadArray | lib/array.c:57-102 | the array loop with its slots and kinds |
| JsonWriter.WriteValue | lib/value.c:151-215 | the printed text of every value |
| JsonWriter.WriteArray | lib/array.c:363-414 | separators and margins of arrays |
| JsonWriter.WriteFields | lib/object.c:453-510 | separators, margins and names of objects |
| JsonWriter.ToJson | lib/object.c:512-549 | the text of a mutable object is that of its sorted fields |
| JsonWriter.FromJson | lib/object.c:141-170 | one object and nothing behind it |
| JsonGrammar.AcceptedExactly | lib/object.c:141-170 | for every text without NUL and all fields: the text is read as the fields iff it is a document, with any blanks between its parts, whose names are new, whose arrays are of one kind and whose nesting is bounded, and that stands for the fields |
| JsonGrammar.DocumentIsRead | lib/value.c:37-95 | one half: whatever can be written is read as what it stands for |
| JsonGrammar.DocumentIsWritten | lib/value.c:37-95 | the other half: whatever is read could be written, and stands for what was read |
| JsonGrammar.FieldsAre | lib/object.c:102-130 | the fields of an object are its entries that are not null, in order of their names |
| JsonRoundTrip.RoundTrip | lib/object.c:141-170 | for every object whose names have no quote and backslash, and every indentation: printing and parsing gives the object iff all strings and names are valid UTF-8, no name has a tab or newline, and nesting stays below 1000; otherwise parsing fails |
| JsonRoundTrip.QuotedNameForges | lib/object.c:486 | for any two legal fields there is one field, with a quote in its name, that prints as the two |
| JsonSound.AcceptedIsGood | lib/value.c:37-95 | no accepted document holds an undefined value, a bad string or name, a null field, a mixed array, or nesting of 1000 or more |
| JsonSound.ParsePrintParse | lib/object.c:141-170 | printing an accepted document whose names have no quote or backslash, and parsing it again, changes nothing |
| JsonExact.UnescapeWeight | lib/scanner.c:524-639 | what a literal stands for weighs no more, escaped, than the literal, whichever escapes it uses |
| JsonExact.ReadCosts | lib/value.c:37-95 | no text weighs less than the value that is read from it costs |
| JsonExact.PrintWeight | lib/value.c:151-215 | a printed value weighs what it costs, and less if one of its names would have to be escaped |
| JsonExact.RoundTripExactly | lib/object.c:453-510 | for every object, whatever its names and values, and every indentation: printing and parsing gives the object back iff its strings and names are valid UTF-8, no name holds a quote, backslash, tab or newline, and nesting stays below 1000 |
| JsonExact.NothingAdded | lib/object.c:453-510 | if all fields of an object are among those read from its text, its names are plain and nothing else is read |
| JsonExact.ParsePrintParseExactly | lib/object.c:141-170 | an accepted document is unchanged by printing and parsing iff its names need no escape |
| JsonText.PrintObjectNulFree | lib/object.c:453-510 | printed JSON contains no NUL |
| JsonText.PrintIsCanonical | lib/object.c:453-510 | the text depends on the fields only |
| Message.PackCall | lib/message.c:8-48 | the fields of a call; more together with oneway is an invalid call |
| Message.PackReply | lib/message.c:105-138 | the fields of a reply |
| Message.CallMembers | lib/message.c:8-48 | a packed call has exactly the fields for its method, parameters and flags, in order |
| Message.ReplyMembers | lib/message.c:105-138 | the same for replies |
| Message.UnpackCall | lib/message.c:50-103 | missing or ill-typed fields, defaults, and flags |
| Message.UnpackReply | lib/message.c:140-188 | the same for replies |
| Message.CallIsAccepted | lib/message.c:50-103 | a message is a call iff it has a method, and its parameters and flags are objects and booleans, if it has any; further fields do not matter |
| Message.ReplyIsAccepted | lib/message.c:140-188 | a message is a reply iff its error, its parameters and its flag are of their kinds, if it has any |
| Message.CallUnpacks | lib/message.c:50-103 | unpacking a packed call gives back method, parameters and flags |
| Message.ReplyUnpacks | lib/message.c:140-188 | unpacking a packed reply gives back error, parameters and flag |
| Message.CallDelivered | lib/message.c:8-48 | for all parameters: a printed call is parsed back iff its method is valid UTF-8 and its parameters are within the limits of the scanner; and it is refused otherwise unless a name in it has a quote or backslash |
| Message.ReplyDelivered | lib/message.c:105-138 | the same for replies |
| Message.RequestArrives | lib/message.c:8-103 | for all parameters: the text of a request is read as that request iff its method is valid UTF-8 and its parameters are within the limits of the scanner; otherwise it is no JSON, unless a name in it has a quote or backslash |
| Message.ResponseArrives | lib/message.c:105-188 | the same for responses |
| Forgery.ParametersForge | lib/object.c:486 | for any method and any two parameters there is a two-way call, with a quote in the name of its only parameter, that arrives as a one-way call of the method with the first of the two |
| Forgery.ArrivesOneWay | lib/object.c:486 | an example: a call with the parameter 2 arrives as a one-way call with the parameter 1 |
| Framing.SplitFramed | lib/stream.c:226-235 | splitting at NULs undoes framing |
| Framing.Received | lib/stream.c:222-287 | a receiver of a part of the bytes has a prefix of the messages, and what is left over starts the others |
| Framing.UnreadIsShort | lib/stream.c:239-240 | bytes without NUL at the front of framed messages are at most one message |
| Streams.MoveRest | lib/stream.c:50-64 | compaction keeps the rest of the buffer |
| Streams.Stream.Flush | lib/stream.c:66-100 | sends as much as the descriptor takes, for every short write and error, says why it stops and how much is left; sent and unsent bytes stay the framed accepted messages |
| Streams.Stream.Send | lib/stream.c:294-308 | a message is accepted iff it fits: exact size limits; an accepted one is appended with one NUL and sent as far as the descriptor takes it, a refused one changes nothing |
| Streams.Stream.Write | lib/stream.c:289-316 | positive iff nothing is left to send; descriptor errors do not show |
| Streams.Stream.TakeMessage | lib/stream.c:226-235 | the next frame is parsed and cut off; a frame that is no JSON stays |
| Streams.Stream.Read | lib/stream.c:222-287 | reads on until a message is whole, the buffer is full or the descriptor answers otherwise: exactly the message, the outcome, the rest of the buffer and the rest of the input that `Filling.Fill` gives; the frames handed on are those of the received bytes, in order |
| Filling.FillExactly | lib/stream.c:222-287 | however the input is chopped, a reader comes to the first message in what it holds and what arrives, if it ends inside the buffer; to a full buffer if it does not; and otherwise, with all the bytes, to the EAGAIN, the end of the stream or the error behind them |
| Filling.FillDelivers | lib/stream.c:242-275 | if only chunks and EINTR are ahead, the next message of all the bytes is delivered, or there is none and everything has been read |
| Filling.ReadMeans | lib/stream.c:222-287 | no byte is lost; a message that is handed on is the next frame; and if there is none, no message is complete |
| Filling.EmptyExactly | lib/stream.c:66-100 | however short the writes are, a writer gets rid of everything, or of exactly as much as the descriptor takes before it refuses |
| EndToEnd.MessagesArriveInOrder | lib/stream.c:222-316 | for every pattern of short reads and writes the receiver cuts off the accepted messages in order, never meets a full buffer, and in the end has them all |
| EndToEnd.CallsArrive | lib/message.c:8-103 | pack, print, frame, chop, cut, parse and unpack deliver the same method, parameters and flags iff the method is valid UTF-8 and the parameters are within the limits of the scanner; where no name has a quote or backslash, whatever is cut off is delivered unchanged |
| EndToEnd.RepliesArrive | lib/message.c:105-188 | the same for errors, parameters and flags of replies |
| Protocol.StepKeepsExactly | lib/connection.c:208-248 | a step keeps the global invariant iff there is room for a call that is to be answered, no error answers a one-way call, and no reply is continued without more |
| Protocol.UnallowedStepHarms | lib/connection.c:133-175 | from every good state, after any step that is not allowed, an allowed continuation makes the client give up or gives a callback a reply to another call |
| Protocol.HarmExactly | lib/connection.c:133-175 | a step from a good state can lead to such harm, by allowed steps, iff it is not allowed itself |
| Protocol.RepliesReachTheirCalls | lib/connection.c:133-175 | in every allowed run no message is invalid, each reply read belongs to the first pending callback, and the pending callbacks are those of final replies under way, the current call, and calls under way |
| Protocol.FailedCallMisdirects | lib/connection.c:228-241 | a call that fails after queueing lets the next reply reach the wrong callback |
| Protocol.ErrorToOneWayMisdirects | lib/service.c:678-728 | an error for a one-way call reaches another call's callback |
| Protocol.ContinuedWithoutMoreIsInvalid | lib/service.c:644 | a continued reply without more makes the client give up |
| Protocol.CallsCanFinish | lib/connection.c:133-175 | from every good state some allowed run serves every callback |
| Protocol.ServerStep | lib/service.c:544-568 | whatever is called: no request is taken up before the current one is finished, and only the current call is answered |
| Protocol.EachCallIsAnsweredOnce | lib/service.c:635-676 | in every allowed run the callbacks are given, call by call, continued replies and then at most one final one, and nothing for one-way calls |
| Connections.Connection.Call | lib/connection.c:208-248 | refused without a trace when closed or contradictory; otherwise the result is success, too long or too much unsent exactly as the room for the text says, the call is noted with what was unsent, and queue, subscription and accepted texts stay those of what was noted |
| Connections.Connection.Submit | lib/connection.c:228-247 | the callback is queued before the call is written, and stays queued when there is no room for the text, which alone makes writing fail |
| Connections.Connection.Act | lib/connection.c:208-248 | what is noted are the calls of a callback, one-way ones too, each with its own outcome, until it closes the connection |
| Connections.Connection.Deliver | lib/connection.c:147-170 | the first callback gets the reply and its calls queue up behind those that wait, or the message is invalid and nothing but its removal changes; the outcome, and whether the connection is closed, are those of the callback |
| Connections.Connection.ProcessEvents | lib/connection.c:116-182 | messages are taken one by one, each given to the first callback, which acts, until a callback fails, the connection is closed, a message is invalid or the stream hands on none; on success with the connection open no message is left, the descriptor has answered EAGAIN, and input is awaited exactly while callbacks wait; on every exit unsent output implies EPOLLOUT |
| Connections.Connection.HandleMessages | lib/connection.c:133-170 | the loop: what is noted is every message that arrived, in order, up to the one that ended it, with how it ended |
| Services.TakeUp | lib/service.c:62-85 | an unpacked call becomes the current one |
| Services.Reply | lib/service.c:635-676 | only the current call is answered; nothing is written for one-way calls, contradictory flags are refused, and any other reply succeeds iff there is room for its text; final replies end the call; output that is left is awaited at once; a refused reply changes nothing |
| Services.ReplyError | lib/service.c:678-728 | an error is sent iff it is declared by the interface of the method or by that of the service, both names are well-formed, and there is room for its text; for one-way calls too; it ends the call; output that is left goes into the mask, which is not put into effect |
| Services.Round | lib/service.c:544-568 | one message is read, unpacked and handled; noted are the request and every answer of its handler, in order, with the outcome its checks and the room for it give, until the call is finished; a handler that fails closes the connection; if nothing is noted there is a reason: nothing to read, unreadable input, or no request |
| Services.ReadRequests | lib/service.c:544-568 | requests are those in the frames, in order, each with all its handler's answers, and none is read while a call is current; it ends with a current call, a handler that failed, or a reason why no request can be read |
| Services.DispatchConnection | lib/service.c:527-579 | if it is ready for input, requests are handled until a call is current, no message is left and the descriptor has answered EAGAIN, a handler failed, the input cannot be read, or a message is no request, each with its own outcome; afterwards input is awaited iff no call is current, and output that is left is awaited iff there was room for output or something was written: otherwise the wait for output is forgotten |
| Services.ForgetOutput | lib/service.c:527-579 | with output left over and a part of a message arriving, a dispatch leaves the output where it is and waits for no room to send it |
| Services.AnswerSucceeds | lib/service.c:635-728 | an answer to the current call succeeds iff it is no continued reply to a one-way call, its checks succeed and it fits; then the call stays current iff the reply is continued |
| Services.NotesAreSteps | lib/service.c:635-728 | taking up a request is the protocol's dispatch, an attempt to answer its reply or error step, accepted or not |
| Services.ServerConverses | lib/service.c:527-728 | whatever handlers do, a server is done with one call before it takes up the next, and gives each call its answers |
| Sessions.ClientMoves | lib/connection.c:116-248 | a call or a message of the client is a step of the protocol, also in the midst of a callback, with requests those whose texts were accepted and not yet taken up |
| Sessions.ServerMoves | lib/service.c:527-728 | the same for what the server takes up and answers |
| Sessions.ClientHears | lib/stream.c:222-316 | for every chopping of the bytes, the messages of the client are the responses of the server, in order |
| Sessions.ServerHears | lib/stream.c:222-316 | the requests of the server are the calls of the client that were accepted, in order |
| Sessions.Session.Call | lib/connection.c:208-248 | a call keeps client and server together a run of the protocol, as long as both sides keep to the four conditions |
| Sessions.Session.ClientEvents | lib/connection.c:116-182 | so does handling events at the client, with all that its callbacks do; and on success with the connection open no message that arrived is left |
| Sessions.Session.ServerEvents | lib/service.c:527-579 | and at the server, with all that its handlers do; and no request that arrived is left unless a call is current, the connection is closed or the input is none |
| Sessions.Session.Reply | lib/service.c:635-728 | and a reply or error made later |
| Sessions.RepliesReachTheirCallbacks | lib/connection.c:133-175 | if there was room for every call to be answered, no error was sent for a one-way call, no reply was continued without more, and no name in the parameters of a call or written answer has a quote or backslash, then every reply a callback was given is, field for field, the response to the very call the callback was queued for, and that call had reached the server unchanged |
| Sessions.QuietMeansServed | lib/connection.c:133-175 | under the same four conditions, when all bytes are carried and handled and no call is current, no callback waits any more |
| Sessions.ServeAll | lib/service.c:527-579 | when the client's bytes are carried undisturbed and events are handled, the server has taken up every accepted call, unless it is closed, works on a call or reports an error |
| Sessions.HearAll | lib/connection.c:116-182 | when the server's bytes are carried undisturbed and events are handled, the client has heard every message, and if the server has nothing more to do no callback waits any more |
| Uris.PlainName | lib/uri.c:140-263 | a name without colon, number sign, question mark and slash is split at its last dot |
| Uris.NameInAddress | lib/uri.c:140-263 | in an address without a protocol, the name is what stands behind the last slash and in front of a number sign or question mark |
| Uris.NameBehindProtocol | lib/uri.c:140-263 | an address with a protocol is refused unless it has a path that can be decoded and, for TCP, has no slash; otherwise its name is that behind the last slash |
| Directories.ErrorMayBeSent | lib/service.c:678-712 | an error passes the check iff it is declared in the interface it names, and that is the interface of the method called or that of the service itself |
| Dispatching.VarlinkService.AddInterface | lib/service.c:432-484 | an interface is added, with its callbacks, iff its description is accepted, all methods are declared there and its name is new; otherwise nothing changes |
| Dispatching.AddedIsComplete | lib/service.c:432-484 | a service keeps its own interface and methods, its interfaces in order, each under its own name and well-formed, and callbacks for declared methods only |
| Dispatching.AddedFinds | lib/service.c:262-288 | once an interface is added, a call to one of its methods finds the last callback registered for it, or that there is none or no such method; all other calls find what they found before |
| Dispatching.MethodIsIdentified | lib/uri.c:140-263 | every method of an accepted description is found under the name of the interface, a dot and its own name |
| Dispatching.ErrorIffNotServed | lib/service.c:232-288 | the library's own answer to a call is an error iff the method is not declared or not implemented, or a description is asked for an interface that is not there; and the error is refused by the library itself iff the method's name is malformed |
| Dispatching.InfoListsInterfaces | lib/service.c:166-204 | GetInfo lists every interface once, in the order of `strcmp` |
| Information.InfoTells | lib/service.c:166-204 | GetInfo tells vendor, product, version and url each under its own name, if the service was given them, and nothing else but the interfaces |
| Information.TellsInfo | lib/service.c:166-204 | a call of GetInfo is answered with this |
| Information.RefusedWith | lib/service.c:206-288 | a call of a method whose interface is not there, that is not declared or that has no callback is answered with InterfaceNotFound, MethodNotFound or MethodNotImplemented and with the name that is missing; every other goes to the callback registered for it |
| Information.DescribesTheInterface | lib/service.c:232-260 | a call for a description is answered with a text from which this very interface is read again, but for the documentation of fields, or with the error that the parameter or the interface is missing |
| Fairness.HandledFair | lib/service.c:544-568 | handlers whose plans are fair to their requests leave fair histories, however many requests arrive at once |
| Fairness.RespondFair | lib/service.c:262-288 | a service whose users' callbacks are fair is fair to every call but a one-way call that it refuses |
| Fairness.ServeEvents | lib/service.c:527-579 | if the client makes one-way calls only to methods that the service has and that are implemented, the conditions of the protocol are kept whatever arrives; and what arrives is handled as `Sessions.Session.ServerEvents` says |
| Fairness.OwnAnswerHarmsExactly | lib/service.c:262-288 | from every good state the library's own answer to a one-way call can lead to harm, by allowed steps, iff the call is refused and there is room for the error |
| Fairness.BadNameFails | lib/service.c:562-566 | a call with a malformed method name gets no answer and its handler fails, which closes the connection |
| IdlReader.InterfaceNameValid | lib/scanner.c:203-264 | the dots and dashes of interface names |
| IdlReader.MemberNameValid | lib/scanner.c:340-362 | member names |
| IdlReader.ExpectFieldName | lib/scanner.c:285-338 | field names, with no two underscores in a row |
| IdlReader.FieldNameValid | lib/scanner.c:285-338 | a letter first, single underscores between letters and digits, and none at the end |
| IdlReader.TypeNameValid | lib/scanner.c:383-438 | plain and qualified type names |
| IdlReader.GetLastDocstring | lib/scanner.c:110-153 | the comment lines in front of the token, without their marks, used up once |
| IdlReader.ReadType | lib/type.c:36-192 | the type the grammar says, for every text and scanner state |
| IdlReader.ReadOneField | lib/type.c:112-172 | one field with its documentation; duplicates are found by the sorted tree |
| IdlReader.ResolveType | lib/interface.c:45-85 | looks up aliases in the member tree |
| IdlReader.NewInterface | lib/interface.c:334-359 | the interface the grammar says, or none |
| IdlReader.ReadMember | lib/interface.c:172-287 | one member with its documentation |
| IdlWriter.WriteDocstring | lib/interface.c:13-43 | documentation, one comment line for each line |
| IdlWriter.ChooseMultiline | lib/type.c:309-338 | when a type takes several lines |
| IdlWriter.WriteType | lib/type.c:340-534 | the text of a type in every layout |
| IdlWriter.WriteDescription | lib/interface.c:381-537 | the text of an interface at every indentation |
| IdlRoundTrip.ReadPrintedType | lib/type.c:340-534 | a printed type is read back, without field documentation if printed in one line |
| IdlRoundTrip.InterfaceRoundTrip | lib/interface.c:381-537 | for every interface that can be written and every indentation, reading the description gives back name, members, order, types and documentation, below zero all but the documentation of fields; it is refused iff a type that a member needs is missing |
| IdlRoundTrip.PrettyRoundTrip | lib/interface.c:381-537 | at indentation zero and above nothing is lost |
| IdlSound.AcceptedInterfaceIsGood | lib/interface.c:146-332 | every accepted description gives a well-formed interface, with every type that a member needs: alias types, method inputs and outputs, and errors |
| IdlSound.ReadPrintRead | lib/interface.c:334-359 | reading, printing and reading again changes nothing |
| IdlReferences.ResolvesNeeded | lib/interface.c:45-85 | the check of references in a type succeeds iff every alias outside of optional types is declared |
| IdlReferences.ResolvedIffDefined | lib/interface.c:289-332 | the check of an interface succeeds iff every name needed by an alias, an input, an output or an error is that of a type among its members |
| IdlGrammar.AcceptedExactly | lib/interface.c:146-332 | for every text and interface: the text is read as the interface iff the interface is well-formed, the text consists of its words and signs, and the documentation is what is noted in front of them |
| IdlGrammar.TypeSpelled | lib/type.c:36-192 | a type that is read consists of exactly its words and signs |
| IdlGrammar.TypeIsRead | lib/type.c:36-192 | a well-formed type whose words and signs are there is read |
| IdlLayout.LaidOutExactly | lib/scanner.c:77-153 | for every text without NUL: it is read as an interface iff it is woven from the interface's words and signs and from gaps of blanks and comments, with no word running into the next, and the documentation of each name is the first comment since the last empty line and the last documented name |
| IdlLayout.CommentSays | lib/scanner.c:110-153 | the text of a comment is its lines without number signs, without one space behind each, and without what is in front; it ends at the first line that is no comment |
| IdlSound.UndeclaredTypeAccepted | lib/interface.c:56 | an optional type may refer to a type that does not exist |

## Left out

- Floats that are not finite: they cannot be read, and printing them is an error (lib/value.c:178-179); a float of the model is a finite double. `DECIMAL_DIG` is 21, as where `long double` has 64 bits of precision, and the locale's decimal point is a dot.
- Scanning.Scanner.ReadNumber: does not model an `errno` left over from an earlier call, which the code does not clear, so that the two extreme integers of 64 bits are refused after an overflow anywhere before.
- Allocation failure, reference counts and freeing: allocation succeeds; nested objects and arrays are values, so sharing of a nested object between two parents is not captured.
- AvlTrees.AvlTree.GetElements: returns a sequence in place of a pointer to allocated memory.
- The cached text of a type (lib/type.c:540) is computed anew each time it is needed.
- Containers.VarlinkObject.Set: stores nested objects and arrays by value, so a later change through a shared reference is not seen.
- Containers.VarlinkObject.GetObject: returns a nested object by value, for the same reason.
- Getters and setters that differ from the modelled ones only in the type of the value.
- Colours around keys and values, error strings, and line and column of scanner errors: presentation only.
- Reads outside of the text: a comment that ends the text without a newline (lib/scanner.c:134-142) and the character in front of a name (lib/scanner.c:408), which is rejected either way.
- A null length pointer of `c_utf8_verify`, and words of other than 64 bits.
- Sockets, epoll, signals and processes: a descriptor is a list of what its calls will answer, arbitrary but fixed beforehand. `varlink_stream_bridge` is left out with them.
- User code: a callback is a function from the reply to the calls it makes, whether it closes the connection, and what it returns; a method handler likewise. A callback that itself processes events, and the callbacks for closed connections, are left out.
- Services.Reply: does not claim that input is awaited afterwards, because a reply made later does not subscribe to it again (lib/service.c:660-673).
- Replies on a connection that has been closed: closing frees the connection (lib/service.c:156-164), so `Services.Reply` and `Services.ReplyError` require that it is open.
- Services without interfaces (lib/service.c:291-340): any handler stands for their callback, but errors are modelled for services that have interfaces only.
- Interfaces that are added while connections are open: the interfaces of a connection's service are fixed.
- The documentation in the service's own interface, and that its description in lib/org.varlink.service.varlink is accepted: `Dispatching.ServiceInterface` is the interface it describes.
- The tree of connections of a service and accepting connections: lookups that would only add easy members.
- Conformance to RFC 8259: control characters in strings and numbers such as `+1`, `012` and `2.` are accepted, and carriage returns are not blanks. `JsonGrammar.AcceptedExactly` says what is accepted instead.
- The layouts that the printers choose, beyond that they are read back as what was printed: presentation.
