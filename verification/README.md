# FreeCLI: a verified model

FreeCLI is a terminal chat client: a TUI process and a backend process that exchange framed messages
over a socket, with a JSON library underneath. This project models its core in Dafny and proves what
the core is relied on for:

- **JSON** (`src/core/cJSON.c`). `JsonGrammar` is the grammar of sections 2 to 7 of RFC 8259 with the value
  each document denotes, `JsonParseSpec` and `JsonStringSpec` say what text cJSON accepts, by recursion on
  positions, and `JsonPrintSpec` is the printed text as a function of the tree. `JsonCompleteness`,
  `JsonRoundTrip` and `JsonLimit` relate them. `JsonLoose` is the grammar with the liberties cJSON takes, and
  `JsonSoundness` proves that nothing else is accepted; `JsonLayout` says what the printed text looks like.
  `JsonParser` and `JsonPrinter` follow the C code step by step, with its offset and depth fields, its two
  passes over string literals, its step-backs and its growing block, and refine those functions; `BitOps` has
  the bit operators they use. `ItemList` is the sibling list on the heap, whose head's `prev` is the tail.
- **Approvals** (`src/core/backend_worker.c`, `src/workers/fs_worker.c`, `src/ui/main.c`). `ApprovalProtocol` is a
  transition system over the atomic steps of dispatch threads, message loop, timeouts and the user's
  keys, with two FIFO channels; every statement is about every run, that is, every interleaving.
  `ApprovalSteps` proves that each action keeps the invariants, `ApprovalRuns` what follows for whole runs,
  `ApprovalScreen` what the screen tells apart. `ApprovalAnswers` follows the answers, `ApprovalOutcomes` what
  becomes of them; `ApprovalTable` has the table's loops.
- **Messages** (`src/core/ipc.c`, `src/core/net.h`). `IpcFraming` has frames on a stream that delivers any
  positive chunks, `IpcPayloads` and `IpcCodec` the eight payload formats, `IpcLayout` their fields.
  Integers are in little-endian host order (`WireFormat`).
- **Requests** (`src/backend/backend.c`, `src/core/chat.c`). `AgentLoop` is the loop of one request, with
  arbitrary functions for the providers; `RequestRuns` interleaves any number of such requests on one
  socket and one id counter. `ChatHistory` has the message buffer and what a well-formed history is.
- **Word wrap** (`src/core/utf8.c`, `src/core/chat.c`): `WordWrap`.
- **Sessions** (`src/ui/session.c`, `src/ui/persist.c`): `Sessions` and `Persistence`, the latter built on the
  JSON printer and parser; `PersistenceLaws` is about loading any files.
- **Sandbox paths** (`src/workers/fs_worker.c`): `SandboxPaths`.

Loops, classes and arrays are kept where the C code has them. Such a method's contract equates its
result, or the new state, with a specification function; the lemmas say what that function is worth.

Assumptions: allocations succeed; strings handed from C string to C string hold no NUL (where a decoded
`\u0000` can occur, `CString`, and `Seen` for trees, say what the reader sees); in the approval protocol each
`ipc_send` is one atomic append to its channel and the backend's socket blocks; pressing Y or N and reading
the key is one step, so a key typed ahead counts for the prompt that stands when it is read; correlation ids
and session ids do not wrap.

Some properties one might expect are false of the code. Each is stated with its exact condition and an
instance:

- a payload within 16 bytes of 2^32 cannot be sent (`IpcFraming.Socket.IpcSend`, `FullFrameIsStuck`);
- an approved request is denied if and only if its wait times out (`ApprovalAnswers.GrantedUnlessTimedOut`,
  `ApprovalRuns.ApprovedYetDenied`);
- the prompt names the file by its first bytes only, as many as the window has room for: 53 in 80 columns,
  67 in 94 and more (`ApprovalScreen.ScreenTellsApart`, `SameOnScreen`);
- `cJSON_PrintPreallocated` refuses a block that fits exactly (`JsonPrinter.PrintPreallocated`,
  `ExactFitIsRefused`);
- a document is parsed if and only if it is nested at most 1000 deep (`JsonLimit.DocumentParsedExactly`), and a
  tree survives printing and parsing if and only if it is, and none of its strings holds a byte 0
  (`JsonRoundTrip.RoundTripExactly`, `JsonLimit.TooDeepIsLost`, `JsonLaws.NulIsLost`); what was parsed survives
  if and only if the latter holds (`JsonLaws.ParsedSurvives`);
- wrapping a text reads nothing behind its terminator if and only if it does not end within a character, where
  there are two free columns (`WordWrap.ReadsInsideExactly`, `CutCharacter`);
- wrapping a text ends if and only if continuation rows have two free columns or no double-width character
  is left behind the first row (`WordWrap.EndsExactly`, `WideNeverEnds`; for the callers' columns
  `EndsAtIndent`);
- with the sandbox root `/` the boundary test is no test on components (`SandboxPaths.BoundaryExactly`,
  `TopRefusesHome`);
- a chat survives saving and loading if and only if its messages are of the kind the TUI makes
  (`Persistence.ChatComesBackExactly`, `MessagesLostOrChanged`).

The repository's README puts all sessions into `~/.freecli/sessions.json`; the code keeps an index and one
file per session under `XDG_DATA_HOME/freecli` or `~/.local/share/freecli`. The model follows the code.

## Model

| member | source | states |
|---|---|---|
| JsonCompleteness.DocumentParsed | src/core/cJSON.c:1147-1224 | every document of RFC 8259, sections 2 to 7, nested at most 1000 deep, parses to exactly the value the grammar denotes, with or without the terminator required |
| JsonLimit.DocumentParsedExactly | src/core/cJSON.c:1147-1224 | and a document of the grammar is refused if and only if it is nested deeper than 1000 |
| JsonSoundness.AcceptedIsLoose | src/core/cJSON.c:1147-1224 | soundness, for any bytes: whatever is accepted is, behind a byte order mark and blanks, the text of a tree of the grammar with the liberties cJSON takes written out, nested at most 1000 deep, and the result is what that tree denotes; the terminator is there when required |
| JsonSoundness.ValueSound | src/core/cJSON.c:1368-1420 | the same for a value anywhere in a text, at any depth |
| JsonSoundness.LiteralSound | src/core/cJSON.c:824-951 | a literal that is accepted is spelled by pieces of the grammar, unescaped control bytes and `\u` with four bytes that are no hex digits, counting as 0; its bytes are what they stand for |
| JsonSoundness.NumberSound | src/core/cJSON.c:307-408 | a number that is accepted is spelled by a sign, digits with or without a point among them and an exponent, and has that value |
| JsonSoundness.UnknownEscapeRefused | src/core/cJSON.c:887-922 | instances: a literal with any other character behind a backslash, such as "\d", is refused, and so is the document |
| JsonGrammar.Characters | src/core/cJSON.c:1377-1420 | the bytes the grammar is written with are the characters of the RFC |
| JsonGrammar.HexDigitsAre | src/core/cJSON.c:666-699 | the hex digits are those of both cases, with their values, and no others |
| JsonLimit.ValueShallower | src/core/cJSON.c:1497-1505 | a larger limit never changes what was parsed under a smaller one |
| JsonLimit.DepthIsNesting | src/core/cJSON.c:1497-1505 | a document is as deep as the value it denotes |
| JsonLimit.TooDeepIsLost | src/core/cJSON.c:1497-1505 | an instance: 1001 arrays in one another do not come back from their text, 1000 do |
| JsonCompleteness.ValueParsed | src/core/cJSON.c:1368-1420 | the same for a value anywhere in a text, at any depth it fits in, ending where its text ends |
| JsonCompleteness.ElemsParsed | src/core/cJSON.c:1497-1592 | the elements of an array are parsed in order, with any white space between them |
| JsonCompleteness.MemsParsed | src/core/cJSON.c:1662-1777 | the members of an object are parsed in order, keys and values, with any white space between them |
| JsonCompleteness.StringParsed | src/core/cJSON.c:824-951 | a string literal of the grammar decodes to the bytes its characters and escapes denote |
| JsonCompleteness.NumeralRead | src/core/cJSON.c:307-408 | strtod on a numeral of the grammar consumes all of it and gives its exact value |
| JsonCompleteness.PairCodepointIs | src/core/cJSON.c:730-764 | the code point computed from a surrogate pair is that of section 7 of RFC 8259 |
| JsonCompleteness.EscapeRecovered | src/core/cJSON.c:703-821 | an escape or surrogate pair writes the UTF-8 bytes of its code point: a reference decoder recovers it |
| JsonCompleteness.LoneSurrogateRefused | src/core/cJSON.c:703-766 | four valid hex digits are refused exactly when they are a surrogate without its other half |
| Utf8Encoding.DecodeInvertsEncode | src/core/cJSON.c:766-815 | decoding by section 3 of RFC 3629 inverts the encoding, for every scalar value |
| Utf8Encoding.EncodeInvertsDecode | src/core/cJSON.c:766-815 | and the encoding inverts the decoding, for every byte sequence the decoder accepts |
| BitOps.PairBits | src/core/cJSON.c:757-758 | masking, shifting and joining the halves of a pair is arithmetic on their low ten bits |
| BitOps.ContinuationBits | src/core/cJSON.c:798-803 | marking and masking leaves six bits behind the mark of a continuation byte |
| BitOps.FirstBits | src/core/cJSON.c:805-808 | the marks of first bytes fall on free bits |
| BitOps.ThreeByteBits | src/core/utf8.c:19-21 | joining the bits of three bytes is arithmetic on their low bits |
| JsonStringSpec.DecodedFits | src/core/cJSON.c:837-928 | for any bytes, what the second pass writes fits the size the first pass computed, also when an invalid escape puts the passes out of step |
| JsonStringSpec.SkipUnits | src/core/cJSON.c:837-868 | a step of the second pass over any stretch leaves room: each unit the first pass counted covers at most two bytes |
| JsonParser.ParseHex4 | src/core/cJSON.c:666-699 | the value of four hex digits, 0 if one is none |
| JsonParser.EncodeUtf8 | src/core/cJSON.c:766-815 | the backward loop writes exactly the UTF-8 bytes of the code point |
| JsonParser.Utf16LiteralToUtf8 | src/core/cJSON.c:703-821 | reads one escape or pair inside the literal, writes its bytes inside the block, or refuses as specified |
| JsonParser.Unescape | src/core/cJSON.c:887-922 | the eight simple escapes of section 7 of RFC 8259 and no others (see JsonSoundness.LiteralSound) |
| JsonParser.Buffer.SkipWhitespace | src/core/cJSON.c:1090-1113 | stops at the first non-blank, or steps back onto the last byte at the end of the buffer |
| JsonParser.Buffer.ScanString | src/core/cJSON.c:837-868 | finds the closing quote and counts the units up to it without leaving the buffer |
| JsonParser.Buffer.DecodeInto | src/core/cJSON.c:870-925 | the decoding loop writes what the specification says and stays inside the block for any input |
| JsonParser.Buffer.DecodeUnit | src/core/cJSON.c:870-925 | one turn decodes one character or escape, or finds it malformed |
| JsonParser.Buffer.ParseString | src/core/cJSON.c:824-951 | succeeds exactly on literals, with their bytes, and ends behind the closing quote |
| JsonParser.Buffer.ParseNumber | src/core/cJSON.c:307-408 | copies the run of number characters and consumes the prefix strtod reads |
| JsonParser.Buffer.ParseValue | src/core/cJSON.c:1368-1420 | on any buffer: agrees with the specification, advances strictly, ends inside the buffer, restores the depth |
| JsonParser.Buffer.ParseArray | src/core/cJSON.c:1497-1592 | the same for arrays, despite the step-backs |
| JsonParser.Buffer.ParseElements | src/core/cJSON.c:1525-1569 | the loop over the elements, which starts by stepping back |
| JsonParser.Buffer.ParseObject | src/core/cJSON.c:1662-1777 | the same for objects |
| JsonParser.Buffer.ParseMembers | src/core/cJSON.c:1695-1756 | the loop over the members, which starts by stepping back |
| JsonParser.Buffer.ParseMember | src/core/cJSON.c:1718-1748 | key, colon and value of one member |
| JsonParser.LandingParses | src/core/cJSON.c:1090-1113 | stepping back onto the last blank does not change what parses there |
| JsonParser.ParseWithLengthOpts | src/core/cJSON.c:1147-1224 | the whole text, for any bytes and any length, with or without the terminator required |
| JsonRoundTrip.TreeDenotes | src/core/cJSON.c:1423-1494 | the concrete syntax chosen by the printer is of the grammar and denotes the tree |
| JsonRoundTrip.TreeText | src/core/cJSON.c:1423-1896 | the printed text is exactly the text of that syntax |
| JsonRoundTrip.RoundTrip | src/core/cJSON.c:1239-1420 | parsing the pure text of a tree gives back the same tree, formatted and unformatted |
| JsonRoundTrip.RoundTripExactly | src/core/cJSON.c:1368-1420 | what is printed of a tree comes back as the tree if and only if it is nested at most 1000 deep and none of its strings holds a byte 0; within the limit what comes back is the tree with its strings cut there |
| JsonRoundTrip.ParsedNesting | src/core/cJSON.c:1497-1505 | a parsed value is never nested deeper than the limit |
| JsonRoundTrip.PrintInjective | src/core/cJSON.c:1423-1494 | two trees print the same text if and only if they are the same up to the first byte 0 of each string |
| JsonLayout.ShortestText | src/core/cJSON.c:954-1073 | of all documents of the grammar that denote a tree, with the same numerals and hex digits in lower case, the unformatted text is the shortest, and the only one of its length: no blanks, no needless escape |
| JsonLayout.FormattedIsLaidOut | src/core/cJSON.c:1595-1896 | the formatted text is the unformatted one laid out, by a scanner that knows nothing of trees: line feeds around members, a tab for each open array and object, a tab behind a colon, a space behind an array's comma |
| JsonLayout.IntegerNumeral | src/core/cJSON.c:596-623 | a 32-bit integer is printed as the one plain numeral that denotes it |
| JsonLaws.PrintableExactly | src/core/cJSON.c:1595-1615 | the printer refuses a tree exactly for its nesting or for a number longer than its buffer |
| JsonLaws.IntFits | src/core/cJSON.c:596-638 | a 32-bit integer always fits the number buffer |
| JsonLaws.PrintedIsReadBack | src/core/cJSON.c:1239-1304 | whatever the printer accepts, the parser reads back as the printer saw it, and unchanged if and only if its strings are C strings |
| JsonLaws.ParsedSurvives | src/core/cJSON.c:1147-1304 | whatever was parsed, from any buffer, is printable if its numbers fit; parsed again it is unchanged if and only if none of its strings holds a byte 0 |
| JsonLaws.NulIsLost | src/core/cJSON.c:981-1031 | an instance: the text "\u0000" is parsed to a byte 0, printed as an empty string, and lost |
| JsonPrintSpec.SeenWholly | src/core/cJSON.c:981-1031 | the printer sees all of a tree if and only if its strings hold no byte 0 |
| JsonPrinter.StoreNumber | src/core/cJSON.c:646-660 | copies the digits of a number behind the offset |
| JsonPrinter.CountEscapes | src/core/cJSON.c:981-1004 | counts the bytes up to the first NUL and exactly the extra bytes their escapes need |
| JsonPrinter.StoreEscaped | src/core/cJSON.c:1029-1066 | writes the escape of one character |
| JsonPrinter.StoreString | src/core/cJSON.c:1005-1073 | fills exactly the room the first pass computed with the quoted, escaped string up to its first NUL |
| JsonPrinter.StoreEscapes | src/core/cJSON.c:1031-1069 | the second loop writes the escapes of every byte up to the first NUL |
| JsonPrinter.PrintBuffer.Ensure | src/core/cJSON.c:490-573 | gives room exactly when it can be had, and growing keeps what was written |
| JsonPrinter.PrintBuffer.UpdateOffset | src/core/cJSON.c:576-586 | catches up with the text written behind the offset, wherever the offset lags |
| JsonPrinter.PrintBuffer.PrintNumber | src/core/cJSON.c:596-663 | appends the number's text, and says exactly when it cannot |
| JsonPrinter.PrintBuffer.PrintString | src/core/cJSON.c:954-1073 | appends the quoted string up to its first NUL, and says exactly when it cannot |
| JsonPrinter.PrintBuffer.PrintValue | src/core/cJSON.c:1423-1494 | for any tree: appends exactly the pure text of what is seen of it and a NUL inside the block, and says exactly when it cannot |
| JsonPrinter.PrintBuffer.PrintArray | src/core/cJSON.c:1595-1659 | the same for arrays |
| JsonPrinter.PrintBuffer.PrintObject | src/core/cJSON.c:1780-1896 | the same for objects, with tabs and line feeds when formatted |
| JsonPrinter.PrintTree | src/core/cJSON.c:1239-1304 | for any tree: the string is the pure text of what the printer sees of it, and a NUL; there is one exactly when the tree is printable and that text at least two bytes below INT_MAX |
| JsonPrinter.PrintPreallocated | src/core/cJSON.c:1348-1365 | succeeds only if text and NUL fit, exactly when one byte more is there, and then the block holds them |
| JsonPrinter.ExactFitIsRefused | src/core/cJSON.c:490-535 | an instance: five bytes hold "null" and its NUL and are refused, six are accepted |
| JsonPrinter.PrintNulFree | src/core/cJSON.c:954-1073 | the printed text of a tree of C strings holds no NUL before its end |
| ItemList.ListDetermined | src/core/cJSON.c:1922-1939 | the links of a list determine its sequence of items |
| ItemList.RemoveUndoesInsert | src/core/cJSON.c:2258-2366 | removing what was inserted gives the old sequence |
| ItemList.GetArrayItem | src/core/cJSON.c:1922-1939 | the item at an index, or none behind the end |
| ItemList.AddItemToArray | src/core/cJSON.c:2027-2058 | appends to the sequence and keeps `next`, `prev` and the head's `prev` right |
| ItemList.InsertItemInArray | src/core/cJSON.c:2334-2366 | inserts at the index, or appends behind the end; refusals change nothing |
| ItemList.DetachItemViaPointer | src/core/cJSON.c:2258-2292 | removes the item from the sequence and clears its links; refusals change nothing |
| ItemList.ReplaceItemViaPointer | src/core/cJSON.c:2368-2415 | updates the sequence at one place, also at the head and the tail |
| ItemList.LinkParsed | src/core/cJSON.c:1541-1579 | the items a parser hangs one behind the other make a list |
| ApprovalSteps.StepInv | src/core/backend_worker.c:90-163 | every step of threads, message loop, timeouts and user keeps the protocol's invariants |
| ApprovalRuns.EffectsHaveConsent | src/workers/fs_worker.c:332-347 | in every run a file is created, modified or deleted only for a request whose description, naming that operation and path, was the one the prompt was drawn from when Y was pressed, and at most once |
| ApprovalOutcomes.PerformedExactly | src/workers/fs_worker.c:342-347 | in every run a request touches a file if and only if its operation was performed, and then just once, the file it names in the way it names |
| ApprovalOutcomes.ReplyIsTrue | src/workers/fs_worker.c:342-355 | in every run WORKER_REP says success exactly when the operation or the reading did, and success of a creation, modification or deletion means that it was done |
| ApprovalOutcomes.CarriedOutUnlessTimedOut | src/workers/fs_worker.c:337-347 | in every run a consented operation whose thread has come to its reply was carried out if and only if its wait did not time out |
| ApprovalOutcomes.ApprovedIsCarriedOut | src/workers/fs_worker.c:332-355 | an instance: the run from the request through Y to the file, WORKER_REP and WORKER_END |
| ApprovalScreen.ScreenTellsApart | src/ui/main.c:466-471 | what is drawn of two descriptions is the same if and only if they agree in the operation and in those first bytes of the path that the window has room for |
| ApprovalScreen.ShownWhole | src/workers/fs_worker.c:334-335 | a path there is room for is drawn whole behind "Create file: ", "Modify file: " or "Delete file: " |
| ApprovalScreen.SameOnScreen | src/ui/main.c:466-471 | an instance for every width: deletions of two paths that differ in the first byte there is no room for look the same |
| ApprovalScreen.PromptNamesEffect | src/ui/main.c:466-471 | in every run, the prompt an effect was consented to is drawn for no other operation and for no path with other bytes where there is room |
| ApprovalScreen.LineTellsApart | src/ui/main.c:466-471 | the whole line is the same if and only if the descriptions are drawn the same, where both leave the keys on it or both fill it |
| ApprovalRuns.SlotsHaveOneOwner | src/core/backend_worker.c:94-109 | in every run a slot is in use exactly while a thread holds it, the one thread it is marked for |
| ApprovalRuns.GrantedIsConsented | src/core/backend_worker.c:127-147 | in every run a granted request was consented to |
| ApprovalRuns.ApprovedYetDenied | src/core/backend_worker.c:127-141 | the converse fails: an answer can be overwritten when the wait times out |
| ApprovalRuns.OneReplyOneEnd | src/core/backend_worker.c:41-50 | in every run a finished worker request was sent one WORKER_REP, then one WORKER_END, and no other |
| ApprovalSteps.ThreadClaims | src/core/backend_worker.c:94-109 | claiming a slot keeps owners, consent and everything in transit right, also when the table is full |
| ApprovalSteps.ThreadTimesOut | src/core/backend_worker.c:127-141 | a timeout keeps the invariants and grants nothing |
| ApprovalSteps.Notified | src/core/backend_worker.c:150-163 | a decision is written to the slot of the request that was answered, however long the loop was held up |
| ApprovalSteps.KeyPressed | src/ui/main.c:1143-1159 | a key press answers the request on the screen and records consent to that one |
| ApprovalSteps.TuiReceives | src/ui/main.c:900-911 | a new question replaces the one on the screen without lending it an answer |
| ApprovalSteps.LoopReceives | src/core/backend_worker.c:235-273 | a late or stale answer finds no slot of another request; a new request starts a thread under a fresh id |
| ApprovalAnswers.StepOrderly | src/core/backend_worker.c:90-163 | every step keeps that nothing is asked or answered twice |
| ApprovalAnswers.AnswerIsHeeded | src/core/backend_worker.c:150-163 | while a thread waits, a Y given to it is in its slot or on the way there, and no denial is |
| ApprovalAnswers.GrantedUnlessTimedOut | src/core/backend_worker.c:127-147 | a consented request that has its answer was granted if and only if its wait did not time out |
| ApprovalTable.Table.Claim | src/core/backend_worker.c:94-109 | the loop takes the first free slot, and refuses only a full table |
| ApprovalTable.Table.Notify | src/core/backend_worker.c:150-163 | the loop decides the slot of this request and leaves every other alone |
| IpcFraming.FrameIsReceived | src/core/ipc.c:5-49 | one frame is received whole, whatever follows it in the stream |
| IpcFraming.FrameOnTheWire | src/core/ipc.c:5-20 | an instance: the bytes of a frame |
| IpcFraming.StreamIsReceived | src/core/ipc.c:5-49 | any sequence of frames is received as exactly that sequence |
| IpcFraming.CutStreamIsReceived | src/core/ipc.c:22-49 | a stream that ends within a frame: the frames before it are received, and nothing else |
| IpcFraming.Socket.SendAll | src/core/net.h:62-70 | delivers the whole buffer in order, whatever chunks are taken, or a proper prefix when the connection breaks; a buffer of 2^32 bytes or more never gets through |
| IpcFraming.Socket.RecvAll | src/core/net.h:73-81 | fills the buffer with the next bytes of the stream, whatever chunks arrive, or reports that it ended |
| IpcFraming.Socket.IpcSend | src/core/ipc.c:5-20 | appends one frame exactly when the connection still stands and the frame has fewer than 2^32 bytes, and else a proper prefix of it |
| IpcFraming.Socket.IpcRecv | src/core/ipc.c:22-49 | takes one frame off the stream, or reports a short length or the end of the stream |
| IpcFraming.FullFrameIsStuck | src/core/net.h:62-70 | an instance: a payload of 2^32 - 16 bytes makes a frame of which no byte is asked to be sent |
| IpcFraming.Socket.SendFrames | src/core/ipc.c:5-20 | messages sent one after the other are one behind the other in the stream, up to the first that does not get through |
| IpcFraming.Socket.ReceiveLoop | src/backend/backend.c:391-405 | the receive loop takes every frame off the stream until it ends |
| IpcFraming.Deliver | src/core/ipc.c:5-49 | from sender to receiver, whatever chunks the two sockets take and deliver and whenever the connection breaks: exactly the frames that were sent whole |
| WireFormat.LeRoundTrip | src/core/ipc.c:12-14 | a fixed-width integer is read back from its bytes |
| WireFormat.LowBytesFirst | src/core/ipc.c:12-14 | byte k of an integer is the one of weight 256 to the k |
| WireFormat.PutNumber | src/core/ipc.c:12-14 | stores an integer through an advancing position |
| IpcPayloads.PayloadRoundTrip | src/core/ipc.c:53-436 | each of the eight payloads is decoded from its bytes, with NULL and empty strings identified as each format does |
| IpcPayloads.NormalExactly | src/core/ipc.c:53-436 | what comes back has the same numbers and texts, and is the very payload if and only if no string is empty instead of NULL, or NULL instead of empty where it is mandatory |
| IpcLayout.FieldsInOrder | src/core/ipc.h:60-165 | every payload consists of the fields the header lists for it, in that order, as read by a reader that knows only such lists, and of nothing else |
| IpcPayloads.ReqSendRoundTrip | src/core/ipc.c:53-143 | the chat request is decoded turn by turn; without turns it depends on what calloc gives for zero |
| IpcCodec.EncodeReqSend | src/core/ipc.c:53-87 | the size of the first loop is exactly what the second loop writes, and that is the format |
| IpcCodec.PutTurns | src/core/ipc.c:74-79 | the second loop writes every turn in order |
| IpcCodec.EncodeRepFinal | src/core/ipc.c:147-167 | fills its block exactly with the format |
| IpcCodec.EncodeWorkerStart | src/core/ipc.c:203-224 | fills its block exactly with the format |
| IpcCodec.EncodeSessionRename | src/core/ipc.c:259-272 | fills its block exactly with the format |
| IpcCodec.EncodeWorkerReq | src/core/ipc.c:295-312 | fills its block exactly with the format |
| IpcCodec.EncodeWorkerRep | src/core/ipc.c:349-361 | fills its block exactly with the format |
| IpcCodec.EncodeApprovalReq | src/core/ipc.c:384-396 | fills its block exactly with the format |
| IpcCodec.EncodeApprovalRep | src/core/ipc.c:419-428 | fills its block exactly with the format |
| IpcCodec.ReadReqSend | src/core/ipc.c:89-143 | reads only inside any buffer; model and provider are optional tails |
| IpcCodec.ReadAllTurns | src/core/ipc.c:109-120 | the loop over the announced number of turns, refusing a buffer that ends too early |
| IpcCodec.ReadString | src/core/ipc.c:180-186 | a mandatory string is refused when the buffer ends within it |
| IpcCodec.ReadTail | src/core/ipc.c:122-131 | an optional tail counts only when it is there, not empty and whole |
| IpcCodec.ReadRepFinal | src/core/ipc.c:169-199 | reads only inside any buffer; the reasoning is optional |
| IpcCodec.ReadWorkerStart | src/core/ipc.c:226-255 | reads only inside any buffer; a cut model is refused, a cut description is dropped |
| IpcCodec.ReadSessionRename | src/core/ipc.c:274-288 | reads only inside any buffer |
| IpcCodec.ReadWorkerReq | src/core/ipc.c:314-342 | reads only inside any buffer; cut arguments are refused |
| IpcCodec.ReadWorkerRep | src/core/ipc.c:363-377 | reads only inside any buffer |
| IpcCodec.ReadApprovalReq | src/core/ipc.c:398-412 | reads only inside any buffer |
| IpcCodec.ReadApprovalRep | src/core/ipc.c:430-436 | reads only inside any buffer |
| ChatHistory.AnsweredAtOnce | src/core/chat.c:62-87 | in a well-formed history a tool call's result stands right behind the message, in order, with the call's id |
| ChatHistory.ResultIsAsked | src/core/chat.c:62-87 | and every result stands behind a message that asked for it |
| ChatHistory.WellFormedAppend | src/core/chat.c:62-87 | well-formed histories can be joined |
| ChatHistory.ChatBuffer.EnsureCapacity | src/core/chat.c:8-13 | makes room by doubling and keeps the messages |
| ChatHistory.ChatBuffer.Add | src/core/chat.c:38-48 | appends a plain message |
| ChatHistory.ChatBuffer.AddWithReasoning | src/core/chat.c:50-60 | appends a message, an empty reasoning counting as none |
| ChatHistory.ChatBuffer.AddToolCalls | src/core/chat.c:62-74 | appends a message with tool calls, an empty text counting as none |
| ChatHistory.ChatBuffer.AddToolResult | src/core/chat.c:76-87 | appends a result under its id |
| AgentLoop.HistoriesWellFormed | src/backend/backend.c:200-258 | every provider call sees a well-formed history that begins with the request's own messages, and there are at most five calls |
| AgentLoop.ResultsAnswer | src/backend/backend.c:230-255 | the results of an answer's calls are one per call, in order, under the calls' ids |
| AgentLoop.ResultSays | src/backend/backend.c:231-255 | what each result says: the sub-model's words, asked the prompt of that call alone under the id drawn for it, or which of three reasons there is for none |
| AgentLoop.EventsSay | src/backend/backend.c:103-150 | of each sub-query the TUI hears the model, the first 40 bytes of the prompt, and its end, under the id drawn for it |
| AgentLoop.RoundAsks | src/backend/backend.c:200-216 | every round asks the provider about the history so far, the first about the request's messages, with tools only for xAI |
| AgentLoop.HistoryGrows | src/backend/backend.c:218-255 | from round to round the history grows by the answer with its tool calls and by the results |
| AgentLoop.Converse | src/backend/backend.c:200-258 | the loop's rounds follow one from the other, end as the code ends them, and send START and END of every sub-query |
| AgentLoop.ExecuteCalls | src/backend/backend.c:231-255 | one result for each tool call, in order, and the events of the sub-queries among them |
| AgentLoop.RunSubquery | src/backend/backend.c:103-150 | one START and one END with the same fresh id, the prompt cut to 40 bytes |
| AgentLoop.TrimTopic | src/backend/backend.c:301-306 | what is left of a proposed name: white space and trailing full stops go, but never the last character |
| AgentLoop.RenameDetermined | src/backend/backend.c:299-316 | the rename, or its absence, is determined by the request and the proposed name |
| AgentLoop.RenamedExactly | src/backend/backend.c:277-320 | a session is renamed if and only if its only turn was the user's, there is an answer, and a name that is not blank is proposed |
| AgentLoop.AnsweredWithLastReply | src/backend/backend.c:208-275 | the one terminal reply carries the content and the reasoning of the last round's reply, or nothing when that is missing or asks for tools |
| AgentLoop.HandleRequest | src/backend/backend.c:166-330 | one REP_ERROR when no provider is there; else the sub-queries' events, exactly one REP_FINAL, under the request's id and session, with the content (empty for NULL) and the reasoning of the provider's last reply if that has no tool calls, else empty, and a rename on the first turn only |
| RequestRuns.RequestConverses | src/backend/backend.c:166-330 | what a request sends is a conversation: each sub-query ended before the next begins and before the terminal reply |
| RequestRuns.RequestsAreScripts | src/backend/backend.c:166-330 | and it is played by a script that is a conversation whichever ids it draws |
| RequestRuns.ErrorIsScript | src/backend/backend.c:169-177 | so is the single error of a request without a provider |
| RequestRuns.WholeConversation | src/backend/backend.c:103-150 | in every interleaving, the messages of a finished request are, in the order sent, one whole conversation with its own ids |
| RequestRuns.OneTerminalReply | src/backend/backend.c:260-275 | in every interleaving, a finished request got exactly one REP_FINAL or REP_ERROR |
| RequestRuns.MessagesAreTheScript | src/backend/backend.c:103-150 | in every interleaving, the messages of a finished request, with their texts, are exactly what it would have sent alone with the ids it drew |
| RequestRuns.CanFinish | src/backend/backend.c:166-330 | wherever a run has got to, each request can be finished by its own steps |
| RequestRuns.SubIdsAreDistinct | src/backend/backend.c:75-83 | in every interleaving, sub-query ids are distinct and start at 2^63 |
| WordWrap.RowIsSound | src/core/utf8.c:35-72 | a row ends and the next begins at character boundaries, it fits the free columns, and only blanks or one newline are dropped |
| WordWrap.ProgressExactly | src/core/utf8.c:45-56 | a row makes progress if and only if its first character fits or is a newline |
| WordWrap.BreaksAtLastBlank | src/core/utf8.c:49-64 | an overfull row is broken at the last blank before the character that does not fit |
| WordWrap.RowExactly | src/core/utf8.c:35-72 | where a row ends and the next begins, in every case, by the place where text, line or room ends and the places to break before it |
| WordWrap.WidthOfCodePoint | src/core/utf8.c:14-33 | the width of a character is that of its code point, which its UTF-8 bytes give |
| WordWrap.WideChangesAtEdges | src/core/utf8.c:22-28 | the wide code points below 0x10000: the width changes at fourteen of them and nowhere else |
| WordWrap.EndsExactly | src/core/utf8.c:74-88 | wrapping row after row ends if and only if continuation rows have two free columns or no character two columns wide is left behind the first row |
| WordWrap.EndsAtIndent | src/core/chat.c:152-167 | where all rows begin in the same column: if and only if it leaves two columns or no character of the text is two columns wide |
| WordWrap.ReadsInsideExactly | src/core/utf8.c:35-88 | on any text, with two free columns, no row is read behind the NUL if and only if the text does not end within a character; the rows are then those of the aligned text |
| WordWrap.CutCharacter | src/core/utf8.c:45-66 | an instance: the first byte of a two-byte character, alone, is read past its end |
| WordWrap.WideNeverEnds | src/core/utf8.c:49-56 | an instance: one double-width character never ends where one column is free |
| WordWrap.EnoughRoom | src/core/utf8.c:37-38 | two free columns on continuation rows are enough, and any width is for narrow text |
| WordWrap.WrapLineEnd | src/core/utf8.c:35-72 | the one-pass loop finds the row that two separate passes define |
| WordWrap.CountRows | src/core/utf8.c:74-88 | the number of rows that begin before the end of the text, at least one |
| WordWrap.RenderWrapped | src/core/chat.c:98-130 | ends on every text, at its end or at the last line; what is drawn goes down the window line by line, every row with something in it stands on its own line in its column with its own bytes (whole below 4096), and nothing else is drawn; its row count is that of CountRows when the text ends and the window is tall enough |
| WordWrap.RowsAreShown | src/core/chat.c:98-130 | row n stands on line y + n, in the first or the indented column, and shows its bytes from where it begins; lines ascend and nothing else is drawn |
| WordWrap.CopiedWhole | src/core/chat.c:108-121 | a row below 4096 bytes that ends at no continuation byte is copied whole |
| WordWrap.CopySegment | src/core/chat.c:110-116 | the copy stays inside its buffer and does not end before a continuation byte |
| WordWrap.ContinuationExactly | src/core/chat.c:113-114 | in proper UTF-8 the bytes that are no continuation bytes are exactly the character boundaries |
| WordWrap.DrawnToBoundary | src/core/chat.c:108-121 | in proper UTF-8 a row below 4096 bytes is drawn whole, a longer one up to a character boundary |
| Sessions.OpKeeps | src/ui/session.c:5-54 | every operation keeps ids distinct and below the next one, at most 32 sessions, and a valid active index exactly when there are sessions |
| Sessions.RunKeeps | src/ui/session.c:5-54 | so does every run of operations |
| Sessions.RemoveKeepsOthers | src/ui/session.c:39-54 | removing keeps the others in order and the same session active, unless it was the one removed |
| Sessions.SelectActivates | src/ui/session.c:33-35 | a valid index becomes active, any other changes nothing |
| Sessions.NewIsLast | src/ui/session.c:11-21 | a new session is the last, has the next id and the first 63 bytes of its name, and is active if none was |
| Sessions.EditChangesOne | src/ui/session.c:23-31 | an edit of a session's name and messages leaves everything else alone |
| Sessions.RemovedForGood | src/ui/session.c:11-21 | an id that is gone is never given out again |
| Sessions.RemovedIsGone | src/ui/session.c:39-54 | a removed session's id is gone |
| Sessions.SessionManager.NewSession | src/ui/session.c:11-21 | adds a session behind the others, or refuses when there are 32 |
| Sessions.SessionManager.SelectSession | src/ui/session.c:33-35 | selects a valid index and ignores others |
| Sessions.SessionManager.ShiftDown | src/ui/session.c:42-44 | the loop closes the gap in place |
| Sessions.SessionManager.RemoveSession | src/ui/session.c:39-54 | removes in place and repairs the active index |
| Persistence.TextIsRead | src/ui/persist.c:77-97 | a saved tree is printed, is no empty file, and is read back from it |
| Persistence.LoadAfterSave | src/ui/persist.c:149-221 | loading into a fresh manager what was saved restores ids, names, next id and every message's role, text and reasoning, whatever was on disk before |
| Persistence.ChatComesBackExactly | src/ui/persist.c:131-138 | a chat comes back unchanged if and only if its messages are of the kind the TUI makes |
| Persistence.RestoredExactly | src/ui/persist.c:162-221 | what comes back has the same sessions, ids, names and next id, and is all the same if and only if every message is of that kind |
| Persistence.MessagesLostOrChanged | src/ui/persist.c:131-138 | instances: a message without a text is lost, a user's reasoning is dropped |
| Persistence.LifeKeeps | src/ui/persist.c:162-221 | over every run of operations, saves, file deletions and fresh starts from whatever is on disk, ids stay distinct and below the next one, the active index is valid, and everything can be saved |
| Persistence.RestartKeeps | src/ui/persist.c:162-221 | loading an index saved at any time, with any session files, gives a manager that meets the invariants |
| Persistence.IndexLoads | src/ui/persist.c:162-221 | a saved index brings back ids, names and next id, whatever the session files hold |
| Persistence.RestartRestores | src/ui/persist.c:149-221 | wherever a run has got to, saving all and starting afresh gives back the same sessions |
| Persistence.DeletedStaysDeleted | src/ui/main.c:556-568 | after deleting a session, over every run of operations, saves, deletions and fresh starts, no session and no file has its id and none gets it, and saving all and starting afresh brings back the others |
| Persistence.DeletionSelects | src/ui/main.c:556-568 | after a deletion the others are there in order and the active session still is, or its neighbour if it went; an emptied manager has one new session, active |
| Persistence.Store.DoDelete | src/ui/main.c:556-568 | the session and its file go, an empty manager gets a new session, another is selected and all is saved, as the specification of the deletion says |
| Persistence.IndexFits | src/ui/persist.c:101-118 | the index of at most 32 named sessions is always short enough to be printed |
| Persistence.SavedIsFound | src/ui/persist.c:149-154 | after saving all, every session's file holds its own text |
| Persistence.Store.SaveIndex | src/ui/persist.c:101-118 | writes the index as printed, or leaves the file when it cannot be printed |
| Persistence.Store.SaveSession | src/ui/persist.c:122-147 | writes one session's file as printed, or leaves it |
| Persistence.Store.SaveAll | src/ui/persist.c:149-154 | writes the index and every session's file |
| Persistence.Store.LoadChat | src/ui/persist.c:193-213 | the messages of a file, passing over what is malformed |
| Persistence.Store.LoadEntry | src/ui/persist.c:178-216 | one entry of the index becomes a session under its stored id, is passed over, or finds the manager full |
| Persistence.Store.Load | src/ui/persist.c:162-221 | for any files: the sessions of the index in order, until the manager is full, and the saved next id |
| PersistenceLaws.LoadedExactly | src/ui/persist.c:162-221 | for any files: a tree in the index gives the sessions, their count, the active one, and the saved next id or 1; without one nothing changes |
| PersistenceLaws.EntriesTaken | src/ui/persist.c:176-218 | the sessions come from the entries of the index, in its order, each under its id and name with the chat of its file; an entry is left out exactly when it has no id or name or the manager is full |
| PersistenceLaws.MessagesTaken | src/ui/persist.c:199-211 | the messages come from the elements with a role and a content, all of them, in their order |
| JsonLookup.FirstNamed | src/core/cJSON.c:1951-1991 | a look-up finds the first member with that name, byte for byte, and nothing if there is none |
| SandboxPaths.BoundaryExactly | src/workers/fs_worker.c:98-102 | the string test accepts exactly the component-wise extensions of the root, unless the root is "/" |
| SandboxPaths.TopRefusesHome | src/workers/fs_worker.c:98-102 | an instance: the root "/" refuses "/home" |
| SandboxPaths.JoinedBoundary | src/workers/fs_worker.c:98-102 | the same on slash-joined component lists |
| SandboxPaths.PathInjective | src/workers/fs_worker.c:98-102 | a canonical path has one list of components |
| SandboxPaths.NewFileBoundary | src/workers/fs_worker.c:92-102 | a new file's path passes the test exactly when its parent is not "/" and it extends the root |
| SandboxPaths.ResolvedStaysInside | src/workers/fs_worker.c:43-105 | whatever is accepted is canonical and inside the root, for any file system |
| SandboxPaths.ResolveExisting | src/workers/fs_worker.c:61-68 | what must exist is accepted as specified on components |
| SandboxPaths.ResolveNew | src/workers/fs_worker.c:69-96 | a new file is accepted as specified on components |
| SandboxPaths.Resolve | src/workers/fs_worker.c:43-105 | the whole resolution on strings agrees with the one on components, in both modes and for every root; for a root other than "/" it accepts exactly as AcceptsExactly says |
| SandboxPaths.AcceptsExactly | src/workers/fs_worker.c:43-105 | for a root other than "/": a request without its leading slashes is accepted if and only if realpath puts root + "/" + request inside the root, or, for a file to be created, the part before the last slash with a plain name behind it; the answer is what realpath says, with that name |
| SandboxPaths.RelativeRebuilds | src/workers/fs_worker.c:108-114 | root joined with the relative path rebuilds the accepted path; the root alone is shown as "." |
| SandboxPaths.RelativeRebuildsAtTop | src/workers/fs_worker.c:108-114 | also for the doubled slash under the root "/" |

## Left out

- JsonPrinter.PrintBuffer.PrintNumber: the floating-point formats and their rounding are an arbitrary function to numerals, because their digits are not visible in the source; the round trip holds for numbers such a function prints exactly, and for all 32-bit integers.
- JsonParser.Buffer.ParseNumber: strtod is exact on reals; rounding, overflow, infinities and locales are not modelled.
- JsonParser.Buffer.ParseArray: children are collected as a value; how the items are linked on the heap is modelled in ItemList.LinkParsed. The same holds for objects.
- ItemList.ReplaceItemViaPointer: the deletion of the replaced item is not modelled, nor is any other release of memory.
- ItemList.AddItemToArray: behind other items, an item that still has a `next` is excluded, because the code links it as it is and the list then has no end; callers pass detached items.
- ItemList.InsertItemInArray: the same, where it appends.
- IpcFraming.Socket.IpcSend: payloads of 2^32 - 12 bytes and more are excluded, since the 32-bit body length wraps around.
- IpcFraming.Socket.Send: POSIX only; a count above the kernel's limit is clamped, as Linux does.
- IpcCodec.EncodeReqSend: texts whose lengths add up to 2^32 or more are excluded, since the 32-bit size wraps around.
- IpcCodec.EncodeRepFinal: the same for its strings.
- IpcCodec.EncodeWorkerStart: the same.
- IpcCodec.EncodeSessionRename: the same.
- IpcCodec.EncodeWorkerReq: the same.
- IpcCodec.EncodeWorkerRep: the same.
- IpcCodec.EncodeApprovalReq: the same.
- ApprovalScreen.ScreenTellsApart: every byte is taken to fill one column, as printable ASCII does; multi-byte characters, and control characters, which curses expands or obeys, are not modelled.
- ApprovalScreen.LineTellsApart: a line on which one description leaves the keys in part and the other goes on instead is covered in one direction only.
- ApprovalRuns.EffectsHaveConsent: a failed file operation counts as an effect too; the contents written, and how long the argument strings stay allocated, are not modelled.
- AgentLoop.HandleRequest: get_provider and its lazy initialisation are a parameter; the encoder's error path needs a failing allocation.
- WordWrap.CountRows: texts on which the loop does not end are excluded, by the condition of WordWrap.EndsExactly.
- WordWrap.WrapLineEnd: texts that end within a multi-byte character are excluded, since the code then reads behind the terminator (WordWrap.ReadsInsideExactly). The same holds for WordWrap.RenderWrapped.
- Persistence.LoadAfterSave: writing a file is taken to succeed, and the texts of the chats are taken to be within the printer's length limit; otherwise the old file stays. Persistence.LifeKeeps holds without that limit.
- Persistence.DeletedStaysDeleted: the same.
- Persistence.RestartRestores: the same.
- Persistence.Store.Load: a stored number outside the range of int is truncated as if int had that value, where C leaves the conversion undefined; the chat of a session is a value here, and its buffer is modelled in ChatHistory.
- SandboxPaths.Resolve: only the returned path is claimed to be inside the root; what happens to the file system between resolution and use is not modelled.
- Provider HTTP requests, keys and model lists; ncurses drawing, overlay, sidebar, line editor and key decoding; process start and shutdown; Windows branches.
- cJSON_Duplicate, cJSON_Compare, cJSON_Minify, raw items, reference items and custom hooks: the repository does not call them.
- The realloc-free growth path of the printer for custom allocators: it needs hooks that are never installed.
- The in-flight table of the TUI and reply routing by session index: progress messages reuse a request's id and stored indices go stale after a deletion, so no conservation law holds.
- The TUI's non-blocking receive path, where a partial frame counts as a disconnect, and byte interleaving of concurrent sends.
