# A verified model of the CoAP library

The library is a small C implementation of CoAP (RFC 7252). This project models the three parts of it that
carry the protocol, and proves what they are for.

**The engine of confirmable messages** (`mcoap/mc_endpt_udp.c`, `mcoap/mc_buffer_queue.c`, `mnet/mn_timeout.c`).
Messages in flight wait in a doubly linked queue. Sending, receiving an acknowledgement and sweeping for timeouts
are its three steps. `Engine` gives them as functions on a state: the queue, and for every message ever handed
over a record of its transmissions, of the calls of its result function and of where it is now; and the log of every
datagram handed to the socket and every call of a result function, in order. `EngineSafety` proves the invariant of
every reachable state and `EngineRuns` what holds over whole runs: conservation, fidelity of retransmissions,
back-off, timing bounds in both directions, draining and message ids. `EngineLogs` proves that the log, cut by
message, is the histories. `BufferQueues` is the pointer structure and `Endpoints` the endpoint itself, on the heap;
each of its methods is proved to be exactly one step of the engine (`Abs`) and to leave no entries in the queue but
old and new ones. The log is not the endpoint's to write: it belongs to the class `Environment`, and only `SendTo`
and `Call` add to it, so a step is made by sending and calling exactly what it says. `ReadLoops` calls the methods
one after the other, as the read loop and any read function do, and proves that the endpoint goes through a run, turn
after turn: a datagram received, what the read function sends, a sweep.

**The message and option format** (`mcoap/mc_header.c`, `mcoap/mc_option.c`, `mcoap/mc_options_list.c`,
`mcoap/mc_message.c`, `mcoap/mc_buffer.c`, `msys/ms_endian.c`). `Header`, `OptionCodec`, `OptionOrder` and
`MessageCodec` describe the wire format and the four traversals of it (size, write, count, read) as functions of
byte sequences, and prove exactly when each undoes another. `WireFormat` says in plain numbers what the bytes of a
datagram mean, as sections 3 and 3.1 of RFC 7252 draw them, and holds parsing and printing against that: which bytes
are accepted, what is found in them, and that nothing shorter than what is printed says the same. `Buffers`,
`OptionsList` and `Messages` are the methods with their cursors and arrays, proved against those functions.
`OptionsMerge` copies and merges lists on the heap.

**From URIs to options** (`mcoap/mc_uri.c`). `Uris` is the scanner and its array of options, `UriRoundTrip` says
which URIs it takes apart correctly. `Requests` joins the three parts: from a URI to the datagram and to what its
receiver finds in it.

Every theorem is about all inputs, all runs or all reachable states. The clock, `rand`, the result of `sendto` and
received datagrams are arbitrary: the class `Environment` stands for the clock, `rand`, the socket and the callers'
result functions.

## Where the code differs from its documentation

The model follows the code. For each difference a named member says exactly what the code does.

- `mc_buffer_next_uint16` (mcoap/mc_buffer.c:47-54) copies an uninitialised variable into the buffer instead of
  the reverse. The methods take a reader for each of the two passes, as meant or as it stands, and are proved for
  both; as it stands the variable may hold something else at every read, and the buffer is written over. The
  theorems of `MessageCodec` are about the read as it is meant, and so is the endpoint. About the read as it stands
  `ReadAsWritten.PassesAgreeIff` says when the reading pass can leave the buffer, and
  `ReadAsWritten.RoundTripAsWrittenIff` that messages survive it if and only if no option needs a 16-bit extension.
- `advanceto` (mcoap/mc_uri.c:128-132) goes to the end of the string when it already stands on a delimiter, although
  its comment promises the next one. `UriRoundTrip.UriRoundTripIff` says which URIs survive: without an explicit
  port all paths and queries are lost, and so is whatever follows an empty segment. A query straight after a host
  name is even taken for a part of the name (`UriRoundTrip.QuerySwallowed`).
- The first transmission sets the counter to 1 and the cap is tested with `>=` (mcoap/mc_endpt_udp.c:209, 247): a
  message is sent at most 4 times, where section 4.2 of RFC 7252 allows 1 + 4. `EngineRuns.Fidelity` proves the
  bound and `EngineRuns.BoundsAreReached` that it is reached.
- Options are sorted with `qsort` (mcoap/mc_options_list.c:43-45), which may exchange options with equal numbers,
  such as the segments of a path. Methods assume no more of the sort than the C standard promises, and each round
  trip is stated twice: for a stable sort, and for every sort (the lemmas named `AnySort`,
  `OptionOrder.EverySortKeepsIff`, `UriRoundTrip.UriOptionOrderIff`).
- The length of an option value is truncated to 16 bits when written (mcoap/mc_options_list.c:147, 248), while the
  size pass accepts up to 65804 bytes (mcoap/mc_option.c:140) and reserves no length field beyond:
  `OptionCodec.OptionSizeCovers`, `MessageCodec.SizeCheckSuffices`, `MessageCodec.MessageRoundTrip`.
- A message that does not fit the write buffer is sent all the same, as an empty datagram
  (mcoap/mc_endpt_udp.c:260-267): `Endpoints.Endpoint.Send`, whose bytes are `MessageCodec.Datagram`.

## Model

| member | source | states |
|---|---|---|
| `Bytes.SwapIsNetworkOrder16` | msys/ms_endian.c:39-46 | on a little-endian host, swapping before the copy out gives network order, swapping after the copy in reads it back, and swapping twice changes nothing |
| `Bytes.SwapIsNetworkOrder32` | msys/ms_endian.c:52-61 | the same for 32 bits |
| `Bytes.NetworkOfLoad32` | msys/ms_endian.c:52-61 | any four bytes are the network form of the integer read from them |
| `Header.CreatePacks` | mcoap/mc_header.c:24-31 | masking, shifting and or-ing place each argument, cut to its width, in the field of section 3 of RFC 7252, with no field disturbing another |
| `Header.GettersUnpack` | mcoap/mc_header.c:36-66 | each getter's mask and shift reads the field by its place value, for every 32-bit header |
| `Header.HeaderRoundTrip` | mcoap/mc_header.c:24-66 | the getters return what was packed, modulo each field's width |
| `Header.FieldsDetermineHeader` | mcoap/mc_header.c:24-66 | packing what the getters return gives the header back, and only fields that agree do so |
| `Header.ShownByIff` | mcoap/mc_header.c:36-66 | four bytes show what the getters return, at the places of the figure in section 3 of RFC 7252, exactly when the header is their number, big end first |
| `Header.CreateOnWire` | mcoap/mc_header.c:24-31 | fields that fit are four bytes on the wire: 64 * version + 16 * type + token length, the code, the id big end first |
| `OptionCodec.FieldRoundTrip` | mcoap/mc_options_list.c:147-196 | the 4/8/16-bit integer coding inverts for every 16-bit value and never uses nibble 15 |
| `OptionCodec.FieldIsBijective` | mcoap/mc_options_list.c:147-196 | the other direction: a nibble and its extension are re-encoded as themselves exactly when the nibble is not 15 and the sum does not pass 65535 |
| `OptionCodec.MarkerUnambiguous` | mcoap/mc_options_list.c:235-262 | no emitted header byte holds a nibble 15, so none can be taken for the payload marker, for any deltas and lengths |
| `OptionCodec.ScanAfterEncode` | mcoap/mc_options_list.c:372-395 | an option written and scanned gives back its delta and value and leaves exactly what followed it |
| `OptionCodec.TwoPassAgreement` | mcoap/mc_options_list.c:330-426 | on arbitrary bytes, when counting reports n, reading n options stays inside the buffer and stops exactly where counting stopped, if both passes read 16-bit fields alike (as meant, or as it stands with the same junk; `ReadAsWritten.PassesAgreeIff` has the rest) |
| `OptionCodec.CountStopsInside` | mcoap/mc_options_list.c:330-370 | counting stops at the end of the buffer or just before a marker byte |
| `OptionCodec.ReadAfterEncode` | mcoap/mc_options_list.c:275-426 | a printed list is counted and read back as itself, whatever 0xff bytes its values or the payload hold |
| `OptionCodec.EncodeAfterRead` | mcoap/mc_options_list.c:235-426 | canonical option bytes are reproduced byte for byte from the options read out of them |
| `OptionCodec.EncodingIsCanonical` | mcoap/mc_options_list.c:235-296 | everything the encoder writes for a sorted list is canonical |
| `OptionCodec.SizeExactIffSorted` | mcoap/mc_option.c:131-159 | the size pass, which takes deltas in 32 bits, equals the bytes written if and only if the list is sorted |
| `OptionCodec.OptionSizeCovers` | mcoap/mc_option.c:154-159 | above its predecessor an option is promised enough room if and only if its value has at most 65804 bytes, and exactly what it takes if and only if at most 65535 |
| `OptionCodec.SizeCovers` | mcoap/mc_option.c:131-159 | for sorted lists of values the size pass has a length field for, it never promises too little, and is exact if and only if no value exceeds 65535 bytes |
| `OptionOrder.StableSortSorts` | mcoap/mc_options_list.c:34-52 | the model's stable sort sorts, permutes, and keeps options of equal number in order |
| `OptionOrder.StableSortingUnique` | mcoap/mc_options_list.c:34-52 | there is only one stable sorting of a list |
| `OptionOrder.EverySortKeepsIff` | mcoap/mc_options_list.c:34-52 | a sorted list survives every qsort unchanged if and only if equal numbers mean equal options |
| `OptionOrder.MergedInOrder` | mcoap/mc_options_list.c:98-124 | merged by a stable sort, options of the first list precede those of the second with the same number, and nothing is lost or added |
| `OptionOrder.ValuesPermuted` | mcoap/mc_options_list.c:34-52 | however a list is rearranged, under each number there are the same values |
| `OptionOrder.ValuesKept` | mcoap/mc_options_list.c:34-52 | a stable sort keeps them in order |
| `MessageCodec.MessageRoundTrip` | mcoap/mc_message.c:171-251 | with a stable qsort, parse after print gives the message back, empty lists and payloads as null, if and only if the token is as long as the header says and no value exceeds 65535 bytes |
| `MessageCodec.MessageComesBack` | mcoap/mc_message.c:171-251 | over any qsort, what comes back of such a message differs at most in the order of options of equal number |
| `MessageCodec.MessageRoundTripAnySort` | mcoap/mc_message.c:171-251 | every qsort returns the message itself if and only if the format can carry it and equal numbers mean equal options |
| `MessageCodec.BuiltMessageRoundTrip` | mcoap/mc_message.c:31-48 | a message made by `mc_message_init` comes back exactly when its token has at most 15 bytes and its values at most 65535: with a stable qsort, and with every qsort exactly when besides equal numbers mean equal options |
| `MessageCodec.MessageSizeCovers` | mcoap/mc_message.c:152-169 | the size pass of a message with a sorted list never promises too little, if it has a length field for every value, and is exact if and only if the values fit 16 bits |
| `MessageCodec.SizeCheckSuffices` | mcoap/mc_message.c:171-195 | once the initial size check has passed no later check fails, if the size pass can size the values; no write goes beyond the buffer, if besides that, or instead, there is no payload or the buffer has at most 65535 bytes |
| `MessageCodec.StaysInsideIff` | mcoap/mc_message.c:171-195 | printing stays inside every buffer if and only if there is no payload or the size pass promises more than the bytes in front of it |
| `MessageCodec.OverrunExample` | mcoap/mc_message.c:188-195 | a message and a buffer size for which it does not |
| `MessageCodec.DatagramRoundTrip` | mcoap/mc_message.c:201-251 | with a stable qsort, print after parse reproduces an accepted datagram byte for byte if and only if it uses no nibble 15, no sum past 65535, and is not followed by exactly one byte after the options |
| `MessageCodec.DatagramRoundTripAnySort` | mcoap/mc_message.c:201-251 | every qsort reproduces it if and only if besides its options of equal number are equal |
| `MessageCodec.StableSortsTo` | mcoap/mc_message.c:201-251 | the parse with a stable sort is one of those any qsort may give |
| `WireFormat.ScanIsWire` | mcoap/mc_options_list.c:372-395 | one option is cut off as its bytes say: nibbles 13 and 14 add 13 to a byte and 269 to two, big end first, and the value follows |
| `WireFormat.PassesAreWire` | mcoap/mc_options_list.c:330-426 | counting succeeds exactly on whole options up to the end or a byte 255; reading gives their running numbers and values, and both stop there |
| `WireFormat.AcceptedIff` | mcoap/mc_message.c:201-251 | a datagram is accepted if and only if header and token are there and behind them are whole options up to the end or a byte 255, or at most one byte; it is read beyond exactly when header or token are cut off; and what comes out is the fields at their places, the token, the options, and the bytes behind the 255 |
| `WireFormat.MayParseIff` | mcoap/mc_message.c:201-251 | so with every qsort |
| `WireFormat.PrintedBytes` | mcoap/mc_message.c:171-199 | any message: the header at its places, the token, and the byte 255 in front of a payload that is not empty and of nothing else |
| `WireFormat.PrintedInit` | mcoap/mc_message.c:31-48 | a message made from fields that fit is printed as them, byte for byte |
| `WireFormat.PrintedMeans` | mcoap/mc_message.c:171-199 | what is printed for a message the format can carry is accepted and says exactly what the message holds |
| `WireFormat.PrintedIsShortest` | mcoap/mc_options_list.c:147-262 | of all bytes that say the same of an option without a nibble 15, what is printed is the shortest, and the only one so short |
| `WireFormat.PostExample` | mcoap/mc_message.c:188-195 | a POST under id 1 with the payload "A" is 40 02 00 01 ff 41 |
| `WireFormat.CutOffExample` | mcoap/mc_message.c:232-239 | 40 01 00 01 45 61 62, an option of five bytes with two there, is rejected |
| `ReadAsWritten.MeantParse` | mcoap/mc_message.c:201-251 | with both passes reading as meant, the parse with a reader for each is the parse of the format |
| `ReadAsWritten.PassesAgreeIff` | mcoap/mc_options_list.c:330-426 | with the 16-bit read as it stands, for every content of the variable at every read of either pass, the reading pass stays inside the overwritten buffer and stops where counting did, if and only if counting comes to no 16-bit length field |
| `ReadAsWritten.SameJunkAgrees` | mcoap/mc_options_list.c:330-426 | where the variable holds the same at matching reads of both passes, what counting has overwritten does not matter to reading |
| `ReadAsWritten.WritesInsideIff` | mcoap/mc_options_list.c:341-367 | counting with the read as it stands writes inside the buffer, for every content of the variable at every read, if and only if no content of it leads to a 16-bit length field that crosses the end |
| `ReadAsWritten.RoundTripAsWrittenIff` | mcoap/mc_buffer.c:47-54 | with the read as it stands, a message parses back for every content of the variable at every read if and only if its token is as long as its header says and all deltas and lengths are below 269; for every qsort if and only if besides equal numbers mean equal options |
| `ReadAsWritten.HarmfulParseFails` | mcoap/mc_buffer.c:47-54 | one content of the variable spoils every message that needs a 16-bit extension, under every qsort |
| `Buffers.Buffer.NextUint16` | mcoap/mc_buffer.c:47-54 | the cursor read as it is meant: two bytes of the buffer, in memory order |
| `Buffers.Buffer.NextUint16AsWritten` | mcoap/mc_buffer.c:47-54 | the read as it stands: the result is whatever the variable held, and that is written over the two bytes; how many of them lie beyond the buffer |
| `Buffers.Buffer.NextUint32` | mcoap/mc_buffer.c:57-64 | four bytes of the buffer, in memory order |
| `Buffers.Buffer.NextPtr` | mcoap/mc_buffer.c:67-78 | exactly the next bytes of the buffer |
| `Buffers.Buffer.CopyFrom` | mcoap/mc_buffer.c:86-96 | succeeds exactly when the bytes fit, and then changes those bytes and no others |
| `Buffers.Buffer.Copy` | mcoap/mc_buffer.c:98-106 | a fresh array with the bytes asked for, or null exactly when they are not there |
| `OptionsList.ValueToEncodedInt` | mcoap/mc_options_list.c:147-168 | the code, nibble and extension are those of the format, and the nibble is at most 14 |
| `OptionsList.OptionToBuffer` | mcoap/mc_options_list.c:235-262 | succeeds exactly when the option fits, then has written its encoding; never touches a byte before the cursor or beyond the buffer |
| `OptionsList.ListToBuffer` | mcoap/mc_options_list.c:275-296 | the loop writes the whole encoding and nothing else, or fails exactly when it does not fit |
| `OptionsList.ListBufferSize` | mcoap/mc_options_list.c:126-142 | the loop computes the size pass |
| `OptionsList.OptionNumFromBuffer` | mcoap/mc_options_list.c:310-328 | the cursor moves by the extension's length; inside the buffer the value is the field's, and a 16-bit read as it stands overwrites the field and nothing else |
| `OptionsList.CountOptions` | mcoap/mc_options_list.c:330-370 | for either reader the count depends on the buffer's own bytes only, even though the scan may run past them; what the scan overwrites are the 16-bit lengths it comes to, and how many bytes beyond the buffer |
| `OptionsList.CountOne` | mcoap/mc_options_list.c:342-366 | one turn of the loop finds the end of the option, or that it lies beyond the buffer |
| `OptionsList.OptionFromBuffer` | mcoap/mc_options_list.c:372-395 | for either reader one option is read from inside the buffer, the cursor stops behind it and what follows is untouched |
| `OptionsList.OptionsSort` | mcoap/mc_options_list.c:43-45 | the first items become some sorting of themselves, the others stay |
| `OptionsList.ReadOptions` | mcoap/mc_options_list.c:414-423 | the reading loop, without a check of its own, reads exactly the options of the reading pass |
| `OptionsList.ListFromBuffer` | mcoap/mc_options_list.c:398-426 | null exactly when nothing was counted; otherwise a sorting of the options the reading pass finds in what the counting pass has left, and the cursor where it stopped |
| `OptionsMerge.CopyTo` | mcoap/mc_option.c:104-111 | a slot gets the option's number and value in a fresh array |
| `OptionsMerge.CopyList` | mcoap/mc_options_list.c:108-121 | the copying loop fills the next slots in list order and leaves the earlier ones |
| `OptionsMerge.Copy` | mcoap/mc_options_list.c:75-92 | null for null; otherwise a new sorted list of the same options sharing no array with the old one |
| `OptionsMerge.Merge` | mcoap/mc_options_list.c:98-124 | a new sorted list whose options are those of both; inputs unchanged, every value in a fresh array of its own |
| `OptionsMerge.SortRefsView` | mcoap/mc_options_list.c:43-45 | sorting entries by number, pointers and all, sorts what they say |
| `OptionsMerge.PermutedUnshared` | mcoap/mc_options_list.c:43-45 | moving entries about does not make two of them share a value |
| `Messages.InitFields` | mcoap/mc_message.c:31-48 | a message made has the code, id, token, options and payload it was made with, and version and type modulo 4; it is an acknowledgement if that is 2 and confirmable if it is 0 |
| `Messages.MessageBufferSize` | mcoap/mc_message.c:152-169 | computes the message's size pass |
| `Messages.MessageToBuffer` | mcoap/mc_message.c:171-199 | any list, any values: 0 and nothing written when the size pass says so, 0 when it has fallen short and a later check fails; otherwise the message is written at the start, with the byte 255 in front of a payload, and every other byte is unchanged; never a byte beyond the buffer |
| `Messages.MessageFromBuffer` | mcoap/mc_message.c:201-251 | for either reader in each pass, the result is one that parse and some qsort allow, rejections included; where both read as meant it is a message exactly if the bytes are acceptable by `WireFormat.Accepted` |
| `Messages.ParseInParts` | mcoap/mc_message.c:201-251 | header, token, options and payload read one after the other make the parse |
| `Messages.AckShows` | mcoap/mc_endpt_udp.c:192-193 | what is taken for an acknowledgement, and of which id, shows in the first four bytes: type 2 in the first, the id in the last two |
| `Timeouts.ExpiredIff` | mnet/mn_timeout.c:44-59 | when a timeout reads as 0, for every combination of limits |
| `Timeouts.MarkedTimeoutExpires` | mnet/mn_timeout.c:33-59 | a relative timeout reads as 0 exactly from its start plus its total on |
| `Engine.IdClosedForm` | mcoap/mc_endpt_udp.c:128-136 | ids go round the 65535 non-zero values |
| `Engine.IdsDistinct` | mcoap/mc_endpt_udp.c:128-136 | no id is 0, and two are equal exactly when a multiple of 65535 ids apart |
| `Engine.EnqueuedIsArrived` | mcoap/mc_endpt_udp.c:237-254 | queueing first and settling afterwards amounts to one step |
| `Engine.ArrivePosts` | mcoap/mc_endpt_udp.c:237-254 | whatever sendto answers, outside it shows as exactly one datagram with the bytes and destination given; on 0 the message is queued behind the others, otherwise the queue is as it was and the result function, if there is one, is told the answer |
| `Engine.AcknowledgeExactly` | mcoap/mc_endpt_udp.c:192-199 | an acknowledgement that names no entry changes nothing; one that does takes out the first entry it names, its result function above 1 is told 0 with the id, and no other entry or history changes |
| `Engine.ExpiredIsDue` | mcoap/mc_endpt_udp.c:287 | what the sweep takes for expired are the entries whose start plus total has been reached |
| `Engine.HalvesMakeVisit` | mcoap/mc_endpt_udp.c:287-302 | re-arming, resending and settling amount to one visit of the entry |
| `Engine.SweepIsFilterMap` | mcoap/mc_endpt_udp.c:281-310 | the sweep with its cursor makes of the queue a filter-map: each entry handled once and by itself, order kept, nothing added |
| `EngineRuns.SweepHistories` | mcoap/mc_endpt_udp.c:281-310 | and of the histories: each entry's message gets the transmission or the call of its own visit, once, and no other history changes |
| `EngineRuns.VisitAttends` | mcoap/mc_endpt_udp.c:287-302 | what becomes of one entry, by its timeout and counter: before its time nothing; from then on, below four transmissions it is sent once more and stays, with doubled and restarted timeout, exactly if that succeeds; otherwise it goes and its result function is told the error, or -1 at four |
| `EngineRuns.SweepAttends` | mcoap/mc_endpt_udp.c:281-310 | in every reachable state a sweep does that to every entry: one read at or after start plus total has one more transmission or has left the queue, one read before is still there, unchanged, with the same history |
| `EngineRuns.RunsAttend` | mcoap/mc_endpt_udp.c:281-310 | so does every sweep of every run |
| `Engine.SweepLog` | mcoap/mc_endpt_udp.c:281-310 | outside it shows as the datagrams and calls of the visits, in queue order, and nothing else |
| `Engine.SweepIsFilterMapTo` | mcoap/mc_endpt_udp.c:281-310 | at every moment of it, what lies before the cursor is done and what lies behind is untouched |
| `EngineSafety.BackoffClosedForm` | mcoap/mc_endpt_udp.c:287-292 | doubling k times gives T0 * 2^k, and the waits before add up to T0 * (2^k - 1) |
| `EngineSafety.ArriveKeeps` | mcoap/mc_endpt_udp.c:237-254 | sending keeps the invariant, whether or not sendto succeeds |
| `EngineSafety.TakeIdKeeps` | mcoap/mc_endpt_udp.c:128-136 | issuing an id keeps it |
| `EngineSafety.AcknowledgeKeeps` | mcoap/mc_endpt_udp.c:192-199 | an acknowledgement keeps it, whatever it names |
| `EngineSafety.VisitIsOk` | mcoap/mc_endpt_udp.c:287-302 | one entry and its history stay in order through a visit: capped, on schedule, called back exactly if it leaves |
| `EngineSafety.SweepKeeps` | mcoap/mc_endpt_udp.c:281-310 | every moment of a sweep keeps the invariant |
| `EngineRuns.StepKeeps` | mcoap/mc_endpt_udp.c:163-310 | every step keeps the invariant |
| `EngineRuns.RunsAreSafe` | mcoap/mc_endpt_udp.c:163-310 | the invariant holds in every state of every run |
| `EngineRuns.RunGrows` | mcoap/mc_endpt_udp.c:163-310 | appending any legal step to a run gives a run |
| `ReadLoops.Perform` | mcoap/mc_endpt_udp.c:256-381 | whatever a read function sends extends the endpoint's run, log included, by one step with the destination and the bytes asked for |
| `ReadLoops.Turn` | mcoap/mc_endpt_udp.c:98-110 | the body of the read loop extends the endpoint's run: one datagram is received, and acknowledged to the queue if it is of type 2; then there is what the read function sends, then one sweep; what is handed to the socket and told to result functions is what that run says |
| `ReadLoops.Loop` | mcoap/mc_endpt_udp.c:90-111 | so does the loop, turn after turn until the read function says to stop, for any number of turns, however network, clock and read function behave; at the end the log accounts for every message |
| `ReadLoops.Serve` | mcoap/mc_endpt_udp.c:34-111 | from a fresh endpoint on it is a run |
| `EngineRuns.RunsExtend` | mcoap/mc_endpt_udp.c:157-310 | histories only grow, and what has left the queue never changes again |
| `EngineRuns.Conservation` | mcoap/mc_endpt_udp.c:157-310 | in every run each message is queued, once, or acknowledged, given up or failed; its result function is called exactly once, with its id and 0, -1 or the error of its last transmission, respectively, and never before |
| `EngineRuns.Fidelity` | mcoap/mc_endpt_udp.c:204-253 | every retransmission in a history carries the bytes and destination of the first; at most 4 transmissions, exactly 4 before a timeout is reported |
| `EngineLogs.RunsKeepLog` | mcoap/mc_endpt_udp.c:157-310 | in every run the log of what was handed to the socket and told to result functions, cut by message, is the histories |
| `EngineLogs.SeenOfMessage` | mcoap/mc_endpt_udp.c:157-310 | of every message handed over the socket has seen one to four datagrams, all with its bytes and destination, four if it timed out; its result function has been told once, with its id and 0 if acknowledged, -1 if given up, the error of the last datagram if sending failed, once it has left the queue, and nothing before |
| `EngineLogs.NothingForStrangers` | mcoap/mc_endpt_udp.c:157-310 | nothing is sent for and nobody told about a message that was never handed over |
| `EngineRuns.Backoff` | mcoap/mc_endpt_udp.c:204-302 | in every reachable state a queued message sent k times, 1 <= k <= 4, waits T0 * 2^(k-1), with T0 from 2 to 3 seconds |
| `EngineRuns.NotEarly` | mcoap/mc_endpt_udp.c:287-298 | the transmission after k others comes no sooner than (2^k - 1) * T0 after the first was queued, and giving up no sooner than 15 * T0 |
| `EngineRuns.NotLate` | mcoap/mc_endpt_udp.h:19-26 | if every entry that is due is handled within d of that, giving up comes by 15 * T0 + 4d, within MAX_TRANSMIT_SPAN + 4d |
| `EngineRuns.QueuedNotLong` | mcoap/mc_endpt_udp.h:19-26 | if besides nothing queued has been due for more than d, nothing stays queued longer than that either |
| `EngineRuns.SweepLeavesNoneOverdue` | mcoap/mc_endpt_udp.c:281-310 | a sweep that takes no longer than d leaves nothing that has been due for more than d |
| `EngineRuns.SweptNotLong` | mcoap/mc_endpt_udp.c:281-310 | hence after it whatever is still queued was handed over at most 15 * T0 + 4d before, if no sweep of the run was later than d |
| `EngineRuns.BoundsAreReached` | mcoap/mc_endpt_udp.c:204-219 | some run sends a message four times and gives it up after exactly 15 * T0, so the bounds are tight |
| `EngineRuns.SweepSpendsBudget` | mcoap/mc_endpt_udp.c:281-310 | the sum of MAX_RETRANSMIT + 1 - xmitcounter never rises in a sweep and drops by at least one per entry that is due |
| `EngineRuns.SweepDrains` | mcoap/mc_endpt_udp.c:281-310 | so it does for the queue of every reachable state |
| `EngineRuns.BudgetBounds` | mcoap/mc_endpt_udp.c:204-219 | that sum is at least the queue's length and at most four times it: no budget means an empty queue |
| `EngineRuns.StretchDrains` | mcoap/mc_endpt_udp.c:192-310 | over any stretch of a run without new confirmable messages, acknowledgements and sweeps in any order, the expiries handled and the budget left are at most the budget at its start, which is four per queued message; once that many have been handled the queue is empty |
| `EngineRuns.FourFullSweepsDrain` | mcoap/mc_endpt_udp.c:281-310 | from any reachable state four sweeps in a row that find every entry due empty the queue |
| `EngineRuns.AckIsPreciseIff` | mcoap/mc_endpt_udp.c:192-199 | with ids of the endpoint's own, every acknowledgement hits the entry it is for if and only if no two queued ids were issued a multiple of 65535 apart |
| `EngineRuns.AckRemovesTheOneItNames` | mcoap/mc_endpt_udp.c:192-199 | while queued ids are among the last 65535, an acknowledgement removes precisely the entry it names, leaves the rest in order and every other history alone |
| `EngineRuns.DoneWithIsUnmatched` | mcoap/mc_endpt_udp.c:192-198 | then an acknowledgement for a message that has left the queue names no entry, which is when the source follows a null |
| `EngineRuns.DuplicateAckIsUnmatched` | mcoap/mc_endpt_udp.c:192-198 | in any run the second copy of an acknowledgement, and any later one, is such a one |
| `BufferQueues.QueueEntry.constructor` | mcoap/mc_buffer_queue.c:37-58 | an entry starts unsent, with its timeout running |
| `BufferQueues.MkTimeout` | mcoap/mc_buffer_queue.c:18-31 | the first timeout is 2 seconds and as many more as the number drawn between 0 and 1 |
| `BufferQueues.BufferQueue.constructor` | mcoap/mc_buffer_queue.c:88-93 | an empty, well-formed list |
| `BufferQueues.BufferQueue.Add` | mcoap/mc_buffer_queue.c:99-116 | the new entry is appended and the links stay consistent |
| `BufferQueues.BufferQueue.Count` | mcoap/mc_buffer_queue.c:122-132 | the walk along the links counts the entries |
| `BufferQueues.BufferQueue.Unlink` | mcoap/mc_buffer_queue.c:138-162 | removes the entry at any position, first, middle, last or only, and nothing else |
| `BufferQueues.BufferQueue.StillLinked` | mcoap/mc_buffer_queue.c:138-162 | neighbours joined across a removed entry form a well-formed list again |
| `BufferQueues.BufferQueue.RemoveEntry` | mcoap/mc_buffer_queue.c:170-179 | and answers the entry that followed; for null it does nothing |
| `BufferQueues.BufferQueue.Get` | mcoap/mc_buffer_queue.c:185-200 | the first entry with the id, or null exactly when there is none |
| `BufferQueues.BufferQueue.Remove` | mcoap/mc_buffer_queue.c:206-212 | removes that entry and answers its id, or answers UINT32_MAX and changes nothing |
| `BufferQueues.BufferQueue.Free` | mcoap/mc_buffer_queue.c:218-223 | the loop empties the list |
| `BufferQueues.BufferQueue.NextTimeout` | mcoap/mc_buffer_queue.c:231-237 | the first expired entry from a position on, or null |
| `BufferQueues.BufferQueue.TakeTimeout` | mcoap/mc_buffer_queue.c:251-266 | removes the first entry that reads as expired when it is looked at, and no other |
| `Endpoints.Endpoint.constructor` | mcoap/mc_endpt_udp.c:34-54 | a fresh endpoint is the start of a run, with an id that is not 0 and a socket that has seen nothing |
| `Endpoints.Endpoint.NextId` | mcoap/mc_endpt_udp.c:128-136 | hands out the next id of the engine, never 0 |
| `Endpoints.Endpoint.CallResultFn` | mcoap/mc_endpt_udp.c:157-161 | a result function above 1 is called, once, with the id and the error, and nothing else is; flags are not called |
| `Endpoints.Endpoint.SendEntryBuffer` | mcoap/mc_endpt_udp.c:204-219 | at the cap nothing is handed to the socket and the error is a timeout; below it the entry's own copy is, to its own destination, and nothing else, and the counter rises |
| `Endpoints.Endpoint.CheckQueues` | mcoap/mc_endpt_udp.c:281-310 | the loop that unlinks entries as it walks terminates, does to the queue and all histories exactly what the engine's sweep does, sends and calls exactly what that sweep does, and adds no entry; every entry that is due by its reading is sent once more or leaves, and no other is touched |
| `Endpoints.Endpoint.VisitEntry` | mcoap/mc_endpt_udp.c:287-307 | one turn of it is one visit, with the datagram and the call of that visit, and the walk goes on with the right entry; by the entry's timeout and counter it is left alone, sent once more or dropped |
| `Endpoints.Endpoint.SendConMsg` | mcoap/mc_endpt_udp.c:237-254 | exactly the engine's sending step: the bytes in the write buffer are handed to the socket once, a private copy is queued, a failure is told; every entry is an old or a new one |
| `Endpoints.Endpoint.Send` | mcoap/mc_endpt_udp.c:256-271 | the socket is handed one datagram, the message's encoding or an empty one if it does not fit; a confirmable message takes the sending step, any other leaves queue and histories alone |
| `Endpoints.Endpoint.Confirm` | mcoap/mc_endpt_udp.c:192-199 | the first entry named is removed and its result function, if there is one, told 0, exactly the engine's step; it says whether there was one, and changes nothing if not |
| `Endpoints.Endpoint.Dispatch` | mcoap/mc_endpt_udp.c:192-199 | an acknowledgement is exactly the engine's step, any other message changes nothing |
| `Endpoints.Endpoint.Recv` | mcoap/mc_endpt_udp.c:163-202 | one datagram is taken from the socket; a message comes of it exactly if its bytes are acceptable, and one of type 2 takes the step of the id in its last header bytes; the read buffer keeps its size |
| `Endpoints.ParseDatagram` | mcoap/mc_endpt_udp.c:174-190 | a message comes out exactly when the datagram is accepted, and the buffer has its full size again |
| `Endpoints.Endpoint.SendMsg` | mcoap/mc_endpt_udp.c:346-381 | a step of the engine under the next id; the socket is handed one datagram with the request's bytes, of which the first ten are spelt out: version, type, method, id, token; the id is answered exactly when that succeeded |
| `Endpoints.Endpoint.SendAck` | mcoap/mc_endpt_udp.c:316-330 | the socket is handed one datagram, the acknowledgement for the id, 60 + token length, 00, the id and the token; queue and histories are unchanged |
| `Endpoints.RequestFields` | mcoap/mc_endpt_udp.c:346-358 | a request has version 1, type 0 with a result function and 1 without, the method as its code, its id, a token of the id and the random number, its options and payload |
| `Endpoints.RequestOnWire` | mcoap/mc_endpt_udp.c:346-381 | and is printed as those ten bytes, its options and its payload |
| `Endpoints.AckFields` | mcoap/mc_endpt_udp.c:316-330 | an acknowledgement has version 1, type 2, code 0, the id and token given, no options and no payload |
| `Endpoints.AckOnWire` | mcoap/mc_endpt_udp.c:316-330 | and is four bytes and the token, if that has at most 15 |
| `Endpoints.AckArrives` | mcoap/mc_endpt_udp.c:316-330 | an acknowledgement with a token of at most 15 bytes is accepted by its receiver, whatever its qsort, as one for the id it names, with code 0, the token and nothing else |
| `Uris.SpanTo` | mcoap/mc_uri.c:128-132 | the length up to the first stop, or the whole string |
| `Uris.EstimateCovers` | mcoap/mc_uri.c:138-148 | for any text, paths and queries found never outnumber the delimiters counted |
| `Uris.AdvanceBy` | mcoap/mc_uri.c:39-52 | advances over a prefix exactly when it is there |
| `Uris.EstimateNopts` | mcoap/mc_uri.c:138-148 | the loop counts the delimiters |
| `Uris.FillPaths` | mcoap/mc_uri.c:283-290 | the loop stops, stays inside the array and appends exactly the paths |
| `Uris.FillQueries` | mcoap/mc_uri.c:292-299 | the same for queries |
| `Uris.UriToOptions` | mcoap/mc_uri.c:222-302 | null exactly for URIs that cannot be taken apart; otherwise a sorted list whose only value under 3 is the host, under 7 a number that reads as the port, under 11 the paths, under 15 the queries, and nothing under 3 and 7 for the destination's own |
| `Uris.SortingSays` | mcoap/mc_uri.c:275-299 | every sorting of a URI's options and some extra ones says so, the extra ones added number by number |
| `Uris.StableSays` | mcoap/mc_uri.c:275-299 | and a stable one in order, the URI's before the extra ones |
| `Uris.UintRoundTrip` | mcoap/mc_option.c:80-129 | an integer put into an option is read back |
| `Uris.AsUintIsBigEndian` | mcoap/mc_option.c:80-129 | one, two or four bytes read as their number, big end first |
| `Uris.UintBytesCanonicalIff` | mcoap/mc_option.c:80-129 | bytes read as an integer are reproduced from it exactly when no shorter form exists |
| `UriRoundTrip.ComposedIsString` | mcoap/mc_uri.c:222-302 | a composed URI holds no terminator, so the source sees it whole |
| `UriRoundTrip.SplitIff` | mcoap/mc_uri.c:14-97 | a text is taken apart if and only if it starts with coap:// or coaps:// and a host: something in brackets, or a first character other than a colon and a slash |
| `UriRoundTrip.SplitOfComposed` | mcoap/mc_uri.c:222-302 | what the library sees in a composed URI, for every port, every list of segments and of queries |
| `UriRoundTrip.QuerySwallowed` | mcoap/mc_uri.c:76-83 | a query straight behind a host name becomes part of the host |
| `UriRoundTrip.UriRoundTripIff` | mcoap/mc_uri.c:222-302 | the library finds in a URI what it says if and only if the port is explicit and not 0 and no empty segment or query is followed by more, or the URI has neither path nor query nor port |
| `UriRoundTrip.PathWithoutPortIsLost` | mcoap/mc_uri.c:128-132 | coap://h/p is seen without its path |
| `UriRoundTrip.UriExample` | mcoap/mc_uri.c:222-302 | coap://[::1]:80/a/b?x&y, byte for byte, is taken apart into ::1, 80, a, b, x, y |
| `UriRoundTrip.PortOfText` | mcoap/mc_uri.c:104-121 | a decimal port is read as its value, 0 as the default |
| `UriRoundTrip.AtoiReads` | mcoap/mc_uri.c:104-121 | a number is read past blanks and a sign up to the first character that is no digit, and is 0 without digits |
| `UriRoundTrip.OptionsInOrder` | mcoap/mc_uri.c:275-299 | the options are produced in sorted order, so a stable sort changes nothing |
| `UriRoundTrip.UriOptionOrderIff` | mcoap/mc_options_list.c:43-52 | every qsort keeps the options of a URI in order if and only if its segments are all equal and its queries are all equal |
| `Requests.MkOptions` | mcoap/mc_endpt_udp.c:336-344 | a sorting of the URI's options and the extra ones, which says host, port, paths and queries under 3, 7, 11 and 15; the caller's list untouched |
| `Requests.SendRequest` | mcoap/mc_endpt_udp.c:364-414 | the whole way from a URI and extra options to a step of the engine: the socket is handed one datagram under the next id, with the method as its code, which carries a sorted list that says the URI's parts and the extra options |
| `Requests.UriOptionsSized` | mcoap/mc_uri.c:222-302 | the options of a URI of at most 65804 bytes have values the size pass can size |
| `Requests.RequestFits` | mcoap/mc_endpt_udp.c:364-381 | no request overruns the write buffer, if that has at most 65535 bytes, or there is no payload, or the size pass can size the options |
| `Requests.RequestArrives` | mcoap/mc_endpt_udp.c:336-381 | whatever qsorts do at either end, the receiver of a request for a surviving URI finds version, type, method, id and token as given; the host as the only value under 3, the port under 7, the paths under 11 and the queries under 15 up to their order, and with them the extra options; and the payload |
| `Requests.RequestArrivesInOrder` | mcoap/mc_endpt_udp.c:336-381 | with stable sorts at both ends it finds them in order, the URI's before the extra ones |

## Left out

- Buffers.Buffer.NextPtr: requires the bytes to be there, because mcoap/mc_buffer.c:72 compares an unsigned difference with 0, never refuses and answers a pointer beyond the buffer.
- Buffers.Buffer.CopyFrom: requires a position inside the buffer; beyond it the unsigned difference of mcoap/mc_buffer.c:92 wraps and the copy goes past the end.
- Buffers.Buffer.Copy: requires a position inside the buffer, for the same reason (mcoap/mc_buffer.c:102).
- Buffers.Buffer.NextUint16: is the read as it is meant; `Buffers.Buffer.NextUint16AsWritten` is the one in the source.
- Buffers.Buffer.NextUint16AsWritten: of what it writes beyond the buffer only the number of bytes is modelled.
- Buffers.Buffer.NextUint32: requires the four bytes to be there; the source has no check at all (mcoap/mc_buffer.c:57-64).
- OptionsList.OptionFromBuffer: requires the option to lie inside the buffer, as counting has made sure if both passes read alike; the source has no check of its own.
- OptionsList.ReadOptions: requires the same of all options.
- OptionsList.ListFromBuffer: requires the same of what counting leaves.
- Messages.MessageFromBuffer: requires that the parse stays inside the buffer, because the source does not check it: neither for a header or a token that is cut off nor for options that the two passes read differently.
- OptionsList.CountOptions: positions are unbounded, so a sum past 2^32 in mcoap/mc_options_list.c:361 is not modelled.
- ReadAsWritten.PassesAgreeIff: is about at most 65535 bytes, as many as a datagram has at most.
- Messages.MessageToBuffer: requires that the payload's marker lies inside the buffer (`MessageCodec.Overruns`), where the source writes it, and the payload behind it, without an effective check; sizes are unbounded, so a size past 2^32 is not modelled.
- Endpoints.Endpoint.Send: requires the same of the message. `MessageCodec.SizeCheckSuffices` says that any sorted list meets it in a buffer of at most 65535 bytes.
- Endpoints.Endpoint.SendMsg: requires the same of the request.
- Requests.SendRequest: requires what makes that sure: no payload, or a write buffer of at most 65535 bytes, or a URI and extra options of at most 65804 bytes each.
- ReadLoops.Perform: leaves out the calls of a read function that would write beyond the buffer.
- ReadLoops.Loop: follows the loop for any number of turns that is given; that another thread stops it is not modelled.
- Endpoints.ParseDatagram: drops a datagram whose token is cut off, where the source reads on.
- Endpoints.Endpoint.Recv: where the source dereferences null, after a failed parse (mcoap/mc_endpt_udp.c:185-186), the model drops the datagram; it reads 16-bit extensions as they are meant.
- Endpoints.Endpoint.Confirm: ignores an id that names no entry, where the source dereferences null (mcoap/mc_endpt_udp.c:194-198); `EngineRuns.DoneWithIsUnmatched` says when that is.
- Endpoints.Endpoint.Dispatch: ignores an acknowledgement that names no entry, where the source dereferences null (mcoap/mc_endpt_udp.c:194-198).
- Endpoints.Endpoint.SendAck: freeing the caller's token afterwards is not modelled.
- Requests.MkOptions: an unusable URI together with extra options is freed as null by the source (mcoap/mc_endpt_udp.c:340); the model takes the extra options alone.
- Uris.UintRoundTrip: an option value with a null pointer reads as 0 in the source and as nothing in the model.
- UriRoundTrip.PortOfText: `atoi` is modelled with unbounded integers, wrapped to 32 bits; ports are composed from 16 bits.
- BufferQueues.BufferQueue.Get: the test for a null queue is left out; releasing memory is clearing the fields.
- ReadLoops.Serve: each endpoint has a clock and a socket of its own.
- Sockets, name lookup and address comparison: results are arbitrary, addresses opaque, and whether a URI names its own destination is a function given to the model.
- Threads: each call of the endpoint is one atomic step, and result functions are events that do not call back.
- Failing allocation, the random numbers of ids and tokens, and floating-point rounding: allocation succeeds, random values are arbitrary within their range, times are real.
- Reset messages, deduplication, NSTART and the source address of acknowledgements: the library does not act on them.
- `mc_endpt_udp_get`, `post`, `put` and `delete` are `Requests.SendRequest` with the codes 1, 2, 3 and 4.
- `mc_code.c`, `mc_uri_to_address`, the lookup of options by number, `mc_options_list_vinit` and `ms_swap_u64`: they would only add easy members.
