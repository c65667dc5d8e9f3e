# A model of pylyskom

pylyskom is a client for LysKOM servers that speak Protocol A. This project models its core in Dafny and proves what
the core is for: that a stream of bytes is read the same way however the network slices it and whichever of the two
connections reads it, that what is printed reads back, that every request gets its own reply, that the caches agree with
the server, and that the unread-text query finds exactly the unread texts.

| file | models |
|---|---|
| `Options.dfy`, `Protocol.dfy`, `Wire.dfy`, `MiscInfo.dfy` | the pure parsers over one universe of wire types, with three outcomes: a value, an error, or more bytes needed |
| `Printer.dfy`, `ServerForm.dfy`, `Requests.dfy`, `Catalog.dfy` | the `to_string` methods, values as the server writes them, request lines, and the round trips |
| `Spelling.dfy`, `ServerLines.dfy`, `Malformed.dfy` | the bytes written out: values and records, the three kinds of lines from the server, and what is refused or waited for |
| `Buffers.dfy`, `Reader.dfy` | the two receive buffers, and the parse methods as loops that run against either of them |
| `Responses.dfy`, `Connections.dfy` | responses and whole streams of them; the blocking and the asyncio connection |
| `Traffic.dfy`, `Client.dfy`, `AioClient.dfy` | routing of replies, with re-entrant handlers and with interleaved tasks |
| `Streams.dfy`, `Caches.dfy`, `Memberships.dfy` | the caches of the blocking client under messages that arrive while a request waits |
| `ReadRanges.dfy`, `Unread.dfy` | gaps, paging and the unread-text query |
| `UserArea.dfy` | named blocks inside nested Hollerith strings |

The bytes of a connection are a sequence of non-empty chunks (`Buffers.ByteStream`); sending accepts any non-empty prefix.
Asyncio tasks are atomic steps between suspension points. The tables `response_dict`, `async_dict` and `error_dict` are a
parameter (`Responses.Dialect`), so the results hold for every table of wire types. Lookups that raise `KeyError` are
errors of their own. The server is a parameter too: a function from requests to mappings for the unread-text query, and
a stream of messages and replies for the caches.

Assumptions, all of them visible in a `requires` clause or a step:

* Unread query: `HonestServer` (a mapping reaches as far as asked or to the end and names every text in it, deleted
  ones as 0 or not at all; it may reach further, since the argument is named `no_of_existing_texts`), or `ExactServer`
  (it never reaches further, as in `tests/test_cachedconnection.py:11-28`). Answers do not change during one query.
* Caches: `Legal` (the fields the handlers' comments name change only with the message that says so, marks only by this
  client, and a deletion may also shorten the comment lists of the texts that were commented) and handlers that issue no
  requests.
* Lists from the server: `N *` for an empty list or one that was not asked for, else `N { ... }` (`Wire.Value.Star`).
* Routing with re-entrant handlers: a handler ends, that is, it does not go on sending for ever when all is lost. A
  handler is a function from the message and the outcomes of its own requests so far to what it does next: it sends
  another request, raises an exception, or finishes. No handler is one that always finishes.

Where the code does not do what one would expect, the model follows the code:

* `reply_bytes[:-1]` cuts off a real byte when the last value of a reply is a string or a list
  (`Responses.RawReplyIsExact`).
* A reply that names a request before it is sent ends the receiver (`Responses.InterleavingIndependence`).
* `parse_hollerith_string` never stops on white space alone (`UserArea.HangsOnlyOnSpace`, `UserArea.HangsForEver`).
* A user area whose names include the empty one does not come back (`UserArea.UserAreaRoundTrip`).
* When `drain` suspends, a reply may overtake the registration of its request; the receiver's assertion then fails and the
  request never returns (`AioRouting.ReceiverAssertion`, `OvertakingIsPossible`, `OvertakenRequestNeverReturns`).
* `get_memberships` ignores `first` on two of its three paths (`MembershipCoherence.FirstIsIgnored`).
* A login without a logout keeps the memberships of the person before (`MembershipCoherence.LoginNeedsEmptyCaches`).
* The deletion of a text leaves the texts it commented in the cache, with their old comment lists
  (`CacheCoherence.DeletionIsCoherent`).
* A membership that is cached by conference may carry an old position, since joining forgets positions only
  (`MembershipCoherence.JoiningMoves`, `HitIsMembership`).
* A server that maps beyond a gap makes the unread query return texts that are read, or the same text twice. For a given
  conference it is safe against every honest server exactly when there is no gap, or no text behind the first one, or
  behind the only one no text but that with the highest number ever used, unread (`Unread.ExactForConference`).

## Model

| member | source | states |
|---|---|---|
| Unread.UnreadTextsExact | pylyskom/cachedconnection.py:317-355 | for every conference, sorted ranges and exact server, the query returns the global numbers of exactly the existing texts in no read range, in local order, each once |
| Unread.UnreadTextsComplete | pylyskom/cachedconnection.py:317-355 | against every honest server, even one that maps beyond a gap, and for any list of ranges, no unread text is missing |
| Unread.UnreadTextsSound | pylyskom/cachedconnection.py:317-355 | against every honest server only texts that exist are returned |
| Unread.ExactForConference | pylyskom/cachedconnection.py:322-352 | for one conference and its sorted ranges: the query is exact against every honest server if and only if there is no gap, or no text lies behind the first gap, except that behind the only gap the text with the highest number ever used may lie, unread |
| Unread.ExactAgainstAllHonestServers | pylyskom/cachedconnection.py:322-352 | the query is exact against all honest servers of all conferences if and only if the ranges leave no gap |
| Unread.HonestIsNotEnough | pylyskom/cachedconnection.py:330-337 | a conference, a range and an honest server for which a text that is read is returned |
| Unread.GetUnreadTexts | pylyskom/cachedconnection.py:317-355 | the loops end against every honest server and compute UnreadTexts; the last filter removes nothing |
| Unread.PageGap | pylyskom/cachedconnection.py:323-337 | one gap in chunks of at most 255: what is appended, the flag that is left, also after no-such-local-text, and the requests that are sent |
| Unread.PageTail | pylyskom/cachedconnection.py:342-352 | the tail is paged until the server says that no later texts exist, by requests for 255 numbers each that go on where the answer before ended, and paging ends |
| Unread.WithoutZeros | pylyskom/cachedconnection.py:354-355 | computes Kept; with nothing to remove, everything stays |
| Unread.KeptCounts | pylyskom/cachedconnection.py:354-355 | every number other than 0 is kept as often as it was there, and no 0 |
| Unread.KeptInOrder | pylyskom/cachedconnection.py:354-355 | the order is kept |
| Unread.GapIsExact | pylyskom/cachedconnection.py:324-337 | against an exact server a gap yields exactly its texts, and when no more can be fetched none lie behind it |
| Unread.GapIsComplete | pylyskom/cachedconnection.py:324-337 | against an honest server every text of the gap is found, and all behind it when no more can be fetched |
| Unread.GapsAreExact | pylyskom/cachedconnection.py:321-337 | over all gaps: the unread texts in front of the last range, carrying the flag from gap to gap |
| Unread.GapsAreComplete | pylyskom/cachedconnection.py:321-337 | over all gaps: an unread text is found, or lies behind the last range while more can be fetched |
| Unread.TailIsExact | pylyskom/cachedconnection.py:342-352 | the tail yields exactly the texts from its start on, against every honest server |
| Unread.FaithfulLists | pylyskom/cachedconnection.py:333-333 | whatever a mapping omits or lists as 0, its non-zero entries are the texts of its block in order |
| Unread.MissedHold | pylyskom/cachedconnection.py:317-355 | a number is among those the query is to return exactly if it is the global number of a text in no range |
| Unread.TestServerIsExact | tests/test_cachedconnection.py:11-28 | the server that the tests use meets the exact contract |
| Unread.GapRequests | pylyskom/cachedconnection.py:324-332 | every request that PageGap sends asks for 1 to 255 numbers, whatever the server answers |
| Unread.RequestsFollow | pylyskom/cachedconnection.py:324-334 | for every gap and exact server: as many requests as chunks of 255 are needed, each but the last for 255 numbers, each starting behind what the one before asked for, or at the end of the conference, or at the same place if nothing was mapped |
| Unread.RequestsTile | pylyskom/cachedconnection.py:324-334 | when the gap ends within the conference and the exact server maps at every number of the conference, the requests for the gap follow each other without overlap and cover it |
| ReadRanges.ReadRangesToGapsAndLast | pylyskom/utils.py:171-188 | the loop computes Gaps and LastOf |
| ReadRanges.GapsPartition | pylyskom/utils.py:171-188 | for sorted ranges a number from 1 on is in a gap exactly if it is in front of last and in no range; from last on nothing is read |
| ReadRanges.GapsAreOrdered | pylyskom/utils.py:183-188 | gaps are non-empty, ascending, do not touch, and lie in front of last |
| Protocol.NatAndNextStable | pylyskom/protocol.py:20-34 | a number that was read is read the same, consuming the same, whatever bytes follow |
| Protocol.HStringStable | pylyskom/datatypes.py:73-79 | a string, or a format error, is read the same whatever bytes follow |
| Protocol.NatAndNextOfDecimal | pylyskom/protocol.py:27-34 | a printed number followed by a non-digit reads back and hands that byte over |
| Protocol.NatOfDecimal | pylyskom/protocol.py:36-39 | read_int swallows the byte behind the number |
| Protocol.HStringRoundTrip | pylyskom/protocol.py:51-55 | a Hollerith string reads back whatever follows, and nothing behind it is touched |
| Wire.ParseStable | pylyskom/datatypes.py:182-198 | by induction over all wire types: a parse that did not run out of bytes ends the same way on more bytes |
| Wire.ParseArrayStable | pylyskom/datatypes.py:182-198 | the same for lists, in all their outcomes |
| Wire.BitsFromStable | pylyskom/datatypes.py:244-257 | the same for the bit loop |
| Wire.ParseSuffix | pylyskom/datatypes.py:182-198 | a parser leaves a suffix of what it was given: nothing is skipped or read twice |
| Wire.ParseTyped | pylyskom/datatypes.py:182-198 | a parsed value has the type it was parsed at, for all wire types; a parsed misc-info is one whose kinds the client can send |
| MiscInfo.CookSendable | pylyskom/datatypes.py:555-575 | whatever list is accepted, the kinds of its recipients and comment-tos are those that may be sent |
| Wire.InducedIsLastEntry | pylyskom/datatypes.py:1095-1107 | the dictionary of a mapping holds exactly the listed keys, each with its last entry |
| Printer.RoundTrip | pylyskom/datatypes.py:200-205 | for every printable type, parsing a printed value followed by white space gives it back, lists in the star form as empty ones, and the exact leftover |
| Printer.ArrayRoundTrip | pylyskom/datatypes.py:182-205 | a printed list reads back whatever follows, and nothing behind it is touched |
| Printer.FieldsRoundTrip | pylyskom/datatypes.py:969-982 | fields joined by a space read back in order, whether or not each swallows the space |
| Printer.BitStringRoundTrip | pylyskom/datatypes.py:244-261 | a bit string reads back and swallows the byte behind it |
| Printer.ElemsRoundTrip | pylyskom/datatypes.py:192-203 | list elements read back up to the space in front of the closing brace |
| Printer.PlainRoundTrip | pylyskom/datatypes.py:200-205 | without misc-infos inside, parsing is the exact inverse of printing |
| Printer.ParseSkipsSpace | pylyskom/protocol.py:20-25 | a value is read the same with a space in front of it |
| Printer.TypedIsWritable | pylyskom/datatypes.py:577-585 | every value of a wire type, in particular every parsed one, can be printed again |
| Printer.AsSentTyped | pylyskom/datatypes.py:200-205 | what comes back of a printed value has the type it is read at |
| Printer.StarRoundTrip | pylyskom/datatypes.py:187-188 | a list in the star form, whatever length it names, is read as the empty list, and nothing behind it is touched |
| Printer.MiscRoundTrip | pylyskom/datatypes.py:555-585 | printing and parsing a cooked misc-info keeps kinds and numbers of recipients and comment-tos in order and drops exactly the rest |
| Spelling.NumberBytes | pylyskom/datatypes.py:99-100 | a number is its digits, the most significant first, 48 standing for 0 |
| Spelling.StringBytes | pylyskom/protocol.py:51-55 | a string is its length, an H and its bytes |
| Spelling.BitBytes | pylyskom/datatypes.py:259-261 | a bit string is one byte for each bit, 49 if it is set |
| Spelling.ListBytes | pylyskom/datatypes.py:200-205 | a list is its length and its elements in braces, with one blank around the braces and between the elements |
| Spelling.ShortListBytes | pylyskom/datatypes.py:200-205 | the empty list and the list of one element |
| Spelling.StarBytes | pylyskom/datatypes.py:187-188 | a list in the star form is its length, a blank and a star |
| Spelling.RecordBytes | pylyskom/datatypes.py:676-681 | the fields of a record are separated by one blank |
| Spelling.MiscBytes | pylyskom/datatypes.py:577-585 | a misc-info is the number of tuples, the comment-tos and then the recipients, each with a blank behind, in braces |
| Spelling.LineBytes | pylyskom/requests.py:241-246 | a request line is reference number, call number and arguments with one blank between them, and a newline |
| Spelling.TimeFields | pylyskom/datatypes.py:328-340 | a time has nine numbers |
| Spelling.RawItemFields | pylyskom/datatypes.py:433-442 | behind the kinds 7 and 9 comes a time, behind all others a number |
| Spelling.MembershipFields | pylyskom/datatypes.py:1021-1032 | the eight fields of a membership |
| Spelling.PairFields | pylyskom/datatypes.py:959-982 | a read range, like a pair of text numbers, is two numbers |
| Spelling.AuxItemFields | pylyskom/datatypes.py:628-638 | the seven fields of an aux-item |
| Spelling.AuxItemInputFields | pylyskom/datatypes.py:676-681 | the four fields that are sent of an aux-item |
| Spelling.TextStatParts | pylyskom/datatypes.py:728-741 | the seven fields of a Text-Stat |
| Malformed.SpacesAre | pylyskom/protocol.py:20-25 | white space is blank, tab, carriage return and newline |
| Malformed.NoDigitsIsZero | pylyskom/protocol.py:27-39 | a number without a digit is 0, and the byte in its place is swallowed |
| Malformed.NumberWaits | tests/test_protocol.py:42-46 | a number is not complete before the byte behind it |
| Malformed.StringRefused | pylyskom/datatypes.py:73-79 | a length that is followed by anything but an H is refused |
| Malformed.StringWaits | pylyskom/datatypes.py:73-79 | a string is not complete before its last byte |
| Malformed.BitsRefused | pylyskom/datatypes.py:249-256 | a bit string with anything but 0 and 1 is refused |
| Malformed.BitsWait | pylyskom/datatypes.py:249-256 | a bit string is not complete before the byte behind it |
| Malformed.ListRefused | pylyskom/datatypes.py:186-191 | a list without star and opening brace is refused |
| Malformed.ListUnclosed | pylyskom/datatypes.py:195-198 | behind its elements, a list is accepted with a closing brace and refused with anything else |
| Malformed.MappingRefused | pylyskom/datatypes.py:1091-1109 | a mapping that is neither sparse nor dense is refused |
| Printer.CookStripped | pylyskom/datatypes.py:577-585 | the tuples that are sent cook to the misc-info without comments-in and server fields |
| ServerForm.ServerRoundTrip | pylyskom/datatypes.py:182-198 | whatever the server writes for a type, lists in the star form at any depth, misc-infos and mappings included, is read as what the client makes of it, with the exact leftover, or rejected because a conversion rejects it |
| ServerForm.ParseReceives | pylyskom/datatypes.py:555-558 | for every type, parsing is parsing what is on the wire and then converting it, also when the conversion rejects |
| ServerForm.RawMiscIsCooked | pylyskom/datatypes.py:555-575 | every raw misc-info that a server sends, also an empty one in the star form, is read as its segmentation, or rejected exactly when that is |
| MiscInfo.CookLoop | pylyskom/datatypes.py:555-575 | the loop terminates and computes Cook |
| MiscInfo.DecodeRecipient | pylyskom/datatypes.py:467-480 | takes exactly the items of kinds 6 to 9; the local number, the time received, the sender and the time sent are each the last of its own kind |
| MiscInfo.DecodeCommentTo | pylyskom/datatypes.py:503-512 | takes exactly the items of kinds 8 and 9; the sender and the time sent are each the last of its own kind |
| MiscInfo.CookAccepts | pylyskom/datatypes.py:555-575 | a raw list is rejected exactly when some item has no owner that may hold it |
| MiscInfo.CookProjects | pylyskom/datatypes.py:555-575 | an accepted list cooks to the in-order projection of its heads, each with the items up to the next head |
| MiscInfo.CookRecipient | pylyskom/datatypes.py:458-480 | a recipient at the head of a list is cooked with each field the last item of its kind in its own segment, and what follows is cooked as if it stood alone |
| MiscInfo.CookCommentTo | pylyskom/datatypes.py:493-512 | the same for a comment-to |
| MiscInfo.CookCommentIn | pylyskom/datatypes.py:569-572 | a comment-in has the kind of the comment-to it mirrors and holds nothing |
| MiscInfo.CookRejects | pylyskom/datatypes.py:573-574 | an item that is no head and that the head in front of it may not hold makes the whole list rejected |
| MiscInfo.KindsAre | pylyskom/datatypes.py:27-37 | which kinds are recipients, comment-tos and comments-in, and which items each may hold |
| MiscInfo.LastIsLatest | pylyskom/datatypes.py:467-480 | an optional field is set exactly if an item of its kind occurs, to the last one |
| Catalog.MembershipRoundTrip | pylyskom/datatypes.py:1021-1032 | a membership as the server writes it, its read ranges in the star form or not, reads back whole, and its flags swallow the byte behind it |
| Catalog.TextStatRoundTrip | pylyskom/datatypes.py:729-741 | a Text-Stat as the server writes it, its lists in the star form or not, is read with its misc-info cooked, or rejected exactly when that is |
| Catalog.CreateTextDecodes | pylyskom/requests.py:637-641 | a create-text line decodes to its text, recipients, comment links and aux-items |
| Catalog.LocalToGlobalDecodes | pylyskom/requests.py:750-754 | a local-to-global line decodes to conference, first local number and count |
| Catalog.MappingParses | pylyskom/datatypes.py:1080-1110 | a mapping as the server writes it, its block in the star form or not, parses to the pairs the block lists and the dictionary they induce |
| Catalog.BothFormsParseAlike | pylyskom/datatypes.py:1091-1107 | the sparse and the dense form of one block parse to the same list and dictionary |
| Requests.RequestDecodes | pylyskom/requests.py:243-246 | a request line decodes to reference number, call number and arguments in order, up to the newline |
| Requests.RequestLinesAreUnique | pylyskom/connection.py:136-143 | request lines that open the same stream are the same request |
| Requests.RawRequestIsRequest | pylyskom/aio.py:185-191 | a request given as its bytes goes out as the same line, under the same call number |
| Requests.BuildArgs | pylyskom/requests.py:185-239 | each argument comes by position, by name or by default, converted by its data type and serialized; the exception is that of the first argument that raises one, a name that is already an attribute included |
| Requests.ArgumentGets | pylyskom/requests.py:207-221 | the value by position, else by name, else by default |
| Requests.ConflictsAre | pylyskom/requests.py:207-235 | what is wrong with an argument, and which of the exceptions is raised when several things are |
| Requests.BuiltRequestBytes | pylyskom/requests.py:241-246 | joining what was serialized gives the bytes of the request |
| Buffers.ReceiveBuffer.EnsureReceiveBufferSize | pylyskom/connection.py:58-72 | pulls until enough bytes are there or the stream ends; what is still to be read does not change |
| Buffers.ReceiveBuffer.ReceiveString | pylyskom/connection.py:39-46 | takes exactly the next bytes of buffer and socket together, or nothing |
| Buffers.ReceiveBuffer.ReceiveChar | pylyskom/connection.py:48-56 | the same for one byte |
| Buffers.AioReceiveBuffer.Copy | pylyskom/aio.py:82-87 | a fresh buffer with the same unread bytes |
| Buffers.AioReceiveBuffer.Append | pylyskom/aio.py:95-98 | new bytes go behind the unread ones |
| Buffers.AioReceiveBuffer.ReceiveString | pylyskom/aio.py:100-109 | takes exactly the next bytes, or leaves the buffer alone |
| Reader.ReadFirstNonWs | pylyskom/protocol.py:20-25 | against either buffer, the loop agrees with the pure parser |
| Reader.ReadDigits | pylyskom/protocol.py:30-34 | against either buffer, the digit loop agrees with the pure parser |
| Reader.ReadIntAndNext | pylyskom/protocol.py:27-34 | against either buffer, agrees with the pure parser |
| Reader.ReadInt | pylyskom/protocol.py:36-39 | against either buffer, agrees with the pure parser |
| Reader.ReadString | pylyskom/datatypes.py:73-79 | against either buffer, agrees with the pure parser |
| Reader.ReadBits | pylyskom/datatypes.py:249-256 | against either buffer, the bit loop agrees with the pure parser |
| Reader.ReadArray | pylyskom/datatypes.py:182-198 | against either buffer, agrees with the pure parser, also for the star form and missing braces |
| Reader.ReadElems | pylyskom/datatypes.py:192-194 | against either buffer, the element loop agrees with the pure parser |
| Reader.ReadValue | pylyskom/datatypes.py:182-198 | for every wire type and either buffer, the parse method has the outcome and the leftover of the pure parser |
| Reader.ReadArms | pylyskom/datatypes.py:1091-1109 | the branch on a number that was read agrees with the pure parser, also when no branch fits |
| Reader.FillMapping | pylyskom/datatypes.py:1088-1107 | both loops fill list and dict consistently |
| Responses.ParseResponseStable | pylyskom/aio.py:236-289 | a response or local error that the bytes determine is not changed by later bytes |
| Responses.ParseResponseSuffix | pylyskom/aio.py:236-289 | no byte of the stream is skipped or read twice |
| Responses.ResponseAnswers | pylyskom/connection.py:145-186 | a response answers one outstanding request, at the reply type of its call, and removes exactly that one |
| Responses.RunResumes | pylyskom/aio.py:205-234 | a run that ran out of bytes goes on from where it stood; one that failed stays failed |
| Responses.RunGrows | pylyskom/aio.py:180-192 | requests that no response of a run names wait in the table while it runs, and change nothing else |
| Responses.InterleavingIndependence | pylyskom/aio.py:205-234 | however the stream is sliced and whenever requests are sent in between: as the stream read at once with all requests sent before, if and only if no response names a request before it is sent |
| Responses.ChunkingIndependence | pylyskom/aio.py:205-234 | when no request is sent in between, slicing makes no difference: same responses, first error, outstanding requests and unread bytes |
| Responses.RunLeavesSuffix | pylyskom/aio.py:205-234 | over a whole run no byte is lost or read twice |
| Responses.RunAnswersOnce | pylyskom/aio.py:258-279 | over a whole run every outstanding request is answered at most once, and the others stay |
| Responses.ReplyRoundTrip | pylyskom/aio.py:258-267 | a reply line, empty replies and lists in the star form included, reads back at the type of the call it answers, with its payload and the exact leftover, or is rejected by a conversion |
| Responses.RawReplyIsExact | pylyskom/aio.py:255-256 | for every reply that is read, lists in the star form included: a raw reply is the text of the reply if and only if it is empty or its last value swallows the newline |
| ServerLines.ErrorReplyRead | pylyskom/connection.py:170-178 | for every error line: request, error and status in this order, the payload, the table and the leftover; refused if no such request is outstanding or no such error exists |
| ServerLines.ErrorReplyIsExact | pylyskom/aio.py:255-279 | a raw error reply is exactly its text |
| ServerLines.ReplyHandedOn | pylyskom/aio.py:255-267 | the value and the raw bytes of a reply as they are handed on: its text, or without its last byte where that was a real one |
| ServerLines.HandedOnPlain | pylyskom/connection.py:145-186 | the blocking connection hands on number, value, error and status as they were read |
| ServerLines.MessageRead | pylyskom/connection.py:180-186 | for every message line: the second number is that of the message, the first is ignored, and no request is touched |
| ServerLines.EmptyMessageRead | pylyskom/connection.py:180-186 | the same for messages without arguments |
| ServerLines.MessageRefused | pylyskom/connection.py:180-184 | an unknown message is refused by its number |
| ServerLines.ReplyRefused | pylyskom/connection.py:161-166 | a reply is refused if no such request is outstanding or its call has no reply type |
| ServerLines.OtherLineRefused | pylyskom/connection.py:145-159 | any other first byte is refused |
| Connections.Connection.SendString | pylyskom/connection.py:130-134 | all bytes are sent, once and in order, whatever send accepts at a time |
| Connections.Connection.SendRequest | pylyskom/connection.py:136-143 | the request goes out under the next, unused number and is outstanding |
| Connections.Connection.ReadResponse | pylyskom/connection.py:145-159 | response, outstanding requests and leftover are those of the pure parser on the whole stream |
| Connections.Connection.ParseOk | pylyskom/connection.py:161-168 | a reply, as the pure parser reads it; after an error the table is unchanged |
| Connections.Connection.ParseError | pylyskom/connection.py:170-178 | an error reply, as the pure parser reads it |
| Connections.Connection.ParseMsg | pylyskom/connection.py:180-186 | an asynchronous message, as the pure parser reads it |
| Connections.ReadAll | pylyskom/connection.py:106-109 | while requests are sent between the reads: reading until an exception gives exactly the responses of the whole stream, in order, and the first error, as if all those requests had been sent before |
| Connections.BothReadAlike | pylyskom/aio.py:236-256 | when both have sent the same requests by the time their readers end, each at its own moments, both connections read the same numbers, replies and errors, however the bytes are sliced, unless a request overtakes on the asyncio side |
| Connections.AioConnection.SendRequest | pylyskom/aio.py:180-195 | the request goes out under the next number, which is registered with its call number |
| Connections.AioConnection.SendRaw | pylyskom/aio.py:182-195 | the same for a request given as bytes; when its call number is no number, only the reference number is used up |
| Connections.AioConnection.ParseOk | pylyskom/aio.py:258-267 | a reply with its raw bytes, as the pure parser reads it |
| Connections.AioConnection.ParseError | pylyskom/aio.py:269-279 | an error reply with its raw bytes, as the pure parser reads it |
| Connections.AioConnection.ParseMsg | pylyskom/aio.py:281-289 | a message with its raw bytes, as the pure parser reads it |
| Connections.AioConnection.ParseBuffered | pylyskom/aio.py:236-256 | one attempt on the bytes at hand has the outcome of the pure parser on them |
| Connections.AioConnection.TryParseResponse | pylyskom/aio.py:220-234 | when bytes run out, buffer and outstanding requests are as before |
| Connections.AioConnection.ReadResponse | pylyskom/aio.py:205-218 | while other tasks send requests, and however the stream is sliced, the outcome is that of the pure parser on the whole of it with the requests sent by then; at its end no byte is lost |
| Connections.AioConnection.RunResponseReceiver | pylyskom/aio.py:384-394 | from any table, also the empty one, while other tasks send requests: hands on exactly the responses that Serve yields, which are those of the whole stream unless one is overtaken |
| Connections.AioConnection.SendOthers | pylyskom/aio.py:213-213 | requests that are sent while the receiver waits are registered, and nothing can be parsed that could not be before |
| SyncClient.Client.Request | pylyskom/cachedconnection.py:32-40 | the request is sent; what is returned or raised was read for it and its call, under any nesting; no other request is robbed of its reply; and what was written and read meanwhile is exactly the tree of calls in which every message ran its handler to its end |
| SyncClient.Client.WaitAndDequeue | pylyskom/cachedconnection.py:52-72 | reads until its own reply was read, by itself or inside a handler, or a turn failed, and not further; ends with that reply or failure; terminates |
| SyncClient.Client.Dequeue | pylyskom/cachedconnection.py:61-72 | the reply leaves its queue; the final else is unreachable |
| SyncClient.Client.ReadResponse | pylyskom/cachedconnection.py:74-85 | one response is queued under its number, or its message handed to the handler, whose exception is passed on, or the error of the connection is |
| SyncClient.Client.HandleAsyncMessage | pylyskom/cachedconnection.py:87-89 | the handler gets the message and runs to its end: the requests it asks for, each knowing how those before ended, are sent and answered in order, nothing else is written or read, and it then finishes or its exception is raised; also after the end of the stream |
| SyncClient.Client.ReadAndQueue | pylyskom/cachedconnection.py:74-85 | a reply or error is queued under its number, as the pure parser reads it; an error of the connection changes nothing |
| Traffic.SentIsWritten | pylyskom/connection.py:130-143 | over a whole call, what was sent is exactly the lines of the requests in it, in order, under consecutive numbers |
| Traffic.HeardIsRun | pylyskom/cachedconnection.py:52-89 | over a whole call, handlers and their requests included, what was read is what the stream holds, in order, as if all requests had been sent before |
| Traffic.AnswerIsRead | pylyskom/cachedconnection.py:61-85 | an answer is the value of a reply, or number and status of an error reply, read under that number |
| Traffic.MessageCallsHandler | pylyskom/cachedconnection.py:76-79 | when a message comes first, an exception of its handler ends the request, a request of it goes out next, and when it finishes the waiting request reads on |
| Routing.SentKeeps | pylyskom/connection.py:136-143 | a request gets a number never used before, and nobody else is affected |
| Routing.ResponseKeeps | pylyskom/cachedconnection.py:74-85 | a reply moves exactly its request from outstanding to one queue; the queues stay disjoint |
| Routing.ReadingKeeps | pylyskom/cachedconnection.py:74-85 | whatever is read from the connection keeps the invariant |
| Routing.TookKeeps | pylyskom/cachedconnection.py:61-70 | taking a reply yields what was read under that number and touches no other |
| Routing.SentThenMine | pylyskom/cachedconnection.py:32-40 | a nested request takes nothing from those that wait around it |
| AioRouting.StepKeeps | pylyskom/aio.py:359-405 | every step of every task keeps every number in exactly one place, with the reply of its own call |
| AioRouting.EveryInterleaving | pylyskom/aio.py:359-405 | the invariant holds after every interleaving of the tasks |
| AioRouting.RepliesReachTheirCallers | pylyskom/aio.py:359-382 | what a request returns was read for its number and call, is final, and is returned once |
| AioRouting.MessagesInOrder | pylyskom/aio.py:396-400 | in every interleaving the message queue holds exactly the messages that were received, in order |
| AioRouting.MessageHasPlace | pylyskom/aio.py:396-400 | each message that is received has its place behind those received before |
| AioRouting.ReceivedIsKept | pylyskom/aio.py:401-405 | a reply that is received stays as it was received, raw bytes included, and is either queued or returned |
| AioRouting.KeptWasReceived | pylyskom/aio.py:371-382 | what is queued or returned for a number was received for it |
| AioRouting.FreshNumbers | pylyskom/aio.py:182-184 | numbers are never reused: the assertions when sending and registering hold |
| AioRouting.SetEventHasReply | pylyskom/aio.py:371-373 | a set event means that the reply is queued: the assertion in _handle_reply holds |
| AioRouting.ReceiverAssertion | pylyskom/aio.py:404-405 | the receiver finds an event for a reply if and only if its request is not between sending and registering |
| AioRouting.StrandedIffOvertaken | pylyskom/aio.py:396-405 | in every interleaving the assertion of the receiver never fails if and only if no reply is read between the sending and the registering of its own request |
| AioRouting.NobodyStranded | pylyskom/aio.py:403-405 | then every reply that was read has set the event of its request |
| AioRouting.AtomicSendsStrandNobody | pylyskom/aio.py:360-364 | when every request is registered in the step right after it is sent, none is overtaken |
| AioRouting.OvertakenRequestNeverReturns | pylyskom/aio.py:361-369 | a request whose reply overtook its registration never returns |
| AioRouting.OvertakingIsPossible | pylyskom/aio.py:194-195 | the shortest run in which that happens |
| AioTasks.ParsedStep | pylyskom/aio.py:384-405 | what the connection reads is a step of the machine |
| AioTasks.AioClient.BeginRequest | pylyskom/aio.py:359-361 | sending under the lock is the step Begin |
| AioTasks.AioClient.BeginRaw | pylyskom/aio.py:180-195 | sending raw bytes is the step Begin of the call they name, or, when they name none, the step Skip that sends nothing and uses up a number |
| AioTasks.AioClient.RegisterRequest | pylyskom/aio.py:362-364 | registering the event is the step Register |
| AioTasks.AioClient.TryReceive | pylyskom/aio.py:387-393 | from being resumed to waiting again: one attempt to parse, a no-op when bytes run out, else the step Receive or the end of the receiver |
| AioTasks.AioClient.ReceiveBytes | pylyskom/aio.py:213-217 | bytes that arrived are appended and nothing else changes; at the end of the stream the receiver ends |
| AioTasks.AioClient.ReceiveResponse | pylyskom/aio.py:396-405 | queues a message behind the others, or a reply under its number, with or without an event |
| AioTasks.AioClient.FinishRequest | pylyskom/aio.py:366-382 | a woken task is the step Wake: it returns or raises what was read under its number |
| CacheCoherence.HandlersKeepCoherence | pylyskom/cachedconnection.py:194-237 | what a message announces, its handlers invalidate: no entry disagrees with the records as of that message |
| CacheCoherence.ForgetsExactly | pylyskom/cachedconnection.py:194-237 | a message forgets exactly the entries its handlers name and leaves all others as they are |
| CacheCoherence.PerformedIsLegal | pylyskom/cachedconnection.py:194-237 | for each message, the change on the server that it tells of is one the caches allow for |
| CacheCoherence.RunsAreCoherentUpTo | pylyskom/cachedconnection.py:194-237 | over every run, deletions included, every named field in the caches agrees with the server, except for the comment lists of texts that lost a comment since they were fetched; recipients and marks of these agree as well |
| CacheCoherence.RunsAreCoherent | pylyskom/cachedconnection.py:194-237 | without such deletions, over every run the caches agree with the server as of the last message read |
| CacheCoherence.DeletedStaysCached | pylyskom/cachedconnection.py:204-208 | a deleted text stays cached as it was exactly until another message or a mark makes it forgotten |
| CacheCoherence.EffectKeepsTheRest | pylyskom/cachedconnection.py:357-365 | a mark makes stale only the text that is about to be forgotten |
| CacheCoherence.DeletionIsCoherent | pylyskom/cachedconnection.py:204-208 | with the comment lists a deletion shortens, coherence holds if and only if no commented text is cached |
| CachingClients.WaitingIsCoherent | pylyskom/cachedconnection.py:147-156 | while a request waits, deletions included, the caches follow the server up to shortened comment lists and what the request itself changes |
| CachingClients.FetchedIsCoherent | pylyskom/cachedconnection.py:543-556 | an entry filled after messages were handled agrees with the records as of the reply, its comment list included |
| CachingClients.Cache.Invalidate | pylyskom/cachedconnection.py:562-565 | removes that entry and no other |
| CachingClients.Cache.InvalidateEach | pylyskom/cachedconnection.py:207-208 | removes exactly the listed entries |
| CachingClients.CachingClient.HandleAsyncMessage | pylyskom/cachedconnection.py:153-156 | dispatches to the handlers, which change the caches as Handle says |
| CachingClients.CachingClient.Request | pylyskom/cachedconnection.py:147-148 | handles the messages up to the reply, in order, and nothing else |
| Streams.NextReply | pylyskom/cachedconnection.py:147-156 | the next reply behind any notices decides, and what comes behind it is left |
| Streams.NoReply | pylyskom/cachedconnection.py:147-156 | without a reply nothing is granted and all notices were read |
| CachingClients.CachingClient.GetUConference | pylyskom/cachedconnection.py:543-556 | under any messages, deletions included: a hit is the cached entry without a request; a miss is the record of the server, all of it, and kept; both agree with the server |
| CachingClients.CachingClient.GetConference | pylyskom/cachedconnection.py:543-556 | the same for conferences |
| CachingClients.CachingClient.GetTextStat | pylyskom/cachedconnection.py:543-556 | the same for texts: a miss is the whole record; recipients and marks always agree, and the comment list unless the text was cached and lost a comment since; a text that is deleted is answered only if it was cached |
| CachingClients.CachingClient.MarkText | pylyskom/cachedconnection.py:357-365 | under any messages, a marked text is forgotten, and only if the request succeeded |
| MembershipCoherence.HandlersKeepCoherence | pylyskom/cachedconnection.py:514-526 | leaving and joining forget every position that may have moved |
| MembershipCoherence.ForgetsExactly | pylyskom/cachedconnection.py:514-526 | leaving forgets that membership and all positions, joining all positions, and nothing else is forgotten |
| MembershipCoherence.ChangingStalesThePrevious | pylyskom/cachedconnection.py:416-426 | changing conference makes stale only the membership of the previous one |
| MembershipCoherence.OnePositionIsEnough | pylyskom/cachedconnection.py:455-466 | stopping at the first position found leaves no entry for the conference |
| MembershipCoherence.HitsAreSlices | pylyskom/cachedconnection.py:440-449 | a hit is the slice the server would return |
| MembershipCoherence.HitIsMembership | pylyskom/cachedconnection.py:496-499 | what is cached for a conference is its membership on the server if and only if the conference still is at that position |
| MembershipCoherence.JoiningMoves | pylyskom/cachedconnection.py:521-526 | joining a conference in front leaves an old position in the cache by conference |
| MembershipCoherence.FirstIsIgnored | pylyskom/cachedconnection.py:471-488 | asking from position 0 gives the slice asked for if and only if first is 0, nothing is asked for, or there is nothing |
| MembershipCoherence.NobodyIsCached | pylyskom/cachedconnection.py:403-408 | while nobody is logged in the caches are empty |
| MembershipCoherence.LoginNeedsEmptyCaches | pylyskom/cachedconnection.py:397-401 | a login keeps the caches coherent for every person and list if and only if they are empty |
| PersonClients.WaitingIsCoherent | pylyskom/cachedconnection.py:513-526 | while a request waits the membership caches follow the server, up to what the request itself changes |
| PersonClients.PlacedIsCoherent | pylyskom/cachedconnection.py:451-453 | fetched memberships are cached where they are, all of them |
| PersonClients.PlacedExactly | pylyskom/cachedconnection.py:451-453 | what was fetched last for a position is cached there, and other positions stay as they are |
| PersonClients.PersonClient.HandleAsyncMessage | pylyskom/cachedconnection.py:514-526 | the two handlers |
| PersonClients.PersonClient.Request | pylyskom/cachedconnection.py:147-148 | handles the messages up to the reply, in order, and nothing else |
| PersonClients.PersonClient.Login | pylyskom/cachedconnection.py:397-401 | coherent when nobody was logged in |
| PersonClients.PersonClient.Logout | pylyskom/cachedconnection.py:403-408 | empties both caches, and only if the request succeeded |
| PersonClients.PersonClient.ChangeConference | pylyskom/cachedconnection.py:416-426 | forgets exactly the membership of the previous conference |
| PersonClients.PersonClient.InvalidateMembership | pylyskom/cachedconnection.py:455-466 | removes exactly the entries of the conference, and leaves the others as they are |
| PersonClients.PersonClient.GetCached | pylyskom/cachedconnection.py:440-449 | all the memberships asked for, in order, exactly if all are cached |
| PersonClients.PersonClient.UpdateCached | pylyskom/cachedconnection.py:451-453 | each membership is cached at the position it carries |
| PersonClients.PersonClient.GetMemberships | pylyskom/cachedconnection.py:468-488 | cached or not, the slice asked for; on the other two paths, the slice from 0; for another person, of the list the server has when it replies |
| PersonClients.PersonClient.GetMembership | pylyskom/cachedconnection.py:490-511 | cached or not, when the conference was last read, and all of the membership exactly if the conference still is where it says; with read ranges or for another person the server is asked and nothing is cached |
| UserArea.UserAreaRoundTrip | pylyskom/utils.py:86-125 | decoding what was encoded gives the blocks back if and only if none has the empty name |
| UserArea.DecodesToKept | pylyskom/utils.py:93-111 | in any case the blocks in front of the first empty name come back |
| UserArea.UpdateChangesOneBlock | pylyskom/utils.py:86-125 | decode, update, encode, decode changes the updated block and no other |
| UserArea.HangsOnlyOnSpace | pylyskom/utils.py:61-65 | the outcome is that of a parser which does not stop exactly on non-empty white space |
| UserArea.HangsForEver | pylyskom/utils.py:61-65 | that outcome means that after any number of rounds the loop, to which the empty slice behind the input is white space, is still skipping |
| UserArea.AgreesWithWire | pylyskom/utils.py:54-79 | it reads the same string as the wire parser where that reads one |
| UserArea.ContentIsClipped | pylyskom/utils.py:75-79 | behind length and H, a string is what there is, up to that length |
| UserArea.OthersRaise | pylyskom/utils.py:67-75 | a length that is followed by anything but an H raises an exception; the empty input holds nothing |
| UserArea.DigitsAloneRaise | pylyskom/utils.py:67-75 | digits alone raise an exception |
| UserArea.MissingBlocks | pylyskom/utils.py:103-111 | the blocks go to the names in order, and a name without a block has none |
| UserArea.AreaBytes | pylyskom/utils.py:114-125 | the bytes of an area with one block |
| UserArea.LessMeans | pylyskom/utils.py:121-121 | the order of names: the first byte in which they differ decides, and a beginning comes first |
| UserArea.ParseHollerithString | pylyskom/utils.py:54-79 | the index loops compute ParseHollerith |
| UserArea.CountAndTake | pylyskom/utils.py:67-79 | digits, the H, and the content, cut short at the end of the input |
| UserArea.DecodeUserArea | pylyskom/utils.py:86-111 | the loops compute Decode, also for malformed areas |
| UserArea.ParseBlockNames | pylyskom/utils.py:93-100 | names up to the end of the input or an empty name |
| UserArea.EncodeUserArea | pylyskom/utils.py:114-125 | sorts the names and computes Encode |
| UserArea.SortedKeys | pylyskom/utils.py:121-121 | lists the names, each once, in ascending order |
| UserArea.AscendingIsUnique | pylyskom/utils.py:121-121 | there is only one such list |
| UserArea.EncodesAgain | pylyskom/utils.py:86-125 | encoding what was decoded gives the same bytes again |

## Left out

- Requests.BuildArgs: the data types, and the attributes that a request has before its arguments, are parameters.
- Catalog.MembershipRoundTrip: `Membership11` has no `to_string`; the membership is printed as a server writes it.
- PersonClients.PersonClient.GetMembership: the `position` inside a cached membership may be out of date, as `MembershipCoherence.HitIsMembership` says exactly.
- PersonClients.PersonClient.Login: a second login is stated only through `MembershipCoherence.LoginNeedsEmptyCaches`.
- CachingClients.CachingClient.GetTextStat: the comment list of a cached text that lost a comment since is not promised; the source keeps the old one (`CacheCoherence.DeletionIsCoherent`).
- Connections.AioConnection.SendRaw: Python's `int` is a parameter.
- `MIRecipient.__eq__` and `MICommentTo.__eq__`, which compare fields that do not exist.
- Sockets, real scheduling, locks, cancellation and time-outs; the opening handshake and `close`.
- Records name their fields by position, and the parse methods of the response classes are instances of one record reader.
- Floats (`read_float`, `Stats`), the conversion of `Time` to and from Unix time, text codecs, statistics and logging.
- Subclass checks of `to_string` (element classes, bit values): the types of the model rule such values out.
- Negative integers, which do not read back.
- The `persons` cache, which nothing invalidates, name lookup, and `case_insensitive_regexp`.
- The caches of the asyncio client, which tasks fill in any order.
- `komsession.py`, `mimeparse.py` and the remaining request and response classes, which add instances and no new behaviour.
- A server whose answers change while one unread query is running.
