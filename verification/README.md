# ksmux: a model of its wire codecs, route tree, ring writer, bus and balancer

A Dafny model of five parts of the Go package ksmux, with proofs of what they
keep. `dafny verify dfyconfig.toml` checks all of it. Bytes, machine integers,
decimals, runes and optional values are in `Bytes`, `Decimals`, `Utf8`, `Options` and
`Sequences`.

- **WebSocket message stream** (`Masking`, `Frames`, `MessageWriting`,
  `ConnWriter`, `Conversation`, `TwoWriters`, `MessageReading`, `ConnReader`, `FrameDecoding`,
  `MessageStream`, `EndToEnd`, `CutInput`, `ReaderSafety`, `AcceptedInput`, `FrameLayout`,
  `TruncWriter`, `HeaderTokens`, `HeaderLists`, `HeaderRoundTrip`). The writer is a
  class over `writeBuf`, with the header built backwards; the reader is a class over
  the read fields of a `Conn`, proved equal to functions of the state and of the bytes
  to come. The network is a byte sequence, a socket may fail at any point, mask keys are
  arbitrary. The main results: what an endpoint of either role writes, its peer reads back, in any
  chunking on both sides, with control frames in between and behind a message left
  half read (`SendMessage`, `WriterToReader`, `SentIsRead`); a message that is cut off
  anywhere never looks complete (`CutIsError`); and the reader accepts exactly the
  fragmentation grammar, on encoded frames (`AcceptsGrammar`) and on any bytes
  (`AcceptedAreFrames`).
- **Route tree** (`Paths`, `Routes`, `TrieShape`, `TrieSteps`, `Trie`, `RouteLaws`,
  `RouteOrder`, `RouteCaptures`, `RouteReached`, `RouteOwnPath`). Nodes linked by mutable
  child lists are proved to represent a plain list of registrations, in which look-up is
  a greedy filter. There is no backtracking, so a route that fits a request may be missed: the
  exact condition is proved (`ReachedExactly`); a literal path is always found under its
  own name (`OwnPathFound`).
- **Ring writer** (`RingArithmetic`, `Ring`, `RingSteps`, `RingProof`, `RingRaces`,
  `RingSkips`). A class for one call at a time, and a machine in which every load,
  store and swap is a step. The ring is a queue when sends do not overlap. The
  stated promise, several producers, does not hold of the code: the exact
  condition is proved (`FifoExactly`), with two different failing runs.
- **Bus** (`BusView`, `BusIndex`, `BusSteps`, `BusRaces`, `Acks`, `AckProof`, `AckLaws`,
  `AckComplete`, `AckQueue`, `AckTable`). The two WebSocket indices as maps of objects, each
  operation one atomic step made of the sections the code runs under one lock; and
  again as a machine of these sections, in which a subscription can get lost
  (`SubscribedUnlessDropped`). The acknowledgment protocol as such a machine, and its
  requests as objects.
- **JSON printer and load balancer** (`JsonText`, `JsonPrinter`,
  `JsonParser`, `JsonRoundTrip`, `JsonSqueeze`, `JsonShortest`, `JsonMessages`,
  `JsonHeaders`, `JsonMessageBack`, `JsonMessageExact`, `JsonUtf8`, `Balancer`,
  `BalancerObjects`). The printer
  is checked against a parser written from the grammar of RFC 8259; the balancer
  against cyclic order.

Where the code differs from what it says it does, the model follows the code:

- `messageRing` is called multi-producer; overlapping sends can overfill it and
  reorder messages (ksps/batch.go:42-43, 113-151, 248-260).
- The ring size is truncated to 32 bits, so a request above 2^32 gives a smaller ring.
- `handleAck` counts clients that were never listed, and an internal subscriber
  shares its entry with a WebSocket client of the same name: the counter tells
  completion exactly if neither happens (`ZeroTellsExactly`).
- Header strings and map keys of a bus message are written unescaped: exactly the
  messages that need no escape are read back (`MessageRecoveredExactly`).
- `NextReader` on a half-read message counts the skipped continuation frames in the
  length of the next one, so the limit trips early: exactly when (`MessageIsRead`,
  `UnfinishedIsSkipped`), and an input for every limit (`LimitTripsEarly`). The
  delivered bytes are bounded by the length, not equal to it.
- `endMessage` of a message writer clears the reader of its connection, so that a
  message being read there ends early (`WriterEndsReading`). The other results on
  reading are about reads with no writer ending between them; after one,
  `MessageIsRead` holds again from the next `NextReader` on.
- `NextWriter` is said to close the previous writer and does not: two open writers
  share one buffer, and the first message goes out as written exactly if the second
  puts the same bytes there (`FirstEnds`, `SecondEnds`; step by step `WriteBeside`,
  `CloseBeside`). The other results on writing are about one open writer at a time,
  with control frames beside it.
- The reader takes lengths in more bytes than section 5.2 of RFC 6455 allows, and
  close bodies of one byte, which section 5.5.1 forbids (`LongTaken`, `OneByteClose`;
  exactly these, `PermittedExactly`, `TakenIsPermitted`).
- `subscribeWebSocket` fetches the topic and enters the client under different locks;
  if the topic is dropped in between, the subscription is lost (`SubscriptionLost`).
- `equalASCIIFold` takes any two bytes that begin no rune for the same (`InvalidFolded`).
- `truncWriter.Write` returns less than it was given.
- The counter of the balancer is converted to a signed int, so from 2^63 on the
  index is negative unless it is 0, and the call panics (`PanicsExactly`).
- Registering "/" again without origins keeps the old origins.

A route handler, a message of the ring and a socket are known by a number.
Strings on byte level hold one byte per character.

## Model

| member | source | states |
|---|---|---|
| Masking.MaskByByte | ws/mask_safe.go:6-12 | The byte loop masks exactly the slice it is given, byte i with key byte (pos+i) mod 4, leaves the rest of the buffer alone, and returns the next position modulo 4 |
| Masking.MaskByWord | ws/mask.go:10-51 | For word size 4 or 8 and any address, the word-at-a-time form leaves the same buffer and returns the same position as the byte loop |
| Masking.MaskWords | ws/mask.go:30-41 | The loop over whole words, with the key rotated to the current position, masks its range as the byte loop would |
| Masking.WordXor | ws/mask.go:30-41 | One exclusive-or of two little-endian machine words is the exclusive-or of their bytes, one by one |
| Masking.MasksRangeIsMasked | ws/mask_safe.go:6-12 | The pointwise description of a masked slice is the recursive definition of a masked payload |
| Masking.MaskedPieces | ws/mask_safe.go:6-12 | Masking a payload in two pieces, carrying the position over, equals masking it whole |
| Masking.MaskedTwice | ws/mask.go:10-51 | Masking twice with one key and position restores every payload |
| Masking.MaskedModulo | ws/mask_safe.go:6-12 | Only the position modulo 4 matters |
| Frames.BuildFrame | ws/conn.go:285-316 | Whatever the buffer held before, its front becomes the one final frame of this role, type, key and payload, for every payload length; prepareFrame has the same statements a second time (503-536), and both are this one method here |
| Frames.PrepareFrame | ws/conn.go:492-539 | The new buffer is exactly the encoding of the final frame, which is also what WriteControl, whose body is another one, puts on the wire for the same key |
| Frames.SentBytes | ws/conn.go:257-316 | The encoding of a sent frame is header, key and masked body in the shortest length form, at all of 125/126 and 65535/65536 |
| FrameLayout.SentLayout | ws/conn.go:257-316 | Byte by byte, for every role, length, opcode and key: final bit and opcode, mask bit and shortest length, most significant byte first, the key, and the payload, of which a client inverts exactly the bits set in key byte i mod 4 |
| FrameLayout.Examples | ws/conn.go:257-316 | The examples of section 5.7 of RFC 6455, masked and not: the bytes printed there |
| Bytes.BigEndianRoundTrip | ws/conn.go:1141-1156 | An extended length field of a frame is read back as the length that was written, if it fits |
| ConnWriter.Conn.WriteMessageDirect | ws/conn.go:248-330 | With no sticky error, and whatever the pooled buffer holds, the socket gets exactly the encoded final frame, or a part of it on a failure; with one, nothing is written |
| ConnWriter.Conn.WriteControl | ws/conn.go:799-833 | Wrong opcode or more than 125 bytes: error, nothing written. Otherwise the encoded control frame, or on a socket failure a part of it; a sent close frame or a socket failure sets the sticky error, once |
| ConnWriter.Conn.SocketWrite | ws/conn.go:1373-1382 | The socket holds the encodings of all frames written, in order; after a failure those and a part of the one that failed |
| ConnWriter.Conn.StageFrame | ws/conn.go:883-934 | The header built backwards into writeBuf ends where the payload starts: the staged part is the encoding of the frame |
| ConnWriter.MessageWriter.constructor | ws/conn.go:845-857 | A new writer has sent nothing and buffered nothing |
| ConnWriter.MessageWriter.FlushFrame | ws/conn.go:883-954 | One more frame with the buffered bytes and the extra goes out behind all that was sent on the connection, whoever sent it, FIN only if final; after a socket failure a prefix of that frame is out; a control frame that is not final or is too long is refused with nothing written; extra bytes of a client are an error; a client masks the buffered bytes where they are |
| ConnWriter.MessageWriter.SendStaged | ws/conn.go:936-953 | The staged frame is sent, and the writer is behind it: closed if it was the last, else empty and at a continuation |
| ConnWriter.MessageWriter.NCopy | ws/conn.go:956-968 | Room for at least one byte, by sending the buffer if and only if it is full; what is new on the wire is new in the message |
| ConnWriter.MessageWriter.CopyIn | ws/conn.go:984-993 | The copying loop sends a frame exactly when the buffer is full and more is to come |
| ConnWriter.MessageWriter.Write | ws/conn.go:970-995 | A large write of a server is sent unbuffered behind what waits, any other is copied in; after an error nothing is written |
| ConnWriter.MessageWriter.WriteString | ws/conn.go:997-1013 | As Write, always copied in |
| ConnWriter.MessageWriter.ReadFrom | ws/conn.go:1015-1038 | Everything the source yields, in whatever chunks, goes through the buffer, which is sent as soon as it is full |
| ConnWriter.MessageWriter.Close | ws/conn.go:1040-1049 | The wire then holds the whole message, woven with whatever control frames were sent meanwhile: first frame with the type, continuations, FIN on the last only; every later call fails |
| MessageWriting.CallsKeep | ws/conn.go:970-1038 | No sequence of Write, WriteString and ReadFrom calls loses, repeats or reorders a byte |
| MessageWriting.WovenAppend | ws/conn.go:799-954 | A data frame goes on with the message that is being sent, a control frame in between leaves it alone |
| Conversation.SendMessage | ws/conn.go:799-1049 | NextWriter, then any calls on the writer with any control messages between them, then Close: without a socket failure the wire has got the frames of the message and, where they were sent, exactly the control messages that are not refused, and the socket exactly their encoding; with one, whole frames and a part of the next |
| Conversation.SentIsRead | ws/conn.go:799-1344 | What SendMessage has put on the wire is read by the peer, of the other role, as the type and the bytes of the calls, if its handlers take the control messages |
| Conversation.ActBeside | ws/conn.go:799-833 | A control frame sent while a writer is open changes neither what that has sent nor what it holds |
| TwoWriters.FirstEnds | ws/conn.go:845-954 | Two writers opened on one connection buffer at the same place: when the first is closed, its message goes out with the second one's bytes over its own, and as written if and only if these are the same |
| TwoWriters.SecondEnds | ws/conn.go:845-954 | When the second is closed first, both messages go out, the second as written, the first with the second one's bytes over it as they went over the wire, masked for a client; as written if and only if these are the same |
| TwoWriters.WriteBeside | ws/conn.go:970-995 | A Write of the second writer that fits the buffer keeps what the first holds if and only if it puts the same bytes there |
| TwoWriters.CloseBeside | ws/conn.go:883-954 | Closing the second writer keeps what the first holds for a server always, and for a client if and only if the bytes of the mask key that meet it are 0 |
| ConnReader.Conn.AdvanceFrame | ws/conn.go:1053-1236 | advanceFrame on the fields of a Conn is the function Advance of its state and of the bytes to come, errors included |
| ConnReader.Conn.CheckTwoBytes | ws/conn.go:1073-1126 | The protocol errors of the first two bytes of a frame, in the order in which the code collects them |
| ConnReader.Conn.NextReader | ws/conn.go:1257-1295 | NextReader forgets the open message and its length and goes on to the next data frame or error |
| ConnReader.Conn.Read | ws/conn.go:1299-1344 | Read delivers what is at hand of the current frame, unmasked into the caller's buffer, or goes on to the next frame, or ends |
| ConnReader.Conn.ReadInto | ws/conn.go:1307-1323 | A short read moves the remainder and the mask position by what was read, and an early end of input is an unexpected one |
| CutInput.EndOnlyAtEnd | ws/conn.go:1299-1344 | On any input, in any state: a Read of the open reader reports the end only with the final frame read to its last byte and without an error |
| CutInput.AdvancePrefix | ws/conn.go:1053-1236 | advanceFrame on any part of an input gives io.EOF exactly within what it has to skip, the unexpected EOF within a frame, and otherwise just what it gives on the whole input |
| CutInput.ReadsPrefix | ws/conn.go:1299-1344 | Reads on any part of an input run out of it, with the bytes that reads of the whole would have given, or come to the same as those |
| CutInput.CutInside | ws/conn.go:1299-1344 | From the middle of a message of which the network delivers all but some bytes: reads of any sizes give a part of its payload, never its end, and finish within as many progressing reads as it has bytes, and one, in an unexpected EOF, or at the limit if the message is over it |
| CutInput.CutIsError | ws/conn.go:1250-1344 | The same from any state between reads, for a message cut off anywhere: it is not found, or it is found and never looks complete |
| FrameDecoding.NoViolations | ws/conn.go:1073-1126 | With no extension the collected errors are empty for exactly these frames: reserved bits 0, masked for a server only, a known opcode in its place (data only between messages, continuation only within one), control frames final and with the short length form |
| FrameDecoding.PermittedExactly | ws/conn.go:1073-1126 | What sections 5.1 to 5.5 of RFC 6455 allow is that, the shortest length form (5.2) and no close body of one byte (5.5.1), neither of which the reader looks at |
| FrameDecoding.FormsAlike | ws/conn.go:1141-1156 | The reader does the same with a data frame in every length form that fits |
| FrameDecoding.LongTaken | ws/conn.go:1141-1156 | Every payload below 65536 bytes is taken with its length in eight bytes, which section 5.2 forbids |
| FrameDecoding.OneByteClose | ws/conn.go:1217-1233 | Every close frame with a body of one byte, which section 5.5.1 forbids, is taken for one without a body |
| FrameDecoding.AdvanceDataFrame | ws/conn.go:1053-1189 | A legal data frame is decoded to its FIN, opcode and length with its body left to read, exactly when the message stays within the limit |
| FrameDecoding.AdvanceControlFrame | ws/conn.go:1191-1236 | A legal control frame reaches its handler with its payload in clear and is consumed |
| FrameDecoding.HandlersDecide | ws/conn.go:1191-1236 | A legal ping is taken exactly if the ping handler agrees, and a legal pong exactly if the pong handler does |
| FrameDecoding.CloseDecides | ws/conn.go:417-438 | A close frame is received with its code and text exactly if the code is 1000 to 1003, 1007 to 1013 or 3000 to 4999, the text is UTF-8 and the handler agrees; each other outcome exactly by the first of these that fails; without a code the handler is asked with 1005 |
| FrameDecoding.AdvanceIllegalFrame | ws/conn.go:1073-1126 | An illegal frame is a protocol error and nothing behind its first two bytes is consumed |
| MessageStream.ReadInside | ws/conn.go:1299-1344 | One Read in the middle of a message delivers its next bytes, or its end exactly when nothing is left, or fails exactly because the message is over the limit |
| MessageStream.ReadsInside | ws/conn.go:1299-1344 | Whatever buffer sizes are asked for and however little is at hand, the reads concatenate to a prefix of the payload, and to all of it at the end |
| EndToEnd.MessageIsRead | ws/conn.go:1250-1344 | From any state between reads, with an earlier message half read or not: NextReader skips what is left of that, and a conforming message with any pings and pongs between its fragments is read back, type, payload to the last byte and end, exactly if the skipped frames and the message together are within the limit |
| EndToEnd.UnfinishedIsSkipped | ws/conn.go:1250-1295 | The same from the middle of a message that was read in part |
| EndToEnd.FindsNext | ws/conn.go:1257-1282 | The loop of NextReader over the rest of a message finds the first data frame of the next, or fails with the limit exceeded exactly when the count is over it |
| EndToEnd.LimitTripsEarly | ws/conn.go:1263-1270 | For every limit and role there are two messages within it of which the second is read alone, and refused behind the first when that was opened and not read |
| EndToEnd.WriterEndsReading | ws/conn.go:867-880 | A message writer that ends clears messageReader: a message that is being read on the same connection then ends at once for its reader, whatever is missing of it |
| EndToEnd.SentMessageFlows | ws/conn.go:883-954 | The frames a message writer sends, interleaved with control frames, conform to the grammar for a peer of the other role, and carry the payload |
| EndToEnd.WriterToReader | ws/conn.go:845-1344 | What one endpoint writes by any calls, in either role, its peer reads back as the same type and bytes, in any read sizes and whatever it left unread before, exactly if it is within the peer's limit |
| ReaderSafety.AcceptsGrammar | ws/conn.go:1053-1236 | The reader accepts exactly the frame sequences of the fragmentation grammar of which no control frame is refused, and otherwise exactly the frames before the first offending one: a protocol error for an illegal frame, its own error for a refused one; readFinal is true iff no message is open |
| ReaderSafety.CloseStops | ws/conn.go:1208-1233 | A legal close frame always stops the reader, with the error its code, text and handler give |
| AcceptedInput.AdvanceTaken | ws/conn.go:1053-1236 | Whatever bytes advanceFrame accepts, they are the encoding of a frame that may come there, with nothing left over or missing |
| AcceptedInput.TakenIsPermitted | ws/conn.go:1053-1236 | An accepted frame, on any input, is one that sections 5.1 to 5.5 allow if and only if its length is in the shortest form |
| AcceptedInput.AcceptedAreFrames | ws/conn.go:1053-1236 | Any input of which n frames are accepted begins with n conforming frames, none refused, together within the limit; only the end of the last body may be missing |
| ReaderSafety.AdvanceCounts | ws/conn.go:1140-1189 | On any input, with 64-bit wrap-around, an accepted data frame makes readLength the exact sum, within the limit, and readRemaining is never negative |
| ReaderSafety.RunAccounted | ws/conn.go:1257-1344 | In every run of NextReader and Read calls on any input, the bytes delivered of one message never exceed a positive limit |
| ReaderSafety.DeliveredWithinLimit | ws/conn.go:1257-1344 | On any input and under any calls no message gives the application more bytes than a positive read limit, nor 2^63 |
| ReaderSafety.ErrorIsFinal | ws/conn.go:1267-1294 | After the first error no later call consumes or delivers a byte |
| TruncWriter.Writer.Write | ws/compression.go:63-89 | Bytes forwarded and bytes held make up all bytes written, for every chunking; after a failure below, what was forwarded is still a prefix; the count returned leaves out the bytes that replaced held ones |
| TruncWriter.Writer.Pass | ws/compression.go:76-88 | Once four bytes are held the oldest of what is held and new goes out |
| TruncWriter.Writer.HeldIsTail | ws/compression.go:57-89 | The held part is exactly the last min(4, total) bytes, and all else was forwarded |
| TruncWriter.Writer.HoldsTail | ws/compression.go:104-118 | Close finds the tail 00 00 ff ff exactly when the stream ended in it, and then everything but it was forwarded (section 7.2.1 of RFC 7692) |
| HeaderTokens.ScanSpace | ws/util.go:117-125 | skipSpace drops exactly the leading blanks and tabs |
| HeaderTokens.ScanToken | ws/util.go:129-137 | nextToken cuts at the first character that is no token octet |
| HeaderTokens.TokenOctets | ws/util.go:35-113 | A token octet is a visible ASCII character that is none of the separators of section 2.2 of RFC 2616 |
| HeaderTokens.ScanTokenOrQuoted | ws/util.go:141-174 | nextTokenOrQuoted returns the token, or the unescaped quoted string and what follows it, or nothing if it is not closed |
| HeaderTokens.ScanEscaped | ws/util.go:150-170 | The scratch-buffer loop never writes out of bounds and unescapes what is left of the string |
| HeaderTokens.QuotedValueBack | ws/util.go:141-174 | For every string, escaped in any sufficient way, and every rest: the quoted form is read back as the string, and the rest stays |
| HeaderTokens.TokenBack | ws/util.go:129-137 | A token is read back when something else than a token octet follows |
| HeaderLists.ScanParams | ws/util.go:251-271 | The loop over extension parameters terminates, each round leaving less of the header, with the parameters up to the first malformed one refused |
| HeaderLists.ScanLine | ws/util.go:244-280 | One header line gives its extensions up to the first malformed one; terminates |
| HeaderLists.ScanExtensions | ws/util.go:228-283 | parseExtensions is the concatenation of what each header line gives |
| HeaderLists.LinesAppend | ws/util.go:228-283 | The extensions of several lines come one line after the other |
| HeaderLists.EqualFold | ws/util.go:178-198 | equalASCIIFold holds exactly for strings with the same runes up to the case of ASCII letters, a byte that begins no rune being an error rune |
| HeaderLists.FoldMeans | ws/util.go:187-192 | Two runes are folded together exactly if they are the same or one ASCII letter in two cases |
| HeaderLists.ValidFolded | ws/util.go:178-198 | Of valid UTF-8 it compares the bytes, up to the case of ASCII letters |
| HeaderLists.SameRunesMeans | ws/util.go:178-198 | Rune by rune in step is position by position in the lists of runes |
| HeaderLists.InvalidFolded | ws/util.go:178-198 | Of other strings it does not: two different stray bytes are the same to it |
| Utf8.ValidExactly | ws/util.go:180-183 | The runes and the validity that are modelled are those of UTF-8: a string is valid exactly if it is the encoding of scalar values, which are then its runes |
| HeaderLists.TokenListContains | ws/util.go:202-225 | tokenListContainsValue is true exactly when some token read from some line equals the value up to ASCII case |
| HeaderRoundTrip.LineBack | ws/util.go:228-283 | A line of well-formed extensions, in any spacing, with values absent, as tokens or quoted, is parsed as these extensions, a later parameter of one name replacing an earlier |
| HeaderRoundTrip.ParamsBack | ws/util.go:251-271 | A list of parameters in front of a comma or the end is parsed as these parameters |
| HeaderRoundTrip.QuotingIsTransparent | ws/util.go:141-174 | A value means the same as a token and quoted |
| HeaderRoundTrip.TokensBack | ws/util.go:202-225 | A list of tokens, in any spacing, is read as these tokens |
| Trie.Tree.AddPath | radix.go:40-146 | After a registration the tree represents the list of routes with this one behind: "/" keeps its origins if none are given, outer slashes are trimmed, segments behind a catch-all are dropped |
| Paths.TrimIs | radix.go:67 | Trimming takes slashes and nothing else off both ends, and leaves none there |
| Paths.SplitJoin | radix.go:67 | Segments without slash are split as they were joined |
| RouteOwnPath.WrittenBack | radix.go:67-145 | A pattern written with colons and a star, with any slashes around it, is registered as that pattern |
| RouteOwnPath.OwnPathFound | radix.go:40-256 | A path of literal segments, registered with any slashes around it, is found under its own name with this handler and these origins, whatever else is registered, unless a later registration is for the same segments |
| RouteOwnPath.OwnPatternFound | radix.go:40-256 | With parameters and a catch-all likewise, under the exact condition of ReachedExactly; and each name captures the segment at its place, that of the catch-all the rest |
| RouteOwnPath.OnlyRouteExactly | radix.go:40-256 | A route registered alone is found by exactly the requests that have its literals, something for each parameter, and at least one segment more, if only an empty one, for a catch-all |
| RouteOwnPath.RootFound | radix.go:49-65 | "/" is found under its own name with this handler and these origins; registered without origins it keeps those it had |
| Trie.Tree.AddSegments | radix.go:67-145 | The loop over segments enters them one by one, each time one segment more of the route being represented |
| Trie.Tree.EnterLiteral | radix.go:124-141 | The existing child of a literal is used, otherwise one is appended: there is at most one per literal |
| Trie.Tree.EnterParam | radix.go:72-110 | The one parameter child is used, whose position is its parameter depth, and the name is added if it is new; otherwise one is appended |
| Trie.Tree.AddRest | radix.go:112-122 | A catch-all is appended each time |
| Trie.Tree.SetHandler | radix.go:144-145 | The last node's handler and origins are replaced |
| Trie.Tree.GetHandler | radix.go:153-256 | The byte loop returns the handler, captures and origins that the plain list of routes gives for the path; "/" only ever the root handler |
| Trie.Tree.Descend | radix.go:186-222 | One segment: the literal child, else for a non-empty segment the parameter child with every name it was registered under |
| Trie.Tree.FindRest | radix.go:228-241 | Of the catch-all children the first is used |
| TrieSteps.NewLeaf | radix.go:134-141 | Appending a child keeps all that the tree says about every other sequence of segments |
| TrieSteps.OldNode | radix.go:82-97 | Entering an existing node changes only the names of a parameter |
| TrieSteps.RestAdded | radix.go:112-122 | A further catch-all changes nothing if there is one already |
| TrieSteps.HandlerSet | radix.go:144-145 | Setting a handler changes one entry of the route table and nothing else |
| TrieShape.RepresentsMore | radix.go:58-146 | The invariant of the tree (every node found under the edges that lead to it, one child per literal, one parameter child at its depth) survives an update of one node |
| RouteLaws.LookUpIsGreedy | radix.go:153-256 | A look-up is a greedy filter over the plain list of routes: literal, else non-empty parameter, else first catch-all; last registration at the end |
| RouteOrder.LastWins | radix.go:144-145 | Of several literal or parameter routes of one shape the last registered wins |
| RouteOrder.FirstWins | radix.go:228-241 | Of several catch-alls at one place the first registered wins |
| RouteOrder.OrderDoesNotMatter | radix.go:49-256 | With pairwise distinct shapes handler, origins and captures do not depend on the order of registration |
| RouteCaptures.CapturesSound | radix.go:67-256 | Whenever a look-up finds a handler, the captured values put back into the pattern of its route give the path without its leading slash, every declared name has its own segment among the captures, and no parameter is empty |
| RouteReached.ReachedExactly | radix.go:175-253 | For every set of routes, a request that fits a route comes to the end of it exactly if behind the same beginning no route has a literal for a segment this one takes as a parameter, and none goes on where this one has its catch-all; its handler is then the one found |
| RouteReached.StopsExactly | radix.go:180-253 | The same from any position within the route |
| RouteReached.FoundAtStop | radix.go:228-253 | What is found is decided where the walk stops: the handler there, or the first catch-all |
| RouteReached.LiteralFound | radix.go:185-193 | A route without parameters is found whatever else is registered |
| RouteReached.NoWayBack | radix.go:153-253 | There is no backtracking: for all texts without slash, behind a route a/b the look-up of /a/c finds nothing though the route :x/c fits it, while for every other /d/c it finds that |
| Paths.JoinSplit | radix.go:67 | Splitting at slashes and joining again is the identity |
| RingArithmetic.RingSizeLeast | ksps/batch.go:65-82 | The ring size is at least the request exactly when the request is at most 2^32, and then the least such power of two |
| RingArithmetic.RingSizeDefault | ksps/batch.go:66-68 | A request of zero or less gives 16384 slots |
| RingArithmetic.MaskedPlace | ksps/batch.go:118 | (x + i) & mask is the place i behind x, going round |
| RingArithmetic.MaskedDistance | ksps/batch.go:233-236 | Both formulas for the number of available messages are the distance from tail to head, in spite of unsigned wrap-around |
| Ring.BatchWriter.constructor | ksps/batch.go:65-100 | A new writer has an empty ring of the rounded size and default batch size where none is given |
| Ring.BatchWriter.Send | ksps/batch.go:105-152 | A message is queued last exactly if the writer is active and more than one slot is free; else it is dropped after the retries and counted |
| Ring.BatchWriter.TrySend | ksps/batch.go:158-191 | As Send, without retries and without counting |
| Ring.BatchWriter.TakeSlots | ksps/batch.go:248-255 | The loop takes the oldest messages in order and empties their slots |
| Ring.BatchWriter.CollectBatch | ksps/batch.go:227-263 | The batch is the front of the queue, as long as the batch size allows, and the queue is what is left |
| Ring.BatchWriter.DrainAndSend | ksps/batch.go:304-312 | With no concurrent sends draining terminates with the ring empty and every message passed on in order |
| Ring.BatchWriter.Size | ksps/batch.go:336-340 | Size is the length of the queue |
| RingProof.SerialSendsAreFifo | ksps/batch.go:105-263 | In every interleaving of loads, swaps, stores and collecting steps in which sends do not overlap, the ring is a first-in first-out queue of capacity size - 1 and no slot is overwritten before it is consumed |
| RingProof.Keeps | ksps/batch.go:105-263 | Every single step keeps the invariant of slots, indices, producer and consumer |
| RingProof.CollectedInOrder | ksps/batch.go:227-263 | In such runs every message is collected at most once, in the order of sending, and fewer than size are on the way |
| RingRaces.FifoExactly | ksps/batch.go:105-263 | All runs are those of a queue if and only if there is at most one producer, or the ring has a single slot |
| RingRaces.OverlappingSendsBreak | ksps/batch.go:113-151 | For every size from 2 and any batch size, two producers have a run (a stale swap after head went round) that overfills the ring |
| RingSkips.SkippedSlotBreaks | ksps/batch.go:248-260 | A second failing run, with no stale swap: the consumer steps over a claimed but unpublished slot and a later message overtakes |
| BusIndex.Bus.Register | ksps/bus.go:449-501 | Registering gives the client this socket, keeps its connection object and its topics |
| BusIndex.Bus.Subscribe | ksps/bus.go:411-446 | The client is connected and subscribed, in both indices with the same object; nothing else changes |
| BusRaces.SubscribedUnlessDropped | ksps/bus.go:411-448 | Among any lock-level steps of other goroutines that are not about this client and topic, a subscription that has run to its end is found by publishers if and only if no step behind its first section took the topic off the index |
| BusRaces.SubscriptionLost | ksps/bus.go:411-545 | For all clients and topics a run in which the only other client unsubscribes in between: both calls return, the client lists the topic, and no publisher finds it |
| BusSteps.StepFine | ksps/bus.go:112-973 | Every lock-level step of subscribing, unsubscribing, topic removal and cleanup keeps objects and their topics in place and all references in range |
| BusIndex.Bus.Unsubscribe | ksps/bus.go:504-546 | Exactly this subscription ends, in both indices, and an emptied topic goes |
| BusIndex.Bus.UnsubscribeTopic | ksps/bus.go:112-165 | All subscriptions to the topic end, in both indices; nothing else changes |
| BusIndex.Bus.Cleanup | ksps/bus.go:902-973 | A cleanup for the socket the client has, or for no socket in particular, removes the client from both indices; for any other socket it changes nothing |
| BusIndex.Bus.DropIfEmpty | ksps/bus.go:533-545 | A topic goes exactly if it has no connections left |
| BusIndex.Bus.CountSubscribers | ksps/bus.go:1134-1167 | The WebSocket count of a topic is the number of subscriptions to it |
| BusIndex.Link | ksps/bus.go:437-445 | Entering client and topic in each other keeps the indices inverse |
| BusIndex.Unlink | ksps/bus.go:519-545 | Removing them from each other, and the topic if it is empty, keeps the indices inverse and no topic empty |
| BusIndex.FreeAll | ksps/bus.go:150-164 | Removing a topic and freeing all its clients keeps the indices inverse |
| BusIndex.LeaveAll | ksps/bus.go:938-972 | Removing a client and leaving all its topics keeps the indices inverse and no topic empty |
| BusIndex.MembersCount | ksps/bus.go:1156-1163 | A topic has as many connections as there are subscriptions to it |
| BusView.SubscribedExactly | ksps/bus.go:112-973 | In every run before Close a client is subscribed to a topic if and only if some call subscribed it and no later one (unsubscribe, topic removal, cleanup of its then current socket) ended that |
| BusView.ConnectedExactly | ksps/bus.go:411-501 | In every run a client has a socket if and only if some call connected it through that socket and no later one connected it anew, or cleaned it up for that socket or any |
| BusView.CleanupExactly | ksps/bus.go:902-973 | A cleanup for socket s disconnects the client and ends all its subscriptions, and no others, exactly if it was connected through s last and that has not ended since; otherwise it changes nothing |
| BusView.CleanupOfAny | ksps/bus.go:902-973 | A cleanup for no socket in particular ends a client however it is connected |
| BusView.SubscribedAreConnected | ksps/bus.go:411-501 | In every run only connected clients are subscribed |
| BusView.StaleCleanup | ksps/bus.go:902-936 | After a client has connected, a cleanup of a socket that it has not used since changes nothing, whatever was called before and in between, other cleanups included |
| AckTable.Collect | ksps/bus.go:213-236 | Everybody who will get the message is listed as not received |
| AckTable.AckRequest.MarkReceived | ksps/bus.go:1045-1050 | A client is marked once, with one decrement of the 32-bit counter |
| AckTable.AckRequest.Send | ksps/bus.go:1052-1060 | A response is queued unless the channel is closed or holds 100 |
| AckTable.AckRequest.IsComplete | ksps/bus.go:317-331 | IsComplete is true exactly when everybody in the received map has answered |
| AckTable.Table.Publish | ksps/bus.go:193-251 | A new request is in the table under an id of its own, the others as they were: it lists the clients and the names of the internal subscribers, none of them marked, its counter is their number as an int32, its channel open and empty |
| AckTable.Table.HandleAck | ksps/bus.go:1036-1061 | An acknowledgment marks its client in the request of its id, with one decrement if it was not marked, and goes into the channel behind the others if that is open and holds fewer than 100; every other request stays as it was |
| AckTable.Table.CancelAck | ksps/bus.go:1095-1102 | The request leaves the table and its channel is closed, if it was there |
| AckTable.Table.Expire | ksps/bus.go:1069-1092 | A tick removes exactly the requests older than their timeout, and closes their channels |
| AckProof.Keeps | ksps/bus.go:193-1102 | Every step of publishers, handlers, waiters, cancellation and cleanup keeps the invariant of the protocol |
| AckLaws.CountersBalance | ksps/bus.go:193-1102 | In every run remaining is the initial count less the clients marked (as an int32), the channel is closed exactly when the request is out of the table, and what lies in it was handled for this request |
| AckLaws.ClosedOnce | ksps/bus.go:1069-1102 | In every run no channel is closed twice, and each exactly by the step that takes its request out of the table |
| AckLaws.RepeatedAck | ksps/bus.go:1045-1050 | A client that was marked at any point of a run stays marked, and every later acknowledgment of it for the same id leaves all requests unchanged |
| AckLaws.MarksStay | ksps/bus.go:1036-1061 | In every run marks stay, and the lists of a request never change |
| AckLaws.WaitIsSound | ksps/bus.go:253-282 | In every run each entry Wait has gathered or returned came from a handled acknowledgment of that client with that id |
| AckQueue.QueueIsExact | ksps/bus.go:253-282 | In every run, for every request: what was received from its channel, followed by what lies in it, is in order exactly what handlers sent while it was open and held fewer than 100 |
| AckQueue.WaitHoldsLast | ksps/bus.go:253-282 | In every run a waiter holds exactly the clients of which it received something, each with the last response received |
| AckQueue.RunReturns | ksps/bus.go:253-282 | In every run a Wait whose timer has not fired is over only if at some moment the counter was down to zero, or the request was closed and its channel empty |
| AckQueue.TakesAndReturns | ksps/bus.go:260-271 | A Wait with a response to take enters it and, exactly if the counter is at zero, cancels the request and returns |
| AckQueue.AckIsTakenUp | ksps/bus.go:1036-1061 | An acknowledgment that finds its request is marked and queued by the next two steps of its handler; one that does not is dropped |
| AckComplete.ZeroMeansComplete | ksps/bus.go:193-331 | For every request of every run: while only listed clients have answered, and no WebSocket client has the name of an internal subscriber, remaining is 0 iff IsComplete |
| AckComplete.ZeroTellsExactly | ksps/bus.go:193-331 | Published in any state, a request keeps remaining == 0 iff IsComplete in all runs in which only its clients and these others answer, if and only if no name clashes and all the others are listed |
| JsonPrinter.AppendEscaped | ksps/json.go:305-328 | The escaping loop appends the escaped string behind what the buffer holds |
| JsonPrinter.AppendValue | ksps/json.go:228-302 | The recursive printer appends the text of the value, for every iteration order of its maps |
| JsonPrinter.AppendMembers | ksps/json.go:259-273 | The loop over a map prints its members in the order in which they come, commas between them |
| JsonText.Example | ksps/json.go:228-302 | The text of an object with a list, words, an escape and a negative number, character by character |
| JsonRoundTrip.StringBack | ksps/json.go:305-328 | A parser reads an escaped string back and stops exactly at the closing quote (section 7 of RFC 8259) |
| JsonRoundTrip.EscapeClean | ksps/json.go:305-328 | No control character is left in an escaped string |
| JsonRoundTrip.OneChar | ksps/json.go:305-335 | Each escaped character, control characters in hexadecimal included, is read back as itself |
| JsonRoundTrip.NumberBack | ksps/json.go:240-251 | An integer is read back in front of anything that does not go on with a number |
| JsonRoundTrip.ValueBack | ksps/json.go:228-302 | For every tree of null, booleans, integers, strings, arrays and objects in any iteration order: a parser after RFC 8259 run on the text followed by a delimiter recovers what the value means and stops at the delimiter |
| JsonUtf8.PrintedExactly | ksps/json.go:228-302 | The text of a value is a JSON text of RFC 8259, UTF-8 included, that is read back to its end, if and only if every string in it is valid UTF-8 |
| JsonRoundTrip.OrderForgotten | ksps/json.go:259-273 | The same map printed in another order means the same |
| JsonMessages.MarshalTo | ksps/json.go:19-111 | MarshalKSMUXTo appends the text of the message behind what the buffer holds |
| JsonMessages.Marshal | ksps/json.go:115-225 | MarshalKSMUX returns the same bytes; its statements are those of MarshalKSMUXTo once more, in a pooled buffer that is copied at the end, so one body stands for both here |
| JsonHeaders.RawBackExactly | ksps/json.go:20-53 | A string written unescaped between quotes is read back as itself if and only if it holds no quote, backslash or control character |
| JsonHeaders.TextIsPrint | ksps/json.go:19-111 | The text of a message with plain headers is the print of its members |
| JsonMessageBack.MessageRecovered | ksps/json.go:19-111 | A message with plain header and key strings is read back: every header, the data, the status and responses maps, with the parser stopping at its end |
| JsonMessageBack.StatusRecovered | ksps/json.go:60-78 | In the status object the name of a client means whether it received the message, and no other name means anything |
| JsonMessageBack.ResponsesRecovered | ksps/json.go:80-108 | In the responses object the name of a client means its answer, field by field, and no other name means anything |
| JsonMessageExact.MessageRecoveredExactly | ksps/json.go:19-111 | A message is read back as itself, with the parser stopping at its end, if and only if every unescaped string in it, header, client name or error of a response, is free of quotes, backslashes and control characters; whatever data it carries |
| JsonUtf8.MessageTextExactly | ksps/json.go:19-111 | Its text is moreover valid UTF-8 if and only if all its strings are, those of the data included |
| JsonShortest.ShortestExactly | ksps/json.go:228-328 | The print of a value is not longer than any JSON text that is read as it, whatever whitespace, escapes, order or repeated members that uses, if and only if no string in it holds a backspace or a form feed |
| JsonShortest.LeastReached | ksps/json.go:305-328 | The print with short escapes for these two is read as the same value and has the least length there is |
| JsonSqueeze.ValueSqueezed | ksps/json.go:305-328 | Any JSON text with these short escapes put in is read as the same value, up to the same place |
| JsonShortest.MembersCost | ksps/json.go:259-273 | No text of an object that holds given members is shorter than these members need |
| JsonMessageBack.Injected | ksps/json.go:20-30 | With a quote in the action two different messages have the same text: no parser can tell them apart |
| Decimals.NumberDecimal | ksps/json.go:240-251 | The decimal digits of a number are read back as the number |
| Balancer.ClosedBelowThreshold | loadbalancer.go:307-351 | In every run of a breaker, with a 32-bit counter, closed implies that failureCount is from 0 to below the threshold |
| Balancer.ClosedExactly | loadbalancer.go:307-351 | A breaker is closed exactly when no streak of five failures was completed since the last success |
| Balancer.RefusedExactly | loadbalancer.go:307-343 | In every run a question is refused if and only if a failure opened the breaker, at the fifth in a row or later, nothing has closed, half-opened or opened it since, and no more than a second is over |
| Balancer.RefusesForASecond | loadbalancer.go:307-343 | From the failure that completes a streak of five on, questions within a second are refused and change nothing, and the next is answered |
| Balancer.PickFirst | loadbalancer.go:272-288 | The backend picked is the first in cyclic order that is alive and available; none only if none is |
| Balancer.ChosenIsFit | loadbalancer.go:264-291 | A backend is never returned that is dead, or whose breaker opened no more than a second ago |
| Balancer.OpenedIsPassedOver | loadbalancer.go:264-324 | A backend whose history opened its breaker within the last second is neither returned nor changed |
| Balancer.IndexInRange | loadbalancer.go:272-273 | The index computed from the counter is that of a backend exactly while the counter is below 2^63 or by accident of divisibility |
| Balancer.GoesRound | loadbalancer.go:264-291 | While every backend is alive and available at each call, an open breaker past its timeout included, the k-th call returns backend (counter + k) mod n |
| Balancer.EachOnce | loadbalancer.go:264-291 | n consecutive calls over n such backends return each exactly once |
| BalancerObjects.LoadBalancer.NextBackend | loadbalancer.go:264-291 | For every counter: the call returns the backend picked or panics on an index that none has, moves the counter by one, modulo 2^64, and may half-open the breaker of the backend returned and of no other |
| Balancer.PanicsExactly | loadbalancer.go:272-276 | A call panics if and only if there are backends, the counter is at 2^63 or beyond, and 2^64 less the counter is no multiple of their number |
| BalancerObjects.LoadBalancer.TryBackend | loadbalancer.go:275-288 | A backend is taken exactly if alive, with a breaker that is not open or was opened more than a second ago; otherwise nothing changes |
| BalancerObjects.LoadBalancer.RemoveDeadBackends | loadbalancer.go:122-130 | The backends that are alive stay, in order, and no others |
| BalancerObjects.AliveDistinct | loadbalancer.go:122-130 | What stays are exactly the live backends, and no two share a breaker |
| BalancerObjects.AliveAppend | loadbalancer.go:122-130 | The live backends of two lists come one behind the other |
| BalancerObjects.CircuitBreaker.IsAvailable | loadbalancer.go:307-324 | An open breaker answers no up to a second after its last failure, then becomes half-open; any other answers yes and stays |
| BalancerObjects.CircuitBreaker.RecordSuccess | loadbalancer.go:326-332 | A success closes the breaker and clears its counter |
| BalancerObjects.CircuitBreaker.RecordFailure | loadbalancer.go:334-343 | A failure counts, and at the threshold opens the breaker and stamps it |
| BalancerObjects.CircuitBreaker.Cleanup | loadbalancer.go:345-351 | The counter is cleared when the last failure is more than two timeouts ago |

## Left out

- Compressed messages: `newCompressionWriter` and the `compress` flag of `messageWriter` are not modelled, since `NextWriter` never sets it; deflate itself is a library.
- Close replies and pongs that the default handlers send: on the reading side a handler is a function that fails or not, and its writes are not part of the stream.
- `readErrCount`: the fatal exit after 1000 reads of a failed connection.
- Network errors of the reader other than the end of input, temporary errors and deadlines.
- `readMessageWithPool` and `ReadMessage`, which return after one `Read`; `writeLoop`, to which nothing is queued; `WriteMessage` with its worker pool.
- `tsr` of `getHandler`, which is always false, and whether an empty parameter list is nil.
- A nil handler as an argument of `addPath`.
- Overlapping sends that happen to be harmless: `FifoExactly` is about all runs of a ring, not about single runs.
- `Close` of a `BatchWriter`, the wake-up of its consumer, and what `sendBatch` does when the connection fails: a drained batch counts as passed on.
- `FastMPMC`, whose `Pop` can take an unpublished slot.
- BusIndex.Bus.Subscribe: the steps between its locks are one atomic step here; what a topic dropped in between does is in `BusRaces`, whose machine leaves out sockets and deliveries.
- Internal subscribers of the bus (weak pointers, `checkTopicEmpty`, the event channel and the worker pool), and the delivery of messages.
- The batch writer and the channels of a `wsConnection`, and everything from `Close` of the bus on.
- AckQueue.WaitHoldsLast: is about what `Wait` has received; it may return before it has drained the channel, and what is left there it does not return.
- `WaitAny`, `GetStatus` and the client side of acknowledgments.
- The name of an acknowledgment as a string: ids are numbers that are never given twice.
- Floating-point values and values that fall back to `encoding/json` in `appendValueFast`; `UnmarshalKSMUX`, for which the parser of RFC 8259 stands in; surrogate escapes, which that parser refuses.
- JsonMessageBack.MessageRecovered: is one half only; `MessageRecoveredExactly` is the other.
- JsonRoundTrip.ValueBack: leaves out floating-point values, and checks the grammar only; UTF-8 is in `JsonUtf8`.
- JsonMessages.Marshal: one body stands for the two that the code has, whose statements are the same.
- Health checks, proxying and the routes of the load balancer; `AddBackend` is modelled without its URL.
- Sockets, TLS, the HTTP upgrade, dialers, proxies, the router's HTTP glue, the mail packages and the clients in other languages.
