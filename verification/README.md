# Verification of the jengine core

A Dafny model of the parts of this server framework that move, frame, parse and account for data, with proofs of what
they promise. The classes of the model have the fields and the step-by-step methods of the C++ classes; each method is
proved against a specification on plain values, and the promises are proved about that specification. The whole
project is verified with `dafny verify dfyconfig.toml`.

- **Byte pipeline** (`Bytes`, `Memory`, `Windows`, `Client`, `Cursor`, `PacketReader`, `PacketWriter`, `PacketValues`,
  `Message`, `Connector`, `Link`, `Mysql`). Chunks with reference counts, windows on them, packets over lists of
  windows, connections with their send queue, receive pool and receive queue, and the two framing loops. The heap is
  real: windows alias chunks, chunks are arrays that are written in place. `readv` and `writev` are byte counts that
  the environment chooses. The result is `Link.RunLink`: messages in equal messages out.
- **HTTP responses** (`HttpMachine`, `HttpSafety`, `HttpExecute`, `HttpSplit`, `HttpHeaders`, `HttpFraming`,
  `HttpResponse`, `HttpBodies`, `HttpTheorems`, `HttpLengths`, `HttpUpgrade`, `HttpLiterals`, `HttpKeepAlive`). The
  parser in response mode, strict. `HttpMachine.Switch` is one pass through its switch, `HttpMachine.Fold` the run over
  single bytes; `HttpExecute.HttpParser` is the loop with marks, bulk copies and re-executed bytes, proved equal to the
  fold. The result is `HttpTheorems.ResponseIsDelivered`.
- **Cluster registry** (`Matcher`, `Registry`, `Lookups`, `Cluster`, `ClusterSafety`). One node's monitor as a class,
  the pass over its waiting lookups with callbacks that re-enter it, and the network as steps over nodes and connection
  ends with packets in flight. The monitor's methods and the steps share the same relations (`DidRegister`, `DidAuth`,
  ...). The result is `ClusterSafety.RegistriesAgree`.
- **JSON** (`JsonNumber`, `JsonString`, `JsonTree`, `JsonDom`, `JsonReader`, `JsonSpacing`, `JsonLiterals`). The writer
  with its stack of levels, the reader, and the document's stack machine, between them the grammar as a specification.
  The result is `JsonReader.WriteAndParse`.
- **Database connections** (`ConnectionPool`, `TextRow`). The pool with its four lists and re-entrant grants, and
  random access to the columns of a text row in a chunked packet.
- **Smaller structures** (`RingBuffer`, `Base64`, `Scheduler`, `Timer`).

What tables and encodings mean is stated on the bytes themselves, not on the model's own tables: `HttpLiterals`,
`JsonLiterals`, `JsonSpacing`, `Base64.Alphabet`, `Message.WireBytes`, `Mysql.ServerPacket` and others spell out what
the other side of a connection sends.

## What the proofs show about the code

- The parser's overflow test for Content-Length compares the new value with the old one after the multiplication, so
  some lengths of 2^64 and more wrap around unnoticed; `HttpLengths.OverflowIsMissed` names one. Lengths below
  2^64-1 are exact, and only those (`HttpLengths.LengthIsExact`).
- A response with status 1xx, 204 or 304 that carries a nonzero Content-Length or is chunked is framed as if it had a
  body, against section 4.4 of RFC 2616. `HttpBodies.FramingFollowsRfc` is the exact condition.
- Splitting the input is invisible except where an upgrade completes with the last byte of a buffer: a second call
  then parses the bytes of the other protocol (`HttpSplit.SplitIsInvisible`, `HttpUpgrade.UpgradeSplits`).
- A lookup's callback runs before the lookup is erased from the list. If it creates a mailbox whose name the lookup
  matches as well, the lookup is called again and erased, and the outer loop goes on from the erased entry
  (`Lookups.CalledAgain`). `Lookups.PassIsPlain` is the exact condition under which a pass is not disturbed.
- `Mailbox::Create` with a name in use destroys the new mailbox, whose destructor unregisters the name of the
  original one, here and on all other nodes (`Registry.NodeMonitor.Create`). The registries still agree.
- The comment on matcher style 4 (`base/cluster/nodemonitor.h:81`) lists `calculator.2@b` for `calculator.*@a`; the
  code matches on node `a` only (`Matcher.MatchesStar`).
- A mailbox id survives its 32-bit form exactly when its process id fits 24 bits (`Message.IDRoundTrip`), which the
  generated ids do (`Registry.NodeMonitor.Gen`).
- An interval whose linker has been dropped is no longer called, but every update puts it back into the timer queue
  (`Timer.RunUpdates`).

## Model

| member | source | states |
|---|---|---|
| Link.RunLink | base/net/client.cpp:54-120 | End to end, on two connections with their own pools: after any script of sends, partial `writev` results and `readv` limits, what was delivered is a prefix of what was sent, headers and bodies equal; every byte of the stream is delivered, waiting, on the wire or still queued, in order; once nothing is on the way everything has been delivered |
| Link.StepLink | base/net/client.cpp:216-254 | Every single send, write event or read event keeps the link invariant, whatever byte counts the kernel chooses |
| Link.LinkDelivers | base/cluster/nodemonitor.cpp:75-105 | The invariant means: the delivered messages are a prefix, no complete message is left undelivered, and an empty wire means that all have arrived |
| Link.LinkRead | base/cluster/nodemonitor.cpp:75-105 | Delivering whatever the newly arrived bytes complete keeps the link invariant, wherever the reads cut the stream |
| Link.LinkSend | base/cluster/nodemonitor.cpp:32-37 | Sending appends one message to the stream and keeps the link invariant, however much of it is written at once |
| Link.Transmit | base/cluster/nodemonitor.cpp:32-37 | A composed message adds exactly its wire form to what was queued; the received bytes stay and the packet gives all its memory back |
| Link.Arrive | base/net/client.cpp:54-120 | A read event delivers exactly the messages completed by the bytes it took, for every sequence of `readv` counts, and keeps the rest |
| Message.StreamIsDelivered | base/cluster/nodemonitor.cpp:75-105 | Cutting the concatenation of messages gives these messages back, with nothing left |
| Message.PrefixIsDelivered | base/cluster/nodemonitor.cpp:75-105 | Cutting any prefix of a message stream gives a prefix of the messages; what is left begins the next one |
| Message.FramesSplit | base/cluster/nodemonitor.cpp:75-105 | Cutting what was left over together with new bytes continues the cutting of the whole: segmentation does not matter |
| Message.MessageRoundTrip | base/cluster/message.h:49-56 | A head written and read back gives equal code, ids, session and body, and its first word is the length of the whole message |
| Message.IDRoundTrip | base/cluster/mailboxid.h:44-51 | Parsing the 32-bit form gives the id back if and only if the process id fits 24 bits |
| Connector.OnReceive | base/cluster/nodemonitor.cpp:75-105 | Delivers exactly the complete messages in the receive queue, leaves exactly the rest queued, and returns all popped memory; the first one is told byte by byte |
| Message.WireBytes | base/cluster/message.h:104-111 | The sixteen bytes of the head, one by one: size, code, sender, receiver, session |
| Message.UnwireBytes | base/cluster/message.h:49-56 | The fields that these bytes are read as |
| Connector.WriteHead | base/cluster/message.h:104-111 | The packet then holds exactly the wire form of the message, its 16 reserved bytes filled and its body untouched |
| Connector.Compose | base/cluster/message.h:69-73 | A new packet reserves 16 bytes and holds the body behind them; nothing else in the pool changes |
| Connector.SendMessage | base/cluster/nodemonitor.cpp:32-37 | What had been queued, followed by the message, is what has been written followed by what is still queued |
| Connector.PushSend | base/net/client.h:48-57 | The windows of a packet go behind the queue and are sent as far as the kernel takes them |
| Connector.ReadMessage | base/cluster/message.h:49-56 | Reading the head from chunked bytes gives the same message as reading it from the flat bytes |
| Client.Client.ReadOnce | base/net/client.cpp:54-120 | One round of the read loop: exactly the bytes that the kernel handed over are appended to the received stream, for any split over windows, and no live window outside the pool changes its bytes |
| Client.Client.TopUp | base/net/client.cpp:58-60 | The receive pool has 20 exclusive windows again; windows held elsewhere are not affected |
| Client.Client.Accept | base/net/client.cpp:89-103 | The scattered bytes become the end of the received stream; bytes received before and popped packets stay as they are |
| Client.Client.Shift | base/net/client.cpp:89-102 | Moving `n` bytes from the receive pool to the receive queue splits the front window in place: the queue gains the first `n` bytes, the pool keeps the others, and pool windows still overlap no other window |
| Client.Client.CutFront | base/net/client.cpp:96-101 | The two parts of a split window share a chunk and do not overlap; the reference count stays the number of windows |
| Client.Client.CopyReceive | base/net/client.cpp:159-171 | Returns the first bytes of the received stream over any number of windows and leaves queue and cursors unchanged |
| Client.Client.PopReceive | base/net/client.cpp:173-193 | Takes exactly `min(count, available)` bytes off the front, in order, as windows that the caller then owns |
| Client.Client.PopOne | base/net/client.cpp:176-190 | A whole window, or its first part; both parts of a split one keep their references |
| Client.Client.Enqueue | base/net/client.h:48-55 | Pushed windows append exactly their bytes to the send queue |
| Client.Client.InvokeSend | base/net/client.cpp:216-254 | For every sequence of `writev` results: what was queued is what was written followed by what is still queued; completion is reported exactly when something was sent and nothing is left |
| Client.Client.SendOnce | base/net/client.cpp:225-239 | One `writev` of any size takes exactly its bytes off the front of the queue |
| Client.Client.DropSent | base/net/client.cpp:229-239 | Sent bytes leave the queue; chunks without windows go back to the pool |
| Client.Client.Offered | base/net/client.h:116-126 | The kernel is offered no more bytes than are queued, and some exactly when the queue is not empty |
| Client.Client.Discard | base/net/client.cpp:173-193 | Dropping popped windows gives back exactly these references and changes no queue |
| Memory.MemoryPool.CalculateChunkCount | base/memory/memorypool.h:34-37 | The least number of chunks that holds the bytes |
| Memory.MemoryPool.Aquire | base/memory/memorypool.h:46-59 | The new windows cover whole chunks that no live window maps; counts stay equal to the live windows |
| Memory.MemoryPool.TakeChunk | base/memory/memorypool.h:48-55 | The oldest pooled chunk, or a new one |
| Memory.MemoryPool.Release | base/memory/memorychunk.cpp:9-22 | A chunk goes back to the pool, or is deleted when the pool is full, exactly when its last window dies; otherwise nothing but the count changes |
| Memory.MemoryPool.Recycle | base/memory/memorypool.h:63-69 | A chunk without windows is pooled, unless the pool is full |
| Memory.MemoryPool.Retain | base/memory/memorychunk.h:165-169 | One more window on a chunk: its count is again the number of its windows |
| Memory.MemoryPool.Copy | base/memory/memorychunk.h:54-57 | A copied window holds a reference of its own |
| Memory.MemoryPool.Cut | base/memory/memorychunk.h:94-106 | A window that becomes two on the same chunk leaves the count right |
| Memory.UsesPositive | base/memory/memorychunk.cpp:9-22 | A chunk is counted as used if and only if some live window maps it |
| Windows.FlatCat | base/gateway/packet_base.h:47-60 | The bytes of concatenated window lists are the concatenated bytes |
| Windows.CutExclusive | base/net/client.cpp:96-101 | Cutting a window that overlaps no other leaves two parts that overlap no other |
| Windows.CutWindow | base/memory/memorychunk.h:94-106 | Shrinking and forwarding a window give the first and the last part of its bytes |
| Windows.WriteAt | base/memory/memorychunk.h:147-160 | Writing into an exclusive window changes its bytes from the cursor on and no byte of any other live window |
| Cursor.SkipWindows | base/gateway/packet_base.h:42-61 | After `SkipTo` the flat cursor, the index of the current window and every window cursor agree |
| Cursor.ReadWindows | base/gateway/packet_base.h:259-272 | The loop of `GetByte` returns the flat bytes at the cursor, over any number of windows, and keeps the cursors in agreement |
| Cursor.WriteWindows | base/gateway/packet_base.h:448-462 | The loop of `PutByte` replaces exactly the flat bytes at the cursor and no byte of any window that is not the packet's |
| Cursor.BytesAtCursor | base/gateway/packet_base.h:264-271 | The bytes behind the window cursor are the flat bytes behind the flat cursor |
| PacketReader.PacketIn.GetByte | base/gateway/packet_base.h:259-272 | The flat bytes at the cursor, or the exception with the cursor unmoved |
| PacketReader.PacketIn.SkipTo | base/gateway/packet_base.h:42-61 | Moves the cursor anywhere inside the packet; the bytes stay |
| PacketReader.PacketIn.ReadString | base/gateway/packet_base.h:229-235 | A 16-bit length and that many bytes; on a short packet the length has been consumed |
| PacketReader.PacketIn.ReadInteger | base/gateway/packet_base.h:105-109 | The little-endian value of the next bytes |
| PacketWriter.PacketOut.constructor | base/gateway/packet_base.h:280-283 | An empty packet with room for the size asked for and ten bytes more |
| PacketWriter.PacketOut.AquireMemory | base/gateway/packet_base.cpp:32-36 | Room grows by at least the need and ten bytes; nothing written changes |
| PacketWriter.PacketOut.SkipTo | base/gateway/packet_base.h:42-61 | Jumping beyond the end makes the packet longer by undetermined bytes; jumping back keeps everything |
| PacketWriter.PacketOut.PutByte | base/gateway/packet_base.h:448-462 | The flat packet is overwritten and extended at the cursor exactly by the given bytes, whatever the chunk size, and no other window changes |
| PacketWriter.PacketOut.FetchData | base/gateway/packet_base.h:424-445 | Windows of their own on exactly the first `size()` bytes; windows held elsewhere stay exclusive |
| PacketValues.ReadsBack | base/gateway/packet_base.h:229-235 | Reading an encoded value gives it back if and only if it fits its type; a string if and only if it is shorter than 65536 bytes |
| PacketValues.EncodingBytes | base/gateway/packet_base.h:448-462 | The bytes of truth values, integers of either sign and strings, one by one |
| PacketValues.WriteAll | base/gateway/packet_base.h:448-462 | Typed writes in sequence put the concatenated encodings at the cursor |
| PacketValues.ReadValue | base/gateway/packet_base.h:259-272 | A typed read from chunked bytes is the read from the flat bytes, failure included |
| PacketValues.RoundTrip | base/gateway/packet_base.h:424-445 | Write any list of fitting values, fetch the data, read it as a packet: the same list, for every chunk size and approximate size |
| Bytes.LittleEndianRoundTrip | base/gateway/packet_base.h:259-272 | Writing and reading back `k` bytes gives the number modulo 256^k |
| Bytes.ByteAt | base/gateway/packet_base.h:259-272 | The byte at place `i` is the digit of 256^i: the lowest byte comes first |
| Bytes.AssembledFrom | base/gateway/packet_base.h:259-272 | Two, three and four bytes are a + 256 b + 65536 c + 16777216 d |
| Mysql.WireRoundTrip | base/dbo_bk/internal/packet.h:243-247 | A packet is cut off the stream and read back as itself if and only if its payload is below 2^24 bytes |
| Mysql.NeverBroken | base/dbo_bk/internal/packet.h:198-205 | The check in `ReadHead` never throws on a packet that the framing loop has cut |
| Mysql.CutSplit | base/dbo_bk/internal/realconnection.cpp:55-73 | Segmentation of the input does not change the packets |
| Mysql.StreamIsCut | base/dbo_bk/internal/realconnection.cpp:55-73 | A stream of packets, with an incomplete one behind it, is cut into these packets and that rest |
| Mysql.OnReceive | base/dbo_bk/internal/realconnection.cpp:55-73 | Hands over exactly the complete packets that are queued and leaves the rest; the first one is told by its first three bytes, the lowest first |
| Mysql.ServerPacket | base/dbo_bk/internal/realconnection.cpp:58-60 | A packet that begins with the low, middle and high byte of its payload length is cut off as it was sent |
| HttpTheorems.ResponseIsDelivered | base/3rd/http_parser/http_parser.c:1651-1815 | For every well-formed response, chunked with trailers and extensions, with a Content-Length below 2^64-1, without a body, or up to the end of the connection: no error, the body callbacks concatenate to the original body, and message-complete fires exactly once, last |
| HttpLengths.LengthIsExact | base/3rd/http_parser/http_parser.c:1452-1473 | On whole Content-Length lines: the parser goes on with the number that the value spells if and only if the value is digits, with spaces behind the first one, below 2^64-1 |
| HttpLengths.ReadLengthLine | base/3rd/http_parser/http_parser.c:1413-1477 | For every value the run over the line keeps exactly what the 64-bit arithmetic arrives at, and ends in the content-length error exactly where that refuses the value |
| HttpLengths.OverflowIsMissed | base/3rd/http_parser/http_parser.c:1465-1473 | The overflow test misses some lengths: the run over a line with 3 followed by 19 zeros goes on without error and with another length |
| HttpLengths.SuchALine | base/3rd/http_parser/http_parser.c:1465-1473 | Such a line can follow any status line |
| HttpTheorems.ReadHead | base/3rd/http_parser/http_parser.c:1560-1649 | A head is reported as its fields in order, and the parser is left in the body state that the framing rules select |
| HttpTheorems.ReadChunkedBody | base/3rd/http_parser/http_parser.c:1690-1815 | A chunked body with trailers yields its data, its trailer fields and one message-complete |
| HttpLiterals.PrintedResponse | base/3rd/http_parser/http_parser.c:1651-1815 | A whole 200 response, byte for byte, with chunk sizes printed in hexadecimal in either case: the body is exactly the pieces, it completes once, last, and the connection stays open |
| HttpLiterals.ReadPrintedChunks | base/3rd/http_parser/http_parser.c:1699-1815 | Chunks with sizes printed by repeated division by 16 yield their data, from any parser that expects a chunk |
| HttpLiterals.HexDigits | base/3rd/http_parser/http_parser.c:188-197 | The digits 0 to 9, A to F and a to f have their values, and nothing else is a digit |
| HttpLiterals.TokenCharacters | base/3rd/http_parser/http_parser.c:153-185 | Letters are folded to lower case, digits and fifteen marks are tokens, and nothing else is |
| HttpLiterals.LetterCase | base/3rd/http_parser/http_parser.c:366 | Letters of either case are taken for the same, other characters for no letter |
| HttpLiterals.HeaderWords | base/3rd/http_parser/http_parser.c:1181-1558 | What `Transfer-Encoding: chunked`, `Connection: close`, `Connection: keep-alive`, `Upgrade`, `Content-Length: 120` and other lines mean, in that spelling |
| HttpLiterals.PrintedStatus | base/3rd/http_parser/http_parser.c:680-877 | A status line with decimal numbers below 1000 and any reason sets these numbers |
| HttpLiterals.HeaderLimit | base/3rd/http_parser/http_parser.c:643-650 | The header region may have 81920 bytes and no more |
| HttpKeepAlive.ConnectionPersists | base/3rd/http_parser/http_parser.c:1878-1895 | After every well-formed response that does not last to the end of the connection: the parser expects another one if and only if no line or trailer says `close`, or, for versions with a 0 in them, if one says `keep-alive` |
| HttpKeepAlive.FourResponses | base/3rd/http_parser/http_parser.c:1878-1895 | The four cases of versions 1.1 and 1.0, with and without the word, byte for byte |
| HttpBodies.FramingFollowsRfc | base/3rd/http_parser/http_parser.c:1608-1649 | The selected framing is that of section 4.4 of RFC 2616 if and only if the response is to HEAD, or its status allows a body, or it announces none |
| HttpBodies.NotModifiedWithLength | base/3rd/http_parser/http_parser.c:1608-1649 | A 304 with a Content-Length is the exception: the parser waits for a body |
| HttpBodies.ReadBlankLine | base/3rd/http_parser/http_parser.c:1560-1649 | The blank line ends the head: headers-complete, and message-complete at once when there is no body |
| HttpBodies.ReadLength | base/3rd/http_parser/http_parser.c:1651-1683 | Exactly the announced number of bytes are body bytes, then the message is complete |
| HttpBodies.ReadUntilClose | base/3rd/http_parser/http_parser.c:1685-1688 | Without a length every byte is body, and the end of the connection completes the message |
| HttpBodies.ReadChunks | base/3rd/http_parser/http_parser.c:1699-1815 | Chunks with sizes in hexadecimal, leading zeros and extensions yield their data only |
| HttpResponse.ReadStatus | base/3rd/http_parser/http_parser.c:680-877 | A status line sets version and status to its decimal numbers |
| HttpHeaders.NameStep | base/3rd/http_parser/http_parser.c:1181-1359 | The incremental matching of header names keeps exactly the state that the name so far determines |
| HttpHeaders.WordStep | base/3rd/http_parser/http_parser.c:1361-1523 | The matching of `chunked`, `keep-alive` and `close` is that of the whole value, without regard to case and with trailing spaces |
| HttpHeaders.ValueStateStep | base/3rd/http_parser/http_parser.c:1361-1523 | The same for the values of every recognised header |
| HttpFraming.ReadLine | base/3rd/http_parser/http_parser.c:1181-1558 | A header line is reported byte for byte and changes flags and length as its name and value say |
| HttpFraming.ReadLines | base/3rd/http_parser/http_parser.c:1181-1558 | A sequence of header lines has the effect of one after the other |
| HttpExecute.HttpParser.Execute | base/3rd/http_parser/http_parser.c:580-1852 | The loop with marks, bulk copies and re-executed bytes is the fold of single bytes: same state, same error, same number of bytes consumed, and without an error the same callback data |
| HttpExecute.HttpParser.ExecuteByte | base/3rd/http_parser/http_parser.c:640-1821 | One iteration of the loop, its bulk copies included, is that many steps of the fold; data between the marks is accounted for |
| HttpExecute.HttpParser.ExecuteEof | base/3rd/http_parser/http_parser.c:598-617 | The empty buffer: completes a body without length, is ignored between messages, is an error anywhere else |
| HttpExecute.HttpParser.constructor | base/3rd/http_parser/http_parser.c:1905-1914 | The parser starts before a response and satisfies its invariant |
| HttpExecute.BulkRead | base/3rd/http_parser/http_parser.c:1651-1683 | Taking a run of body bytes at once is the same as taking them one by one |
| HttpSafety.NoAssertFails | base/3rd/http_parser/http_parser.c:1656-1804 | From the initial state no input makes an assertion of the parser fail, and the header words are never read beyond their end |
| HttpSafety.RunIsSafe | base/3rd/http_parser/http_parser.c:620-1844 | The invariant behind that (body states have a length left, chunk states the flag, counters their ranges) holds along every run |
| HttpSafety.SwitchKeepsLegal | base/3rd/http_parser/http_parser.c:653-1821 | Every pass through the switch keeps the invariant |
| HttpSplit.SplitIsInvisible | base/3rd/http_parser/http_parser.c:1608-1619 | Two calls on the parts of any buffer are one call on the whole if and only if the first part does not end with the line feed that ends the headers of a message with an upgrade |
| HttpSplit.UpgradeIsAtTheEnd | base/3rd/http_parser/http_parser.c:1608-1619 | Parsing stops without error behind exactly such a line feed and nowhere else |
| HttpUpgrade.CutsOfUpgrade | base/3rd/http_parser/http_parser.c:1608-1619 | A response with a recognised Upgrade header, and anything behind it, can be cut anywhere if and only if the cut is not right behind its head |
| HttpUpgrade.CutsOfResponse | base/3rd/http_parser/http_parser.c:620-1844 | A well-formed response without upgrade can be cut anywhere |
| HttpUpgrade.ReadUpgrade | base/3rd/http_parser/http_parser.c:1608-1619 | The head of such a response is read to its end and not beyond: headers-complete and message-complete come, and no error |
| HttpUpgrade.UpgradeSplits | base/3rd/http_parser/http_parser.c:1608-1619 | A 101 response with `Upgrade: x`, cut right behind its blank line, is parsed differently in one call and in two |
| HttpSplit.FoldAppend | base/3rd/http_parser/http_parser.c:640-1821 | Running over a concatenation is running over its parts |
| HttpSplit.HttpClient.OnReceive | base/http/httpclient.cpp:93-104 | Feeding the parser window by window is feeding it the concatenation, unless an upgrade is met; it reports an error exactly when the parser stops, and after an error nothing is parsed or called back any more |
| ClusterSafety.RegistriesAgree | base/cluster/nodemonitor.cpp:156-238 | In every state of every run: a node has no names of a node it is not connected with; for each connection whose two ends are authenticated, replaying the packets in flight onto the receiver's entries gives exactly the sender's own names |
| ClusterSafety.QuietRegistriesAgree | base/cluster/nodemonitor.cpp:458-483 | With nothing in flight the receiver's entries are the sender's names with their ids |
| ClusterSafety.RunKeeps | base/cluster/nodemonitor.cpp:156-238 | The network invariant holds along every run of connects, openings, deliveries, closes, creations and destructions |
| ClusterSafety.StepKeeps | base/cluster/nodemonitor.cpp:156-238 | Every step keeps the network invariant |
| ClusterSafety.CreateKeeps | base/cluster/nodemonitor.cpp:365-380 | Registering a name and broadcasting it keeps the invariant |
| ClusterSafety.DropKeeps | base/cluster/nodemonitor.cpp:382-391 | So does unregistering, also the unregistering done by a failed creation |
| ClusterSafety.AuthKeeps | base/cluster/nodemonitor.cpp:156-167 | So does authentication with its full synchronisation |
| ClusterSafety.ReceiveKeeps | base/cluster/nodemonitor.cpp:200-238 | So does handling a registration or an unregistration |
| ClusterSafety.CloseKeeps | base/cluster/nodemonitor.cpp:182-198 | So does the end of a connection with the purge of the other node's names |
| Cluster.SyncRebuilds | base/cluster/nodemonitor.cpp:458-468 | The synchronisation of a new connection replays to exactly the local names |
| Cluster.LinkSend | base/cluster/nodemonitor.cpp:393-414 | A broadcast packet keeps the mirror relation |
| Cluster.LinkReceive | base/cluster/nodemonitor.cpp:200-227 | Handling the first packet in flight keeps the mirror relation |
| Cluster.QualifiedInjective | base/cluster/nodemonitor.cpp:205-223 | Names qualified with node names are not confused |
| Registry.NodeMonitor.RegisterMailbox | base/cluster/nodemonitor.cpp:365-380 | Fails exactly for a name in use; otherwise assigns an id, adds the name, tells every connection once and answers the matching lookups |
| Registry.NodeMonitor.UnRegisterMailbox | base/cluster/nodemonitor.cpp:382-391 | Removes the mailbox and its name, tells every connection once and clears the id |
| Registry.NodeMonitor.Create | base/cluster/mailbox.cpp:11-24 | Creating a name in use fails and removes that name: a name is registered after `Create` if and only if it was not before |
| Registry.NodeMonitor.OnConnectorAuthSuccess | base/cluster/nodemonitor.cpp:156-167 | A second connection of a node stops the monitor; otherwise the connection is added and gets the local names |
| Registry.NodeMonitor.OnNodeUp | base/cluster/nodemonitor.cpp:458-468 | One registration for every local name, on the new connection only |
| Registry.NodeMonitor.OnConnectorReceiveMessage | base/cluster/nodemonitor.cpp:200-227 | Adds or removes the name qualified with the sender's node name; matching lookups are answered |
| Registry.NodeMonitor.OnConnectorClose | base/cluster/nodemonitor.cpp:182-198 | Removes the connection and exactly the names whose id belongs to that node |
| Registry.NodeMonitor.OnNamedMailboxUp | base/cluster/nodemonitor.cpp:444-450 | Keeps an entry that is there already; matching lookups are answered |
| Registry.NodeMonitor.FetchNamedMailbox | base/cluster/nodemonitor.cpp:485-508 | Answers at once if and only if a registered name matches; otherwise the lookup waits |
| Registry.NodeMonitor.CheckAsyncFetchList | base/cluster/nodemonitor.cpp:510-526 | When the callbacks bring up no names: answers the waiting lookups that match, in order, drops the abandoned ones, keeps the others in order |
| Lookups.PassIsPlain | base/cluster/nodemonitor.cpp:510-526 | When they do: the pass does the same if and only if no callback run in it brings up a name that a lookup still in the list waits for, the called one included |
| Lookups.LookupList.CheckAsyncFetchList | base/cluster/nodemonitor.cpp:510-526 | The loop, started anew on the same list by its own callbacks, does what the pass specification says, and comes to the erased entry exactly where that does |
| Lookups.PassAccountsForAll | base/cluster/nodemonitor.cpp:510-526 | Whatever names the callbacks bring up: unless a lookup is erased under its own callback, every one waits on, has been dropped as abandoned, or has been called, once, with a name that it matches |
| Lookups.PassAnswers | base/cluster/nodemonitor.cpp:512-524 | The same for a pass with new names: dropped linkers are forgotten, matching lookups are called, the others wait on unless a new name was theirs |
| Lookups.CalledAgain | base/cluster/nodemonitor.cpp:518-521 | A lookup for `a*` whose callback answers `a1` by creating `a2` is called again and erased while its callback runs |
| Registry.NodeMonitor.Gen | base/cluster/nodemonitor.h:259-270 | Process ids fit 24 bits; system ids ascend, the others stay at 1000 or above |
| Registry.NodeMonitor.Broadcast | base/cluster/nodemonitor.cpp:393-414 | The packet goes to each authenticated connection exactly once |
| Registry.WaitersAccountedFor | base/cluster/nodemonitor.cpp:510-526 | In a pass without new names no lookup is both answered and kept, none is lost unless abandoned, and only matching ones are answered |
| Registry.AnsweredOrWaiting | base/cluster/nodemonitor.cpp:512-524 | A lookup with a linker that has been dropped is neither called nor kept; any other one is called if it matches and kept if it does not |
| Registry.InListOrder | base/cluster/nodemonitor.cpp:512-524 | Calls and kept lookups are in the order of the list |
| Registry.UpKeepsWaiters | base/cluster/nodemonitor.cpp:444-526 | No waiting lookup matches a registered name, before and after a name comes up |
| Matcher.IsProcessNameMatch | base/cluster/nodemonitor.h:82-123 | For nonempty matchers the loop with two cursors and a flag decides the recursive pattern relation |
| Matcher.MatchesExact | base/cluster/nodemonitor.h:82-123 | A matcher without stars matches itself only |
| Matcher.MatchesAnyNode | base/cluster/nodemonitor.h:82-123 | `name@*` matches the name itself and the name on every node |
| Matcher.MatchesStar | base/cluster/nodemonitor.h:82-123 | A star in front of a node name stands for exactly one run without `@` |
| JsonReader.WriteAndParse | base/3rd/rapidjson/document.h:488-523 | Writing a tree with an array or object root and parsing the text builds a tree with the same meaning: equal structure, byte strings, truth values and integers |
| JsonReader.ParseStream | base/3rd/rapidjson/reader.h:210-237 | Accepts exactly the texts of the grammar specification, and the stack machine then holds the one tree that the text means |
| JsonSpacing.SpacedDocument | base/3rd/rapidjson/reader.h:86-97 | The bytes 9, 10, 13 and 32, in any number before, between and behind the tokens of an array or object, leave the tree the same |
| JsonSpacing.SkipsBlanks | base/3rd/rapidjson/reader.h:86-97 | Exactly these four bytes are skipped |
| JsonSpacing.BareIsWritten | base/3rd/rapidjson/writer.h:196-216 | Without them such a text is the written one |
| JsonSpacing.BadItems | base/3rd/rapidjson/reader.h:300-310 | A comma without an element behind it, and elements without a comma between them, are refused |
| JsonSpacing.BadMembers | base/3rd/rapidjson/reader.h:258-283 | So are names that are no strings, a missing colon, a comma without a member, and members without a comma |
| JsonSpacing.BadDocuments | base/3rd/rapidjson/reader.h:222-234 | So are roots other than arrays and objects, and anything behind the root |
| JsonReader.ParseValue | base/3rd/rapidjson/reader.h:638-650 | A value pushes exactly one tree, the one the text means, and leaves the stack below it |
| JsonReader.ParseArray | base/3rd/rapidjson/reader.h:286-311 | The elements on the stack are folded into the array below them |
| JsonReader.ParseObject | base/3rd/rapidjson/reader.h:243-284 | Names and values on the stack are folded into the object below them |
| JsonReader.DocumentStack.EndArray | base/3rd/rapidjson/document.h:783-786 | The last values become the elements of the array below them |
| JsonReader.DocumentStack.EndObject | base/3rd/rapidjson/document.h:776-779 | The last pairs of values become the members of the object below them |
| JsonReader.NumberMeans | base/3rd/rapidjson/document.h:70-107 | The type flags that a parsed number gets tell the truth about its value |
| JsonDom.Writer.Accept | base/3rd/rapidjson/document.h:487-523 | Driving the writer with a tree writes the separator, the text of the tree, and counts one value on its level |
| JsonDom.Writer.Prefix | base/3rd/rapidjson/writer.h:201-216 | A comma, a colon or nothing, as the level and its count of values demand |
| JsonDom.Writer.WriteInteger | base/3rd/rapidjson/document.h:514-519 | Whatever typed event the flags select, the decimal text of the number is written |
| JsonTree.DocumentRoundTrip | base/3rd/rapidjson/reader.h:210-237 | Parsing the text of a tree gives the tree, with nothing behind it |
| JsonTree.TreeRoundTrip | base/3rd/rapidjson/reader.h:638-650 | The same for a value in front of anything that does not continue a number |
| JsonString.StringRoundTrip | base/3rd/rapidjson/reader.h:370-466 | Every byte string, control and zero bytes included, is read back as it was |
| JsonLiterals.EscapeTable | base/3rd/rapidjson/writer.h:164-194 | What the writer makes of each of the 256 bytes |
| JsonLiterals.UnescapeTable | base/3rd/rapidjson/reader.h:374-380 | What the reader makes of each character behind a backslash |
| JsonLiterals.SurrogatePair | base/3rd/rapidjson/reader.h:411-422 | Two escapes with ten bits each are one code point from 65536 on |
| JsonLiterals.PlainCodePoint | base/3rd/rapidjson/reader.h:409-411 | An escape with four hexadecimal digits is that code point |
| JsonLiterals.UnpairedSurrogate | base/3rd/rapidjson/reader.h:411-420 | A first surrogate without a second one is an error |
| JsonLiterals.Utf8Bytes | base/3rd/rapidjson/rapidjson.h:325-345 | The bytes of every code point |
| JsonString.WriteString | base/3rd/rapidjson/writer.h:164-194 | The loop writes the quoted string with its short and hexadecimal escapes |
| JsonString.ParseString | base/3rd/rapidjson/reader.h:370-466 | The loop decodes exactly what the string grammar of section 2.5 of RFC 4627 means, and fails exactly where that fails |
| JsonString.ParseHex4 | base/3rd/rapidjson/reader.h:346-368 | Four hexadecimal digits of either case, or an error |
| JsonString.ParseCodePoint | base/3rd/rapidjson/reader.h:409-422 | A code point, or a pair of surrogates joined; an unpaired high surrogate is an error |
| JsonString.EncodeIsUtf8 | base/3rd/rapidjson/rapidjson.h:325-345 | The encoded bytes decode to the code point, with the lead and continuation bytes and the length of UTF-8 |
| JsonNumber.IntegerTypes | base/3rd/rapidjson/reader.h:468-636 | A literal becomes Uint, Uint64, Int or Int64 exactly in its range, with the exact value, a double beyond, and an error from 10^308 on |
| JsonNumber.ParseDouble | base/3rd/rapidjson/reader.h:539-550 | Further digits are given up exactly when the number so far has reached 10^307 and another digit follows |
| JsonLiterals.DoubleText | base/3rd/rapidjson/reader.h:552-618 | A number with a fraction or an exponent is taken as its text and no more |
| JsonLiterals.FractionText | base/3rd/rapidjson/reader.h:552-577 | A point needs a digit behind it |
| JsonLiterals.ExponentText | base/3rd/rapidjson/reader.h:579-613 | An exponent may have a sign, needs a digit, and is at most 308 |
| JsonNumber.NumberRoundTrip | base/3rd/rapidjson/reader.h:468-636 | Every integer from -2^63 to 2^64-1 is read back exactly |
| JsonNumber.ParseNumber | base/3rd/rapidjson/reader.h:468-636 | The loops never wrap around and compute exactly what the number grammar means |
| JsonNumber.ParseInteger | base/3rd/rapidjson/reader.h:478-537 | The 32-bit and 64-bit accumulators hold the exact value of the digits, and give up exactly above their limits |
| JsonNumber.ParseInteger64 | base/3rd/rapidjson/reader.h:515-550 | Goes on in 64 bits exactly where 32 bits do not suffice, and beyond them as a double |
| JsonNumber.WriteUnsigned | base/3rd/rapidjson/writer.h:115-149 | The digits fit the buffer and come out as the decimal text |
| JsonNumber.WriteSigned | base/3rd/rapidjson/writer.h:107-135 | Right also for the smallest number, whose negation wraps around |
| JsonNumber.Buffers | base/3rd/rapidjson/writer.h:115-149 | Ten digits hold every 32-bit number, twenty every 64-bit number |
| JsonNumber.DecimalOfDigits | base/3rd/rapidjson/writer.h:115-149 | The decimal text of a number has its value |
| ConnectionPool.DrainKeeps | base/dbo_bk/internal/realconnectionpool.cpp:113-127 | Granting, with every re-entrant return, keeps free, busy and pending duplicate-free, disjoint and within the pool size |
| ConnectionPool.DrainIsFifo | base/dbo_bk/internal/realconnectionpool.cpp:113-127 | Waiters are granted in the order of their arrival, and none is skipped or forgotten |
| ConnectionPool.DrainConserves | base/dbo_bk/internal/realconnectionpool.cpp:113-148 | Granting neither invents connections nor loses open ones |
| ConnectionPool.RealConnectionPool.CheckAquireList | base/dbo_bk/internal/realconnectionpool.cpp:113-127 | The loop, re-entered by callers that give a connection back while they are granted it, does what repeated granting does: the first free connection goes to the first waiter, a caller that somebody holds has its connection to itself, and any other caller gives it back |
| ConnectionPool.DrainHolds | base/dbo_bk/internal/realconnectionpool.cpp:122-125 | Of all new grants: a caller that somebody holds keeps its connection, which is busy and not free; the connection of any other caller is free if open and gone if not, unless somebody else keeps it now |
| ConnectionPool.DrainServesFirst | base/dbo_bk/internal/realconnectionpool.cpp:115-121 | The first new grant is of the first free connection to the first waiter |
| ConnectionPool.RealConnectionPool.Return | base/dbo_bk/internal/realconnectionpool.cpp:138-148 | A returned connection that is open is free again, or goes to the first waiter; a closed one is in no list |
| ConnectionPool.RealConnectionPool.ReleaseRealConnection | base/dbo_bk/internal/realconnectionpool.cpp:138-148 | An open connection becomes free and is granted on; a closed one is forgotten |
| ConnectionPool.RealConnectionPool.AquireRealConnection | base/dbo_bk/internal/realconnectionpool.cpp:105-111 | The caller waits or is served, and the pool is filled up to its size |
| ConnectionPool.RealConnectionPool.CheckCreateMore | base/dbo_bk/internal/realconnectionpool.cpp:129-136 | Creates exactly the connections that are missing |
| ConnectionPool.RealConnectionPool.OnAuthSuccess | base/dbo_bk/internal/realconnectionpool.cpp:93-98 | A pending connection becomes free and serves those who wait |
| ConnectionPool.RealConnectionPool.OnClose | base/dbo_bk/internal/realconnectionpool.cpp:85-91 | A closed connection leaves all three lists |
| ConnectionPool.RealConnectionPool.OnConnectFail | base/dbo_bk/internal/realconnectionpool.cpp:79-83 | A failed connection leaves the pending list |
| ConnectionPool.RealConnectionPool.Cleanup | base/dbo_bk/internal/realconnectionpool.cpp:46-73 | Nobody waits any more, and of free and pending exactly the still open ones stay |
| TextRow.RowReaderText.GetString | base/dbo_bk/internal/rowreadertext.cpp:153-166 | The column as it was encoded, in any order and any number of times, wherever the packet is cut into chunks; null columns fail |
| TextRow.RowReaderText.IsNull | base/dbo_bk/internal/rowreadertext.h:36-38 | True exactly for the null columns |
| TextRow.RowReaderText.ParseRowPacket | base/dbo_bk/internal/rowreadertext.cpp:21-79 | The recorded positions are those of the columns |
| TextRow.ReadVariableInteger | base/dbo_bk/internal/packet.h:141-162 | Reads every length back that is written in one, three or nine bytes |
| TextRow.ReadLengthEncodedString | base/dbo_bk/internal/packet.h:173-178 | Reads every such string back that stands at the cursor |
| TextRow.CurrentByte | base/dbo_bk/internal/packet.h:124-127 | The flat byte at the cursor |
| TextRow.VariableIntegerBytes | base/dbo_bk/internal/packet.h:249-265 | The three written forms, by their first byte |
| TextRow.ColumnBytes | base/dbo_bk/internal/packet.h:249-265 | A null column is the byte 251; a text is its length in one byte, or 252 and two bytes, and the text |
| RingBuffer.FirstInFirstOut | robot/utility/circular_buffer.h:22-82 | For every sequence of operations: what was taken out followed by what is held is exactly what was accepted |
| RingBuffer.UseBuffer | robot/utility/circular_buffer.h:22-106 | The buffer behaves as a bounded queue over every sequence of operations |
| RingBuffer.CircularBuffer.Write | robot/utility/circular_buffer.h:22-48 | Appends all or nothing, exactly when there is room; no held byte is overwritten by either copy |
| RingBuffer.CircularBuffer.WriteAcross | robot/utility/circular_buffer.h:30-37 | The same for a block that crosses the border, whose first copy runs into the second half |
| RingBuffer.CircularBuffer.WriteTwice | robot/utility/circular_buffer.h:38-46 | The same for a block that is written into both halves |
| RingBuffer.CircularBuffer.Read | robot/utility/circular_buffer.h:50-82 | Removes and returns the oldest bytes, all or nothing |
| RingBuffer.CircularBuffer.SoftRead | robot/utility/circular_buffer.h:84-106 | Returns them without removing |
| Base64.EncodeAndDecode | base/utils/crypto.cpp:65-125 | Decoding an encoded nonempty byte string gives it back, also with white space or padding inserted anywhere |
| Base64.Encode | base/utils/crypto.cpp:65-98 | The letters of the sextets and the padding, 4*ceil(n/3) of them, although the accumulator keeps old bits |
| Base64.Decode | base/utils/crypto.cpp:100-125 | The bytes that the letters stand for, or the exception exactly when there is another character |
| Base64.SextetsGiveBack | base/utils/crypto.cpp:65-125 | The groups of six bits, the last one filled with zeros, give the bytes back |
| Base64.ThreeBytes | base/utils/crypto.cpp:82-89 | Three bytes are the four base-64 digits of a 24-bit number, as section 4 of RFC 4648 has it |
| Base64.Alphabet | base/utils/crypto.cpp:58-62 | The 64 letters, one by one, and no others |
| Base64.Examples | base/utils/crypto.cpp:65-98 | The texts for `f`, `fo` and `foo` are those of section 10 of RFC 4648 |
| Base64.PassedOver | base/utils/crypto.cpp:110-113 | The six bytes of white space and the padding are passed over, and nothing else |
| Scheduler.LogIsOrdered | base/command/runnermgr.h:32-64 | Commands are set up, executed and cleaned up strictly one after the other, each event at most once |
| Scheduler.TriedKeepsOrder | base/command/runnermgr.h:32-64 | Every attempt keeps a log of that form and at most the front command running |
| Scheduler.CommandQueue.TryExecute | base/command/runnermgr.h:32-64 | The front command is set up unless it runs, executed only if its setup succeeds, cleaned up once it is to stop, and leaves when refused or cleaned up; reports whether the queue is empty |
| Scheduler.RunnerMgr.Update | base/command/runnermgr.cpp:21-43 | Every registered queue is visited exactly once while the list is being erased from; those of dead Runners and empty ones leave, the others stay in order |
| Scheduler.RunnerMgr.PushCommand | base/command/runner.cpp:18-22 | The command goes behind the others, and the queue is registered once |
| Scheduler.IntrusiveList.Erase | base/utils/intrusive_list.h:61-83 | Head, links in both directions, size and membership agree with the sequence without the item; the next item is returned |
| Scheduler.IntrusiveList.PushFront | base/utils/intrusive_list.h:85-98 | The same with the item in front |
| Timer.TimerQueue.Update | base/timer.h:68-92 | Action by action: the later ones stay, due intervals come back at the tick plus the interval, due ones that are wanted are called, and nothing else is called or queued but what these set up |
| Timer.CalledInTurn | base/timer.h:72-83 | Calls come in the order of the queue, and only to those still wanted in their turn |
| Timer.DroppedIsUnwanted | base/timer.h:40-44 | Whoever has had its linker dropped by a called action is not wanted any more |
| Timer.RunUpdates | base/timer.h:68-92 | Over any sequence of updates an interval that nobody wants any more is never called and never leaves the queue |
| Timer.TimerQueue.EmplaceAll | base/timer.h:85-91 | Later actions go behind the due ones, which stay what they were |
| Timer.TimerQueue.Set | base/timer.h:94-111 | The action becomes due after its delay, behind those that are due at the same time |
| Timer.SortedInsert | base/timer.h:94-111 | Inserting keeps the order and adds just that action |

## Left out

Deliberately narrower contracts:

- JsonNumber.ParseNumber: a number that is no integer in range keeps its text as its value; the conversion to a double and its rounding are not modelled.
- JsonNumber.ParseDouble: the comparison with 1E307 is that of the exact number, not of its double; the two can differ for numbers within a rounding error of 10^307.
- JsonReader.ParseStream: floating-point values are their texts, as for JsonNumber.ParseNumber.
- JsonReader.WriteAndParse: trees with doubles are excluded, because `%g` does not print them exactly.
- HttpHeaders.ValueStateStep: the digits of Content-Length have lemmas of their own, because they change the length and not the header state.
- HttpTheorems.ResponseIsDelivered: the head, and each line of the trailers, must fit the parser's limit of 80 KiB; a response with a recognised Upgrade header is left to `HttpSplit.SplitIsInvisible`.
- HttpSplit.HttpClient.OnReceive: nothing is said about what follows a completed upgrade.
- TextRow.ReadVariableInteger: three-byte lengths are excluded, because the code leaves the top byte of its buffer unset (`base/dbo_bk/internal/packet.h:152`).
- TextRow.RowReaderText.ParseRowPacket: only columns of the string types; the numeric types go through `strtol` and its relatives.
- Base64.Encode: the empty string is excluded, because the function's own assertion fails on it (`base/utils/crypto.cpp:95`).
- Timer.TimerQueue.Update: actions set up only actions that are due later than the tick of the update; one that is due at once would be called in the same update, and could keep it from ending.
- Scheduler.RunnerMgr.Update: commands neither push commands nor end Runners while they are executed.
- Registry.NodeMonitor.CheckAsyncFetchList: callbacks that create mailboxes while the list is being visited are not part of the monitor's class; `Lookups` has the pass with them, and the condition under which it is the same: no name that a callback brings up is waited for by a lookup still in the list.
- Registry.WaitersAccountedFor: under the same condition; `Lookups.PassAccountsForAll` has the general case.
- Lookups.LookupList.CheckAsyncFetchList: a callback brings up at most one name, and drops no linkers.
- Registry.NodeMonitor.OnConnectorAuthSuccess: the setup state and the node-up event are not modelled.
- Registry.NodeMonitor.OnConnectorReceiveMessage: only the registry's own messages.
- Registry.NodeMonitor.OnConnectorClose: the connection is authenticated; the end of an anonymous one, which changes no names, is a step of `Cluster`, and the setup, rollback and cleanup states are not modelled.
- ConnectionPool.RealConnectionPool.CheckAquireList: a caller that is granted a connection may give it back at once, but does not ask for another one before its callback returns.
- ConnectionPool.RealConnectionPool.AquireRealConnection: the same.
- Registry.NodeMonitor.Gen: process ids come round after 2^24, and uniqueness after that is not claimed; more than 9999 system ids trip the code's assertion.

Not modelled:

- Sockets, epoll and error numbers: `readv` and `writev` are byte counts; `Close`, failed reads and the connect phase of `Client` are not part of this model.
- `Client::PopReceive(char*, ...)`, which does not advance its destination over several windows.
- The 32-bit width of packet cursors, sizes and reference counts; the model's are unbounded, and messages are below 2^32 bytes.
- `RefMemoryChunk::operator=` onto itself.
- Packet fields of floating type, and `PacketOut::AppendData`.
- Event handlers that re-enter a connection while it delivers messages.
- HTTP requests, URLs, pausing, nonzero results of callbacks other than headers-complete, and the line number of errors.
- The monitor's setup, rollback and cleanup states, `CloseAll`, events for listeners, cookies and the configuration lookup; a node that has stopped because of a duplicate id takes no more steps; nodes do not connect to themselves, have distinct names and ids, and local names contain no `@`.
- Mailbox messages other than the registry's own (their transport is the byte pipeline).
- In-situ JSON parsing, the allocators, and the vectorised white space loops.
- The manager of several connection pools and the probing of connections; `OnAuthFail` only writes to the log.
- Prepared statements and the binary row format.
- `Timer::StopAll` and the destructors, which only release.
- The dispatcher, the Lua bindings, files, logging, configuration, hashing and the game servers.
