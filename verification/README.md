# Verified model of libonion's core and of the DMP memory driver

The web server inside this repository (`onion/`) parses requests as they trickle in, keeps
headers, queries and sessions in a self-balancing dictionary, and writes buffered, possibly
chunked, responses; `RTController/I2C/MPU6050.cpp` loads firmware into the banked memory of a
motion sensor. This project models those parts in Dafny, with the same branches, limits and
error answers, and proves what they keep, what they undo and where they stop doing what they
are for. `dafny verify dfyconfig.toml` checks everything.

Code that works in place is modelled in place: tree nodes with links, levels and flags
(`DictHeap`), the token buffer of the request parser (`RequestReader`), the multipart matcher,
the response with its 1500-byte buffer, the query text that is cut and unquoted where it
stands, the growable block, the WebSocket reader, the device registers, the session store, the
poller's linked list. Each such method is proved equal to a function or relation over values,
and the theorems are about those.

| files | what they model |
|---|---|
| `DictKeys`, `AATree`, `DictOrder`, `DictRuns` | the AA tree as a value: level rules, order, the map and the ownership it implements over whole runs |
| `DictHeap`, `DictCopy` | the same tree as nodes rewritten in place; deep copies |
| `RequestParser`, `RequestReader`, `HeaderFolds`, `HeaderOrder` | the request head as a byte machine; the code that runs it chunk by chunk; folded values; the header dictionary |
| `Multipart`, `Bodies`, `Upload` | the multipart file reader; PUT, urlencoded and plain bodies; a head and its body together |
| `Quote`, `Query`, `WholeRequest` | percent quoting, the in-place query splitter, a request from print to parse |
| `Chunked`, `Response` | chunked coding and the response writer |
| `Base64`, `CQuote`, `Block`, `Json` | the codecs, the growable block, dictionaries as JSON |
| `WebSocket` | frames written and read |
| `DmpMemory` | block transfers and configuration sets |
| `Sessions` | reference counted sessions shared by requests |
| `Poller` | one round of the event loop over the slot list |
| `CText`, `Wrappers` | C strings and shared types |

What comes from outside is a parameter: how much a socket takes or gives (`cuts`), what a
callback answers (`script`), what a faulty device stores (`noise`), the clock, fresh session
ids. They range over every possibility.

Where the code and its evident intention part, the model follows the code and a lemma or a
contract says exactly where.

- `OnlyHarmfulCutsMatter`: one write accepts a request head exactly when the pieces are accepted
  and no cut stands right behind a token of 8191 bytes or, unless it parts a CRLF, behind the byte
  after the version. `RejectionDependsOnTheCut` and `LongTokenDependsOnTheCut` are the inputs.
- `HangsExactly`: a write does not come back exactly if it meets a NUL where a header line may begin.
- `SurvivesExactly`: a folded header value is read whole exactly if no line of it but the last
  ends in CRLF.
- `ContentNeedsOneChunk`: a body with a Content-Length is right exactly when its first chunk holds
  it all. `ReadForm`: a form declared empty waits for a byte before it is processed.
- `RemovalIsCleanExactly`: removal takes out the entry found and no other exactly when the entry
  that moves up is the one a search of its key finds below. `RemoveConfusesTwins` is the input and
  `TwinsArise` how it comes about.
- `HardDupCopies`: a deep copy has the same content exactly when every level was in `strcmp` order;
  `CaseIsForgotten` is an input where it was not.
- `HeadWriteEnds`: a first write to a HEAD response ends exactly when it brings the buffer to no
  more than twice its size. `Response.Free`: freeing a response whose headers are still unsent
  leaves at least its last byte in the buffer, which is why a handler's response is flushed before
  it is freed; and a response nothing was written to sends nothing at all, not even headers.
- `WrittenIsRead` and `ShortWritesLoseTheFrame`: a written WebSocket frame is right exactly below
  65535 bytes, off the positive multiples of 1024, and if the connection takes every piece whole.
- `ClientFrameStreams`: of a ping whose payload takes more than one read, what the first does not
  give is delivered as data. `Reader.ReadHeader`: an empty ping is answered with the opcode of the
  frame behind it. `Reader.Read`: its answer is one too small exactly when it asks for a header
  that does not come; `AskingForMore` is an input.
- `QuoteStaysInside`: percent quoting into too little room stays inside it exactly when the room
  ends within two bytes of the first character to escape; C quoting has a lemma of the same name.
- `QuotedIsJson`: C quoting yields JSON exactly for text without line feeds, other control
  characters and bytes above 127.
- `Base64.Decode`: the length it answers is right exactly for whole groups; `UnpaddedOverruns`
  names texts for which it writes past its allocation.
- `CandidatesAreCookies`: the session ids tried are the values of the cookies called sessionid
  exactly when each `sessionid=` that is taken begins a cookie; `OtherCookiesAreTaken` has the inputs.

## Model

| member | source | states |
|---|---|---|
| AATree.AddKeepsLevels | onion/dict.c:275-302 | insertion keeps the AA level rules, and raises the root by at most one level |
| AATree.RebalanceRepairs | onion/dict.c:228-268 | the fixed sequence of rotations repairs a node either of whose subtrees lost a level |
| AATree.RemoveKeepsLevels | onion/dict.c:336-385 | removal from any tree obeying the level rules obeys them again, and lowers the root by at most one level |
| AATree.FindIsLogarithmic | onion/dict.c:180-194 | the depth of a search is at most twice the base-2 logarithm of the number of entries plus one |
| DictOrder.AddInOrder | onion/dict.c:275-302 | a plain insertion lands right behind all entries with key <= its own; a replacing one overwrites exactly the entry a search finds |
| DictOrder.AddKeepsOrder | onion/dict.c:275-302 | insertion keeps the weak search order |
| DictOrder.FindCorrect | onion/dict.c:180-194 | a search finds an entry with a key that compares equal exactly when there is one |
| DictOrder.RemoveKeys | onion/dict.c:336-385 | on every weakly ordered tree, duplicates included, removal deletes the found key from the key sequence and nothing else |
| DictRuns.AddConserves | onion/dict.c:210-225 | insertion frees exactly the cells of the entry it overwrites and keeps all the others |
| DictRuns.RemoveConserves | onion/dict.c:322-385 | removal neither loses nor duplicates an owned key or value, despite the data move between nodes |
| DictRuns.EveryRunKeepsLevels | onion/dict.c:228-394 | after any run of additions and removals the level rules and the order hold, and a search is logarithmic |
| DictRuns.LegalRunIsSafeMap | onion/dict.c:180-415 | over any run that keeps keys distinct the dictionary is a finite map, every owned cell is in one place, and none is freed while reachable |
| DictRuns.EveryCellReleasedOnce | onion/dict.c:138-172 | after such a run and the freeing of the tree every adopted cell, those inside nested dictionaries included, has been released exactly once |
| DictRuns.RemovalIsCleanExactly | onion/dict.c:336-385 | in a tree of different entries, repeated keys or not, removal takes out exactly the entry found and frees only it if and only if the entry that moves up is the one a search of its key finds below |
| DictRuns.RemoveConfusesTwins | onion/dict.c:351-372 | the smallest tree where it is not: removing one key loses one of two twins under another and leaves the other twin in two nodes |
| DictRuns.TwinsArise | onion/dict.c:275-302 | that tree is what four additions make, the last of them of a key that is there, without replacing it |
| DictHeap.SkewNode | onion/dict.c:228-236 | the rotation in place is the value rotation, on the same nodes |
| DictHeap.RebalanceNode | onion/dict.c:374-385 | the repairs in place are those of the value model |
| DictHeap.AddNode | onion/dict.c:275-302 | insertion in place is insertion on values, and frees what that frees |
| DictHeap.RemoveNode | onion/dict.c:336-385 | removal in place is removal on values, and frees what that frees |
| DictHeap.NodeFree | onion/dict.c:138-146 | freeing a tree frees every cell it owns, those of the dictionaries nested in it included |
| DictHeap.Dict.Add | onion/dict.c:313-319 | the dictionary object takes the step of the value model |
| DictHeap.Dict.Remove | onion/dict.c:394-401 | the dictionary object takes the step of the value model |
| DictHeap.Dict.Free | onion/dict.c:152-172 | only the last reference frees the tree |
| DictHeap.Dict.GetDict | onion/dict.c:415-422 | the nested dictionary of an entry with that key, if there is one and it holds a dictionary |
| DictHeap.Dict.Count | onion/dict.c:476-491 | the number of entries |
| DictHeap.Dict.Dup | onion/dict.c:101-111 | one reference more, and nothing else |
| DictHeap.Dict.IgnoreCase | onion/dict.c:83-87 | comparisons ignore case from now on; the entries stay where they are |
| DictCopy.HardDupCopies | onion/dict.c:113-134 | a deep copy has the same entries in order, at every depth, exactly when every level was in strcmp order |
| DictCopy.CaseIsForgotten | onion/dict.c:113-134 | the copy of a case-insensitive dictionary of "a" and "B" has them in the other order |
| DictCopy.HardDupSharesNothing | onion/dict.c:113-134 | a deep copy owns cells of its own, each once, and none of the original's |
| DictCopy.FreeingACopyGivesAll | onion/dict.c:113-172 | freeing a deep copy gives back every cell it is made of, at every depth |
| RequestParser.ChunksDoNotMatter | onion/request_parser.c:865-887 | a head accepted in one write is accepted, with the same state, through any sequence of writes, each of which is defined |
| RequestParser.OnlyHarmfulCutsMatter | onion/request_parser.c:865-887 | one write accepts a head if and only if the pieces are accepted and no cut falls behind a token that fills its buffer, nor behind the byte after the version unless it parts a CRLF |
| RequestParser.CutsForgetBytes | onion/request_parser.c:277-297 | what cuts do to any head, accepted or not: the pieces end where the text without the forgotten bytes ends, if no write starts with a full token |
| RequestParser.OneByteForgotten | onion/request_parser.c:277-297 | one cut behind the byte after the version: that byte is as if it had not been sent |
| RequestParser.RejectionDependsOnTheCut | onion/request_parser.c:277-297 | for every method, target, headers and stray byte after the version: one write rejects the request, two with the cut behind the byte accept it |
| RequestParser.FullTokenMustEnd | onion/request_parser.c:100-171 | a token of 8191 bytes is an error if bytes follow in the same write, and may still end with the first byte of the next |
| RequestParser.LongTokenDependsOnTheCut | onion/request_parser.c:100-127 | a target of 8191 bytes: one write rejects the request, two with the cut behind the target accept it |
| RequestParser.ParsePrinted | onion/request_parser.c:687-851 | parsing the printed head recovers method, target and headers, duplicates in order |
| RequestParser.ParsePrintedInChunks | onion/request_parser.c:687-887 | the same under any chunking |
| RequestParser.ParsePrintedWithBody | onion/request_parser.c:687-887 | with a body behind it, under any chunking, the head is the same and exactly the body is left over |
| RequestReader.Request.ReadString | onion/request_parser.c:100-127 | the word reader does what the byte machine does, or asks for more data, or overflows exactly when it does |
| RequestReader.Request.ReadUntilColon | onion/request_parser.c:138-171 | likewise for the key reader, which ignores carriage returns |
| RequestReader.Request.ReadLine | onion/request_parser.c:186-218 | likewise for the line reader, which drops what does not fit |
| RequestReader.Request.ReadNewLine | onion/request_parser.c:277-297 | likewise for the line end after the version, up to the byte it forgets |
| RequestReader.Request.ParsePeek | onion/request_parser.c:703-726 | a header is added when the next line does not continue it; at a NUL nothing happens |
| RequestReader.Request.ParseKey | onion/request_parser.c:739-770 | a header name, or the blank line and what the head leads to |
| RequestReader.Request.Write | onion/request_parser.c:865-887 | a write ends and takes the request where the byte machine goes, with its answer; behind an accepted head it stops at the first byte that is not of it |
| RequestReader.HangsExactly | onion/request_parser.c:703-881 | a write never ends exactly if some part of it leaves the parser looking for a continuation line and a NUL comes next |
| RequestReader.Deliver | onion/request_parser.c:865-887 | any sequence of defined writes, accepted or not, takes a new request where the byte machine goes |
| RequestReader.Receive | onion/request_parser.c:865-887 | a head that one write accepts comes out the same through the code under any chunking |
| HeaderFolds.FoldedValue | onion/request_parser.c:687-737 | a folded value is its lines joined by spaces, up to the first line that ends in CRLF |
| HeaderFolds.SurvivesExactly | onion/request_parser.c:186-218 | it is the whole value exactly if all the breaks inside it are bare line feeds |
| HeaderOrder.HeadersKeepOrder | onion/dict.c:275-302 | in the header dictionary the headers of one name, whatever its case, stand in the order they came in |
| HeaderOrder.GetHeaderFinds | onion/request.c:246-248 | a header is found exactly when one of that name was sent, and its value is one that was sent |
| Multipart.FileIsWhatPrecedesTheBoundary | onion/request_parser.c:378-459 | for any bytes, the file holds what stands before the first delimiter, one CR before it excepted, or every byte but the match still pending |
| Multipart.SmallFilesFit | onion/request_parser.c:409-432 | bytes that, three times over, stay within the limit are never refused |
| Multipart.RefusedExactly | onion/request_parser.c:378-432 | a part is refused exactly when, at a byte that goes to the file, the bytes read and once more every failed match exceed the limit |
| Multipart.SmallPartsFit | onion/request_parser.c:409-432 | a part whose bytes up to its delimiter, three times over, stay within the limit is never refused, whatever follows |
| Multipart.TheLimitHolds | onion/request_parser.c:409-432 | no file outgrows the limit by more than a byte |
| Multipart.FileReader.Read | onion/request_parser.c:378-459 | the loop with its 1024-byte buffer runs the matcher and stops right behind the boundary |
| Multipart.ReadFile | onion/request_parser.c:378-459 | the same through any chunks: the part is refused exactly when it is too big, or the file is the bytes before the first delimiter, whatever they look like |
| Bodies.ReadPut | onion/request_parser.c:335-371 | however the stream is cut, the file gets exactly the declared bytes and the reader stops behind them |
| Bodies.ReadForm | onion/request_parser.c:221-236 | however the stream is cut, a form is parsed exactly when its declared bytes, and at least one byte, have come, and as those bytes and a NUL |
| Bodies.ContentNeedsOneChunk | onion/request_parser.c:311-328 | a plain body is read correctly exactly when its first non-empty chunk holds all of it |
| Bodies.ContentInTwoPieces | onion/request_parser.c:311-328 | a body of four bytes in two chunks never completes, or comes out with two bytes too many |
| Bodies.ReadContent | onion/request_parser.c:311-328 | the code that compares with a count it never advances |
| Upload.ReceiveHead | onion/request_parser.c:865-887 | a head cut anywhere is read up to its end, and what is left of the writes is exactly what follows it |
| Upload.ReceivePut | onion/request_parser.c:1065-1108 | a PUT is refused exactly if its length is missing or too big; otherwise its file gets exactly the declared bytes, wherever head and body are cut |
| Upload.ReceiveForm | onion/request_parser.c:974-996 | the same of an urlencoded POST, which waits for a byte even if it declares none |
| Upload.UploadPrinted | onion/request_parser.c:335-1108 | a printed PUT request arrives with its target, headers and body, however it is cut |
| Upload.PostPrinted | onion/request_parser.c:221-996 | likewise a printed form |
| Quote.QuoteNew | onion/codecs.c:256-271 | what is allocated for a quoted string is exactly what is filled |
| Quote.QuoteInto | onion/codecs.c:274-296 | what is written under any limit, and that nothing else is |
| Quote.QuoteStaysInside | onion/codecs.c:274-296 | a limit is not overrun exactly when the quoted string fits, or the limit ends within two bytes behind the place of the first character to escape |
| Quote.UnquoteQuoted | onion/codecs.c:228-296 | unquoting inverts quoting on every C string |
| Quote.UnquoteInPlace | onion/codecs.c:228-248 | the rewrite in place equals the decoder on well-formed strings and touches nothing outside the string |
| Query.PairsOfPrinted | onion/request_parser.c:922-969 | splitting and unquoting gives back any printed list of pairs, all and in order |
| Query.ParseQuery | onion/request_parser.c:922-969 | the splitter adds exactly those pairs, as C strings inside the text it rewrites, none overwriting another |
| Query.ParseTarget | onion/request_parser.c:892-915 | the path and the query of a target, in place |
| Query.TargetOfPrinted | onion/request_parser.c:892-969 | a printed target names its path and pairs again and is one word of the request line |
| WholeRequest.PrintedRequestIsUnderstood | onion/request_parser.c:687-969 | under any chunking, a printed request is parsed, split and unquoted into its method, path, pairs and headers |
| WholeRequest.Understand | onion/request_parser.c:865-969 | the same through the code |
| Chunked.DechunkInverts | onion/response.c:392-417 | a decoder for section 4.1 of RFC 7230 recovers what was cut into chunks, and stops at the last one |
| Response.Response.Drain | onion/response.c:402-413 | short writes of any sizes deliver the buffer in order |
| Response.Response.Flush | onion/response.c:369-421 | a flush sends the headers first if they are due, loses nothing and counts what it sends |
| Response.Response.WriteHeaders | onion/response.c:258-307 | the header text goes through the buffer unframed and is not counted as content |
| Response.Response.Write | onion/response.c:325-358 | a write of any size terminates and adds exactly its bytes to the header text or the content |
| Response.Response.SetLength | onion/response.c:205-215 | a length set in time is announced; one set too late is ignored unless it is what was sent |
| Response.Response.Free | onion/response.c:153-190 | what reaches the wire, and that an HTTP/1.1 connection is kept only if the client can tell where the content ends |
| Response.Serve | onion/response.c:153-421 | for any calls of a handler, setting code, fields and length, asking for the headers, writing and flushing: headers, then everything written, in order; de-chunking gives it back; keep-alive only if it is delimited, and no other header contradicts that unless the handler set one under such a name |
| Response.ServeHead | onion/response.c:153-421 | the same of a HEAD request: the headers alone reach the wire, whatever is written |
| Response.Response.Turn | onion/response.c:340-352 | one turn of the writing loop: the buffer is filled and flushed; on a HEAD response it takes the step that HeadWriteEnds reasons about |
| Response.HeadWriteEnds | onion/response.c:325-358 | the exact size at which a first write to a HEAD response no longer ends |
| Base64.DecodingInverts | onion/codecs.c:69-220 | decoding the encoded text gives back any bytes |
| Base64.EncodingFits | onion/codecs.c:137-150 | what is written, NUL included, never exceeds the allocation, and reaches it exactly when the length is 1 modulo 3 |
| Base64.LinesLength | onion/codecs.c:137-220 | how long the encoded text is |
| Base64.Encode | onion/codecs.c:137-220 | the loops write section 4 of RFC 4648 with a newline after each 76 characters and at the end |
| Base64.Decode | onion/codecs.c:69-131 | the result starts with the bytes that the letters of the text stand for, whatever is skipped between them, and the length is theirs exactly for texts of whole groups |
| Base64.WholeGroupsFit | onion/codecs.c:69-131 | texts of whole groups that end in a letter, or in padding and skipped bytes, are decoded inside the allocation |
| Base64.UnpaddedOverruns | onion/codecs.c:79-120 | letters alone that make no whole groups are not |
| Base64.RoundTrip | onion/codecs.c:69-220 | the code's decoder undoes the code's encoder |
| Block.Block.AddData | onion/block.c:149-167 | bytes are appended, also when they are the block's own and the block moves |
| Block.Block.AddBlock | onion/block.c:173-175 | a block appended to a block, itself included |
| Block.Double | onion/block.c:149-175 | a block appended to itself holds its contents twice |
| Block.Block.AddStr | onion/block.c:138-143 | a string is appended without its NUL |
| Block.Block.AddChar | onion/block.c:122-132 | a byte is appended; growth is bounded |
| Block.Block.Data | onion/block.c:87-96 | the contents stay and a NUL follows them |
| Block.Block.Clear | onion/block.c:63-65 | the block is empty |
| Block.Block.MinMaxSize | onion/block.c:74-79 | room for so many bytes, and the same contents |
| CQuote.NeverStops | onion/codecs.c:300-384 | with the counted size, C quoting is never cut short |
| CQuote.QuoteInto | onion/codecs.c:319-384 | what is written under any size |
| CQuote.QuoteStaysInside | onion/codecs.c:319-384 | a limit is not overrun exactly when the literal fits, or what the counter lets through needs no escapes, or a byte above 127 near the end stops it in time |
| CQuote.QuoteNew | onion/codecs.c:300-316 | a quoted string is complete, terminated and inside its allocation |
| Json.LiteralRead | onion/codecs.c:319-384 | a C reader gets the string back, carriage returns as line feeds, whatever follows |
| Json.LiteralReturns | onion/codecs.c:319-384 | a C reader gets the very string back exactly when it holds no carriage return |
| Json.QuotedIsJson | onion/codecs.c:319-384 | exactly which strings C quoting turns into JSON strings |
| Json.TextsInOrder | onion/dict.c:452-463 | the members are the entries in the dictionary's order |
| Json.ObjectRead | onion/dict.c:528-590 | reading the text of a dictionary gives back its entries in order, at every depth |
| Json.ToJson | onion/dict.c:570-590 | the block holds the braces around the quoted entries, joined by ", " |
| WebSocket.WrittenIsRead | onion/websocket.c:157-211 | a written frame is recovered, and nothing behind it disturbed, exactly below 65535 bytes and off the positive multiples of 1024 |
| WebSocket.Write | onion/websocket.c:157-211 | the bytes that reach the wire for any payload, lost block, misplaced length and short writes included |
| WebSocket.ShortWritesLoseTheFrame | onion/websocket.c:157-211 | whatever the connection takes of its pieces, the frame is recovered exactly if it took all of them whole and the length is one the writer gets right |
| WebSocket.WrapKeepsPhase | onion/websocket.c:244-250 | the wrap of the 8-bit mask counter does not change its place in the key |
| WebSocket.Reader.ReadHeader | onion/websocket.c:330-372 | a header is taken off the input and its payload is next; a ping is answered with what one read gives of its payload, an empty one with the opcode of the frame behind it |
| WebSocket.Reader.Read | onion/websocket.c:227-261 | a read delivers the next payload bytes, unmasked, across frames, pings and short reads; its answer is one too small exactly when the input holds only whole frames, all of them have been delivered and they do not fill the buffer, or when an empty read starts where no header comes |
| WebSocket.AskingForMore | onion/websocket.c:227-261 | one frame of one byte read into room for two: the byte is there and the answer is 0 |
| WebSocket.ReadMany | onion/websocket.c:227-261 | buffers of any sizes lose, repeat and reorder nothing |
| WebSocket.ClientFrameStreams | onion/websocket.c:227-372 | exactly what of a frame reaches the stream: of a ping, what its first read does not give |
| WebSocket.ConversationStreams | onion/websocket.c:227-372 | masked frames of any opcodes, with 7- or 16-bit lengths, arrive as their payloads, joined, without a trace of the pings among them if each comes in one read |
| WebSocket.WrittenIsStreamed | onion/websocket.c:157-363 | the reader recovers what the writer sends whole |
| DmpMemory.PutInPlace | RTController/I2C/MPU6050.cpp:2972-3047 | a block that fits lands on its linear addresses and nowhere else |
| DmpMemory.PutThenGet | RTController/I2C/MPU6050.cpp:2941-3047 | what is stored is read back, for every size up to the whole memory |
| DmpMemory.StandsOn | RTController/I2C/MPU6050.cpp:3031-3043 | 8-bit wrap of the address and the bank step keep to the linear address |
| DmpMemory.WriteMemoryBlock | RTController/I2C/MPU6050.cpp:2972-3047 | bursts of 1 to 16 bytes that never cross a bank store the block; a verified success means it is there even if the device is faulty |
| DmpMemory.ReadMemoryBlock | RTController/I2C/MPU6050.cpp:2941-2971 | the block at any bank and address, in bursts that never cross a bank |
| DmpMemory.WriteThenRead | RTController/I2C/MPU6050.cpp:2941-3047 | a verified block is read back as it was written |
| DmpMemory.WriteConfigurationSet | RTController/I2C/MPU6050.cpp:3051-3125 | a well-formed set has the effect of its items in order, up to the first unknown special code |
| DmpMemory.ParsePrinted | RTController/I2C/MPU6050.cpp:3058-3071 | a printed set is read as the items it was printed from |
| Sessions.CandidatesAreNamed | onion/request.c:337-377 | an id that is tried stands behind `sessionid=`, up to a semicolon or the end, with no letter or digit before it |
| Sessions.CandidatesAreCookies | onion/request.c:337-377 | the ids tried are the values of the cookies called sessionid, all and in order, exactly when each `sessionid=` that is taken begins a cookie; those values are always among the ids tried |
| Sessions.OtherCookiesAreTaken | onion/request.c:353-364 | in `a=sessionid=b` and `x_sessionid=b` the id `b` is tried though no cookie is called sessionid |
| Sessions.Server.Guess | onion/request.c:337-377 | the first candidate that is a session is held, and nothing else changes |
| Sessions.Server.GetSessionDict | onion/request.c:393-405 | the request's own session, the one its cookie names, or a new and empty one |
| Sessions.Server.Remove | onion/sessions.c:134-140 | a session leaves the store and survives as long as someone holds it |
| Sessions.Server.SessionFree | onion/request.c:452-463 | the session leaves the store and the request |
| Sessions.Server.Clean | onion/request.c:184-194 | a request lets its session go, and an empty session leaves the store |
| Sessions.Server.FreeRequest | onion/request.c:129-136 | likewise when the request is freed |
| Sessions.Server.Shutdown | onion/sessions.c:72-90 | the store lets all its sessions go, and those that requests hold survive |
| Sessions.Server.LiveExactlyWhileReferenced | onion/dict.c:101-172 | a session dictionary exists exactly while it is stored or held, and its count is the number of those references |
| Sessions.Server.NothingLeaks | onion/dict.c:152-172 | once no request is left and no session stored, no dictionary is left |
| Sessions.Run | onion/sessions.c:95-140 | the same in every state of every run of many requests with fresh ids |
| Poller.Poller.Add | onion/poller.c:252-275 | the first slot stays first |
| Poller.Poller.Remove | onion/poller.c:281-319 | exactly the slot with the descriptor is unlinked, shut down once and freed; the last one behind the head stops the polling |
| Poller.Poller.Sweep | onion/poller.c:387-408 | exactly the timed-out slots go, in order, each shut down once, and their events are forgotten |
| Poller.Poller.Dispatch | onion/poller.c:421-459 | each other ready slot is called once, and removed exactly if it hung up or its callback says so |
| Poller.Poller.Round | onion/poller.c:387-459 | the fate of every slot in a round, with callbacks that add slots; no freed slot is reached |

## Left out

- Sockets, epoll, files, TLS, hashing, I2C, GPIO, sleeping and logging are parameters or absent.
- Failed writes and reads: transports take or give at least a byte unless the input has ended; failing `malloc`, `mkstemp` and `write` are not modelled.
- Sizes above INT_MAX, where the code keeps a size in an `int`, are not modelled; the 32-bit counters of the response and the 8-bit registers are.
- Threads: each step of sessions and poller is atomic, and one thread polls.
- `onion_request_keep_alive` and the response's status texts are the parameters `keepAlive` and `reason`.
- Multipart part headers, the choice of the boundary, multipart fields that are not files, and PUT's temporary file names.
- RequestParser.ChunksDoNotMatter: requires that one write accepts the head, because what one write rejects may be accepted in pieces; OnlyHarmfulCutsMatter says exactly when. Empty header lines and folded lines past the buffer leave what the code defines and count as not accepted, and so does a NUL where a header line may begin, at which a write never ends (HangsExactly).
- RequestParser.CutsForgetBytes: requires that no write starts with a full token; FullTokenMustEnd says what happens then.
- Query.ParseQuery: requires every percent sign to have two characters behind it in its part, because the code reads past the end of any other text.
- Quote.UnquoteInPlace: requires the same, for the same reason.
- Response.Response.Write: requires of a first write to a HEAD response that it fits the buffer twice, because it does not end otherwise (HeadWriteEnds).
- Response.Response.WriteHeaders: requires an empty buffer, because called after a write it would put the headers behind the content.
- Response.Serve: headers named Content-Length are set through `onion_response_set_length` only, and the headers are asked for before anything is written.
- Response.Response.Free: lengths and counts are compared modulo 2^32, as the code's 32-bit fields are.
- WebSocket.Reader.Read: requires frames with 7- or 16-bit lengths, because for others the code shifts an `int` by 32 and more, and a header that has arrived to be readable as a whole; closing and the callbacks are not modelled.
- WebSocket.Reader.ReadHeader: does not state what is sent for an empty ping that another ping or no header follows; in the last case the code sends bytes it never set.
- DmpMemory.WriteConfigurationSet: requires a set that ends with its last item, because the code reads past the end of any other.
- Poller.Poller.Round: does not model the descriptors' re-arming, the wait's timeout and the field `n`, which the code does not maintain; callbacks register slots with descriptors that are not in use and do not remove slots themselves.
- Poller.Poller.Remove: requires a slot in the list, because the code looks at a first one in any case.
- Sessions.Server.GetSessionDict: requires a fresh id, which the code draws at random.
- DictRuns.LegalRunIsSafeMap: requires that additions repeat no key unless they replace it, because removal may confuse twins otherwise (RemovalIsCleanExactly says exactly when).
- DictRuns.EveryCellReleasedOnce: a nested dictionary has one holder, the entry it is stored in; a second holder would keep its cells.
- Base64.Decode: requires ASCII, because the code indexes its table with what it reads, and groups that fit the allocation, because the code writes past it otherwise; which bytes it stores for missing letters is not stated.
- Locks, `onion_dict_rget`, dot output, URL and MIME handlers, cookies other than the session's, HTML quoting.
