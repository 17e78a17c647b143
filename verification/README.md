# cllm, verified

cllm is a unikernel that answers HTTP requests for text completion on bare i386 hardware: its own heap, JSON codec,
formatter, TCP/IP stack and network driver, and no operating system underneath. This project models those parts in Dafny
and proves what they promise over every input, every run and every interleaving with the hardware. Paths below are those
of the cllm repository; pointers and `size_t` are 32 bits wide, and words are little-endian, as on its target.

Most parts come in two layers. A module of functions says what the code computes, branch for branch, and lemmas prove
what that means. A module of classes is the code as it runs, updating arrays and fields in place, and each of its methods
is proved equal to the function it implements.

| part | functions and theorems | the code in place |
|---|---|---|
| heap | `Blocks`, `HeapRuns`, `Arena` | `Allocator` |
| JSON lexer, skipper, writer | `JsonLexer`, `JsonNumber`, `JsonRoundTrip`, `JsonSpaces`, `JsonLiterals`, `JsonValues`, `JsonDocuments` | `JsonParser`, `JsonWriter` |
| request parsers | `Completion`, `Chat`, `Detokenize`, `RequestFields`, `ChatFields`, `TokenFields` | the first three |
| formatter, HTTP responses | `Format`, `Framing`, `Http` | the same modules |
| TCP | `TcpSockets`, `TcpRuns`, `TcpStreams`, `TcpLimits`, `TcpEvents` | `Tcp` |
| IP and checksums | `Checksum`, `Ip`, `IpFields` | the first two |
| network driver | `Rings` | `E1000Rx`, `E1000Tx` |
| model checksum | `Crc32` | the same module |

`Machine` and `Options` hold bytes, words and the option type.

What the proofs say about the code as it stands, good and bad:

- **Heap.** All headers live as bytes inside the arena they describe. In every run of calls on NULL and live pointers the
  blocks are laid out in order, the free list is exactly the free blocks in rising address order, no two free blocks
  touch, and no call changes a byte of another live payload; the one exception is a growing realloc of more than
  SIZE_MAX-7 bytes, whose request wraps and whose copy then overruns the 8 bytes it gets, exactly as `GrowthFits` says.
  The blocks tile the arena if and only if no realloc cut a live block, and only then does an emptied heap become one
  block again; a shrink from 16 bytes to 8 loses 8 bytes for good.
- **JSON.** One comma flag is enough for any nesting; the text of any tree lexes to the tree's tokens and is skipped
  exactly, with any blanks between them. Keys are written unescaped and survive if and only if they hold no quote and no
  backslash. Strings lose the control characters without a short escape, and everything beyond 1023 characters. What the
  skipper accepts is exactly the JSON values, with commas optional and anything broken off at the end of the text allowed.
- **Request parsers.** On every text they terminate and stay within their arrays. On every text that begins with an
  object, however it is spelt, each field of a request is the last value given for its name, or its default, and the
  request is rejected exactly if a known name has a value of the wrong type. More than 32 messages or 2048 tokens are an
  error, not a truncation.
- **TCP.** The table keeps its shape and every connection only rises in every run, whatever arrives; each one hands on
  at most one request, answers at most once and sends nothing but bare segments after its FIN. Connections do not disturb
  each other as long as their peers are distinct, which ends exactly when a SYN from source address 0 opens a socket with
  the port of another live one. However a request is cut into segments, the HTTP parser sees the same bytes, exactly as
  long as the bytes up to the end of the completing segment are fewer than 2048; a longer segment is dropped although it
  is acknowledged. A response of more than 1994 bytes is never sent. Any number of clients that acknowledge the response
  before they send their FIN are served one after the other, each leaving its slot free. A client whose FIN comes before
  any other segment after the response leaves its slot in TIME_WAIT for ever, and three of them leave the server refusing
  every other peer.
- **Driver.** With hardware steps between any two memory accesses, received frames are returned whole, in order, once
  each. A return of 0 from the transmit call means that the frame was sent, as long as of any 32 calls in a row one
  returns 0. That bound is exact: with 32 descriptors unmarked, the late mark of an earlier frame can be mistaken for
  this one's.
- **Checksums.** Every packet sent checks to 0, goes to the resolved hardware address and is decoded by its receiver to
  the fields it was built from, with any Ethernet padding behind it taken for payload; the CRC finds every change within 32 consecutive bits, and not every change within
  33.

To check everything: `dafny verify dfyconfig.toml`.

## Model

| member | source | states |
|---|---|---|
| `Blocks.RoundedCovers` | src/allocator.c:57-60 | the rounded request is a positive multiple of 8, and covers the request if and only if the request is at most SIZE_MAX-7 |
| `Blocks.FirstFitIs` | src/allocator.c:65-69 | the search result is characterised: the lowest-addressed free block that is large enough, or none is |
| `Blocks.CarveInv` | src/allocator.c:72-99 | taking and splitting a block keeps layout, separation of free blocks and the total of bytes |
| `Blocks.ReleaseInv` | src/allocator.c:118-139 | freeing and the whole coalescing pass keep them too, and afterwards no two free blocks touch |
| `Blocks.ShrinkInv` | src/allocator.c:156-159 | shrinking in place keeps them if the bytes cut off are counted as lost |
| `HeapRuns.LiveAligned` | src/allocator.c:49-104 | a live payload is 8-aligned and inside the arena |
| `HeapRuns.LiveDisjoint` | src/allocator.c:49-104 | payloads of different live pointers are disjoint, a header between them |
| `HeapRuns.MallocKeeps` | src/allocator.c:49-104 | malloc returns NULL if and only if no free block holds the rounded size, else takes the lowest-addressed one that does and adds exactly one live block |
| `HeapRuns.MallocSplits` | src/allocator.c:57-99 | of the lowest free block that holds the rounded size, the caller gets exactly that size if 40 bytes more would be left, the rest behind a new header staying free, and otherwise the whole block; every other block stays as it was |
| `HeapRuns.FirstRequest` | src/allocator.c:29-60 | the first request succeeds if and only if it is for 1 to 4194288 bytes or its rounding wraps, and gets offset 16 |
| `HeapRuns.FreeKeeps` | src/allocator.c:107-140 | free removes exactly its block from the live ones, and freeing the pointer again changes nothing |
| `HeapRuns.FreeBytes` | src/allocator.c:107-140 | it makes exactly the bytes of its block free, header included, and no others |
| `HeapRuns.ReallocKeeps` | src/allocator.c:143-168 | realloc replaces one live block and no other; on NULL nothing changed; bytes are lost only by shrinking |
| `HeapRuns.EdgeCalls` | src/allocator.c:143-159 | malloc(0) and free(NULL) change nothing; realloc of NULL is malloc, for size 0 it is free, and a shrunk block keeps its address, all others as they were |
| `HeapRuns.GrowMoves` | src/allocator.c:161-168 | a growing realloc moves to the block that malloc would hand out, and exactly the bytes of the old block become free |
| `HeapRuns.GrowFails` | src/allocator.c:161-168 | it fails, changing nothing, if and only if no free block holds the rounded size |
| `HeapRuns.GrowthFits` | src/allocator.c:161-163 | whenever a growing realloc copies, the old payload fits its new block if and only if the request does not wrap, or the old payload is at most 8 bytes, or it is at most the free block found and that is under 48 bytes and not split |
| `HeapRuns.WrappedGrowthOverruns` | src/allocator.c:57-60 | a growth of 16 bytes to SIZE_MAX, which gets 8 bytes with the next free block's header right behind them |
| `HeapRuns.RunKeeps` | src/allocator.c:49-168 | every run of calls on NULL and live pointers, without a growth that overruns, keeps layout, order, separation and byte accounting; bytes are lost in it if and only if some realloc asks for less than a live block holds, but more than 0 |
| `HeapRuns.TilingExact` | src/allocator.c:49-168 | the blocks tile the arena without gap if and only if nothing was lost to in-place shrinks |
| `HeapRuns.RunTiles` | src/allocator.c:49-168 | after a run from the start the blocks tile the arena without gap if and only if no call of it cut a live block |
| `HeapRuns.EmptiedHeap` | src/allocator.c:29-39 | a run that leaves nothing live ends in the one initial block if and only if no call of it cut a live block |
| `HeapRuns.MallocFreeRun` | src/allocator.c:49-140 | after every run of malloc and free the blocks tile the arena, and if nothing is live the heap is as it was at the start |
| `HeapRuns.ShrinkLosesTail` | src/allocator.c:156-159 | a run in which a shrink leaves the emptied heap in two pieces |
| `Arena.FieldStored` | src/allocator.c:12-20 | storing one header field in the byte arena changes that field of that header and no other header |
| `Arena.HeadersOutsidePayloads` | src/allocator.c:12-20 | headers of the layout never overlap a live payload |
| `Arena.FreeListWalks` | src/allocator.c:65-103 | following next pointers from the head visits exactly the free blocks |
| `Arena.FreeAddrsAscend` | src/allocator.c:121-127 | in strictly rising address order |
| `Arena.Unlinked` | src/allocator.c:72-77 | bypassing a block in the list leaves exactly the list of the other free blocks |
| `Arena.Inserted` | src/allocator.c:86-92 | linking a block in after its predecessor gives exactly the list with it |
| `Arena.MergeReflects` | src/allocator.c:133-135 | absorbing the next free block in the bytes is merging the two blocks of the layout |
| `Allocator.Heap.InitHeap` | src/allocator.c:29-46 | the first call lays out one free block over the whole arena, later calls change nothing |
| `Allocator.Heap.FindFit` | src/allocator.c:62-102 | the walk over next pointers stops at the first fit with its predecessor, or at NULL if there is none |
| `Allocator.Heap.InsertSorted` | src/allocator.c:85-92 | the pointer-to-pointer loop links the block in at its place by address |
| `Allocator.Heap.Malloc` | src/allocator.c:49-104 | on the byte arena, malloc is the block-level allocation, and every live payload byte stays as it was |
| `Allocator.Heap.CoalescePass` | src/allocator.c:129-139 | the loop over next pointers turns the layout into its coalesced form |
| `Allocator.Heap.Free` | src/allocator.c:107-140 | on the byte arena, free is the block-level release, also for NULL and for a pointer freed before, and every other payload byte stays |
| `Allocator.Heap.Realloc` | src/allocator.c:143-168 | on the byte arena, realloc is the block-level one for every request whose copy stays in its block, the first min(old, new) bytes arrive at the new place, and no other payload changes |
| `Allocator.Heap.Perform` | src/allocator.c:49-168 | each call of the runs above, made on the bytes, is one step of the run |
| `JsonLexer.Lex` | src/json.c:179-265 | on every input the position stays within the text and never moves back, and every token but EOF and ERROR moves it on |
| `JsonLexer.Next` | src/json.c:179-265 | using up a token lowers a measure that also survives an ERROR that consumes nothing |
| `JsonLexer.SkipValue` | src/json.c:273-317 | on every input skipping ends, within the text, with a smaller measure if it succeeds |
| `JsonSpaces.BlanksSkipped` | src/json.c:9-23 | spaces, tabs, line feeds and carriage returns before a token make no difference |
| `JsonSpaces.FirstDecides` | src/json.c:179-265 | no other character is passed over: the first one that is none of them decides what token begins there, words letter by letter |
| `JsonLiterals.LexShifted` | src/json.c:179-265 | what stands before a position makes no difference to the token there |
| `JsonLiterals.BlanksBefore` | src/json.c:19-23 | the token at the start of blanks and a text is that of the text, as many characters later |
| `JsonLiterals.StringLiteral` | src/json.c:38-85 | a literal of plain characters, escapes and \u groups in any mixture lexes to what they mean, ? for every \u, cut to 1023 characters |
| `JsonLiterals.UnendedLiteral` | src/json.c:82-85 | a literal that the text breaks off is an error |
| `JsonLiterals.NumberLiteral` | src/json.c:88-176 | a literal of any form, times the power of ten of its fraction, is the integer of all its digits with its sign, shifted by its exponent |
| `JsonLiterals.TruncatedIs` | src/json.c:341-347 | the conversion to int drops what is behind the point, towards zero |
| `JsonLiterals.CopiedIs` | src/json.c:320-329 | a copied string is all before its first NUL, cut to the buffer |
| `JsonSpaces.SameSkip` | src/json.c:273-317 | two texts with the same tokens ahead are skipped alike |
| `JsonValues.SkipsValue` | src/json.c:273-317 | skipping a value, nested in any way, with or without commas, closed or broken off by the end of the text, leads exactly to what is behind it |
| `JsonValues.SkipsExactly` | src/json.c:273-317 | skipping succeeds on those values and on nothing else |
| `JsonDocuments.AnyDocument` | src/json.c:179-317 | however the words of a value are spelt and with whatever blanks, its tokens are found and skipping it returns 0 at EOF |
| `JsonNumber.LiteralValue` | src/json.c:115-170 | the second pass over a number literal computes the number it denotes, sign, fraction and exponent included, in exact arithmetic |
| `JsonParser.Parser.ScanStringLiteral` | src/json.c:38-85 | the in-place string scanner yields the text of the scan, cut to its buffer and NUL-terminated, and ends where the scan does |
| `JsonParser.Parser.ScanNumber` | src/json.c:88-176 | the in-place number scanner ends where the literal ends and leaves the number it denotes |
| `JsonParser.Parser.NextToken` | src/json.c:179-265 | the in-place lexer is the token function |
| `JsonParser.Parser.SkipValue` | src/json.c:273-317 | the recursive skipper with its two loops is the skip function, on every input |
| `JsonParser.Parser.ParseString` | src/json.c:320-329 | it accepts exactly strings, gives them cut to the buffer and up to the first NUL, and moves on one token |
| `JsonParser.Parser.ParseInt` | src/json.c:341-347 | it accepts exactly numbers and truncates them towards zero |
| `JsonWriter.WritesText` | src/json.c:387-559 | the calls for any tree, with one comma flag, write its recursive serialisation, after a comma if one was pending |
| `JsonWriter.Writer.WriteRaw` | src/json.c:387-393 | all of the text and a NUL, or nothing, exactly by whether it fits |
| `JsonWriter.Writer.Write` | src/json.c:396-559 | a writer call appends its whole text if that fits and otherwise at most a prefix, failing |
| `JsonWriter.Writer.WriteTree` | src/json.c:387-559 | writing a tree succeeds if and only if its text and a NUL fit the buffer, and then the buffer holds exactly them |
| `JsonRoundTrip.KeptDrops` | src/json.c:448-485 | a string comes through escaping unchanged if and only if it holds no control character other than \b \f \n \r \t |
| `JsonRoundTrip.StringReadsBack` | src/json.c:38-85 | at its place in any text, a written string lexes to the string without those characters, cut to 1023 |
| `JsonRoundTrip.StringReadsBackIff` | src/json.c:38-85 | a written string lexes back to itself if and only if it holds no such character and has at most 1023 characters |
| `JsonRoundTrip.KeyReadsBackIff` | src/json.c:438-445 | a written key lexes back to itself if and only if it holds no quote and no backslash and has at most 1023 characters |
| `JsonRoundTrip.IntReadsBack` | src/json.c:488-498 | a written int lexes to its value and ends with its last digit |
| `JsonRoundTrip.TreeReadsBack` | src/json.c:273-317 | at its place in any text, the serialisation of a tree lexes to the tree's tokens and is skipped exactly |
| `JsonRoundTrip.DocumentReadsBack` | src/json.c:179-317 | alone, it lexes to exactly the tree's tokens, and skipping it returns 0 at EOF |
| `JsonSpaces.SpacedReadsBack` | src/json.c:179-317 | so it does with any blanks before, between and behind its tokens |
| `Completion.CompletionReadsBack` | src/api_v1.c:92-158 | parsing the text of any object is the fold of its members: last key wins, unknown members of any nesting change nothing, strings are cut, max_tokens is clamped, a wrong type fails |
| `RequestFields.CompletionFields` | src/api_v1.c:92-158 | in any text that begins with an object each of the twelve fields is the last value given for its name, or its default, max_tokens 512 outside 0 to 512; it is rejected if and only if a value has the wrong type |
| `RequestFields.CompletionAccepts` | src/api_v1.c:92-158 | and no other text is accepted |
| `Completion.ParseCompletionRequest` | src/api_v1.c:92-158 | on every text the in-place parser ends and is the parse function, -1 exactly on failure |
| `Chat.MessageReads` | src/api_v1.c:188-214 | the inner loop over the text of a message object is the fold of its role and content members, and stops at its brace |
| `Chat.ChatReadsBack` | src/api_v1.c:161-256 | parsing the text of any object concatenates its message arrays and folds the rest; it fails exactly on a wrong type or on more than 32 messages in all |
| `ChatFields.ChatFieldsMeant` | src/api_v1.c:161-256 | in any text that begins with an object the messages are those of all its arrays in order, each with its last role and content, one that is broken off left out, and every other field is the last value given; it is rejected if and only if a value has the wrong type or there are more than 32 messages |
| `Chat.ParseChatRequest` | src/api_v1.c:161-256 | on every text the in-place parser, loops within loops, ends with at most 32 messages and is the parse function |
| `Detokenize.ListReads` | src/api_v1.c:322-337 | the loop over an array of elements takes them all, or fails, or stops at an element that the outer loop rejects |
| `Detokenize.DetokenizeReadsBack` | src/api_v1.c:296-349 | parsing the text of any object gathers the elements of all its arrays called tokens; it fails exactly if one is no array of integers or they are more than 2048 in all |
| `TokenFields.TokenFieldsMeant` | src/api_v1.c:296-349 | in any text that begins with an object the tokens are the numbers of all its arrays called tokens, truncated; it is rejected if and only if one is no array of numbers or there are more than 2048 |
| `Detokenize.ParseDetokenizeRequest` | src/api_v1.c:296-349 | on every text the in-place parser ends with at most 2048 tokens and is the parse function |
| `Format.DigitsDenote` | src/string.c:97-112 | the digits printed for a number denote exactly that number in its base |
| `Format.DigitsShape` | src/string.c:97-112 | every one is a digit of the base, and only 0 starts with a zero |
| `Format.Digits32` | src/string.c:98-103 | they fit the 32-byte scratch buffer for every 32-bit value |
| `Format.DigitsCase` | src/string.c:97-104 | hexadecimal digits are small or capital letters as asked |
| `Format.DirectivesPrint` | src/string.c:116-153 | what every directive prints and uses up, %s, %d, %i, %u, %zu, %x, %X, %p, %% and all others |
| `Format.AppendUint` | src/string.c:97-112 | digits produced backwards and copied forwards append the number's text, truncated to the buffer |
| `Format.Vsnprintf` | src/string.c:114-161 | for every buffer size and supported format, the result is the length of the full text and the buffer holds its first min(n, size-1) characters and a NUL; nothing beyond size is written |
| `Framing.HeadEnd` | src/network/tcp.c:205-212 | just past the first CR LF CR LF, or there is none |
| `Http.PaddedExact` | src/http.c:297-303 | copying a body with strncpy keeps it if and only if nothing but NULs follows its first NUL |
| `Http.GenerateResponse` | src/http.c:225-309 | it succeeds if and only if the message is shorter than the capacity, and then writes exactly the message |
| `Http.StatusReads` | src/http.c:226-256 | the status line names the code and its phrase, and every code without one counts as 200 |
| `Http.PartsInPlace` | src/http.c:258-306 | behind it stand the caller's headers as they are, the length line, a blank line and the body |
| `Http.HeadSplits` | src/http.c:225-309 | the first blank line of a message splits off exactly the body if and only if the headers hold no blank line of their own |
| `Http.LinesSplit` | src/http.c:259-267 | headers made of non-empty CRLF-ended lines meet that condition |
| `Http.ParseContentLength` | src/http.c:26-36 | the digit loop computes the value of the digits after the spaces, modulo 2^32 |
| `Http.AnyCase` | src/http.c:11-27 | a header name is found in any mixture of small and capital letters |
| `Http.LengthReadsBack` | src/http.c:270-283 | on the line that was generated it gives back the body's length |
| `Crc32.Crc32Calc` | src/c_model_interface.c:23-32 | the nested loop computes the CRC of section 8 of RFC 1952 as a fold of single shifts |
| `Crc32.ModelChecksum` | src/c_model_interface.c:83-86 | 0 for no data, else the CRC |
| `Crc32.KnownValues` | src/c_model_interface.c:23-32 | no data has the CRC 0, and the letter a E8B7BE43 |
| `Crc32.AppendedChecks` | src/c_model_interface.c:23-32 | a message followed by its own CRC has the same CRC whatever the message |
| `Crc32.ShiftLinear` | src/c_model_interface.c:28-29 | one shift is linear over exclusive or |
| `Crc32.ShiftInvertible` | src/c_model_interface.c:28-29 | and maps only 0 to 0 |
| `Crc32.RegisterLinear` | src/c_model_interface.c:23-32 | the difference of two runs is the run of the differences |
| `Crc32.BitsDetected` | src/c_model_interface.c:23-32 | two messages that differ only within 32 consecutive bits, the least significant bit of each byte first, have the same CRC if and only if they are equal |
| `Crc32.ThirtyThreeBitsCollide` | src/c_model_interface.c:23-32 | two messages that differ within 33 consecutive bits and have the same CRC |
| `TcpSockets.Lookup` | src/network/tcp.c:60-71 | the first socket that matches, or none does |
| `TcpSockets.RetriedUpTo` | src/network/tcp.c:275-286 | a tick changes the sockets that are due and no others |
| `TcpRuns.RunShape` | src/network/tcp.c:111-286 | in every run, whatever arrives, the listener stays in LISTEN on 8080, live sockets have local port 8080, none rests in SYN_SENT, CLOSING or LAST_ACK, and no buffer is full or holds a whole request head |
| `TcpRuns.StepKeyed` | src/network/tcp.c:124-151 | one event keeps the peers of live sockets known and distinct if and only if it is not a SYN from address 0 that opens a socket |
| `TcpRuns.StepDistinct` | src/network/tcp.c:124-151 | from any table of distinct peers, unknown ones included, one event keeps them distinct if and only if it is not such a SYN while another live socket has its port |
| `TcpRuns.RunDistinct` | src/network/tcp.c:124-151 | in a run from any such table, the one after start-up among them, the peers of live sockets are distinct at every point if and only if no event of it is such a SYN |
| `TcpRuns.RunKeyed` | src/network/tcp.c:124-151 | in every run without source address 0, from start-up or any table of known and distinct peers, no two live sockets could match one segment |
| `TcpRuns.DistinctFinds` | src/network/tcp.c:60-71 | peers are distinct if and only if every segment finds every live socket that it names |
| `TcpRuns.Isolated` | src/network/tcp.c:60-71 | among distinct peers, unknown ones included, an event changes a live socket only as a segment that names it or as a tick, and then exactly as it would alone |
| `TcpRuns.StepRises` | src/network/tcp.c:153-273 | from any table, known peers or not, an event moves a connection only upward from SYN_RECEIVED to TIME_WAIT, or closes it, and never changes a known peer |
| `TcpRuns.RunRises` | src/network/tcp.c:153-273 | so does every run in which the slot is not closed, whatever arrives |
| `TcpRuns.RunSpoken` | src/network/tcp.c:175-244 | in every run each connection hands on at most one request, sends at most one response and one FIN, numbered right behind it, and only bare segments besides; exactly one exchange is over in FIN_WAIT_1, FIN_WAIT_2 and TIME_WAIT |
| `TcpRuns.EntersTimeWait` | src/network/tcp.c:246-253 | a slot rests in TIME_WAIT after an event if and only if it did before, or it was in FIN_WAIT_1 and the event is a segment with FIN that the table gives to it |
| `TcpEvents.ClosesExactly` | src/network/tcp.c:181-268 | an event closes a live slot if and only if it is a segment with FIN that the table gives to it, in FIN_WAIT_2, or in CLOSE_WAIT and without SYN |
| `TcpRuns.TimeWaitForever` | src/network/tcp.c:270-271 | a slot in TIME_WAIT stays there in every run, whatever arrives |
| `TcpRuns.ExhaustedForever` | src/network/tcp.c:270-271 | with all three slots in TIME_WAIT, they stay there in every run, source address 0 included, and every segment that matches none of their peers is refused with a reset |
| `TcpStreams.AnyCut` | src/network/tcp.c:195-243 | data segments that together fit the buffer hand on, at every point, exactly the shortest prefix so far that ends in a blank line, once and as soon as it is there |
| `TcpStreams.CutsAgree` | src/network/tcp.c:195-243 | two ways to cut one stream hand on the same |
| `TcpStreams.CutLimit` | src/network/tcp.c:195-198 | the segment that completes the head gets exactly that head handed on if and only if the bytes up to its end are fewer than 2048 |
| `TcpStreams.DroppedButAcknowledged` | src/network/tcp.c:181-202 | a segment that does not fit leaves the buffer alone but is acknowledged in full |
| `TcpStreams.Handshake` | src/network/tcp.c:159-173 | a SYN is answered with one SYN-ACK that acknowledges it; the ACK that follows fixes the next sequence number, is answered one too high, and loses data it carries |
| `TcpStreams.Acknowledged` | src/network/tcp.c:181-202 | in answer to an in-order segment everything sent, response and FIN included, acknowledges exactly the bytes so far |
| `TcpStreams.Projected` | src/network/tcp.c:111-286 | in every run from distinct peers in which no SYN from address 0 opens a socket with the port of another live one, a connection whose known peer sends only data segments does and says what those segments alone would make it |
| `TcpStreams.RunServes` | src/network/tcp.c:175-244 | so in every such run it hands on exactly what its peer's bytes call for, whatever else the other peers do |
| `TcpLimits.ZeroSourceTakesOver` | src/network/tcp.c:67-68 | when a peer's slot lies above a free one, a SYN from address 0 and the peer's next segment leave two sockets with that peer |
| `TcpLimits.ZeroSourceClash` | src/network/tcp.c:149-151 | a run of six packets after which two live sockets have the same address and port |
| `TcpLimits.VisitExists` | src/network/tcp.c:246-249 | every peer, whatever its address other than 0 and its port, can make such a visit: SYN, ACK, a segment that holds a request, FIN |
| `TcpLimits.VisitSticks` | src/network/tcp.c:246-249 | among distinct peers, a visit by a new one ends with its slot in TIME_WAIT and nothing else changed |
| `TcpLimits.ThreeVisitsExhaust` | src/network/tcp.c:246-249 | three visits by different peers use up a freshly started server |
| `TcpLimits.AnyThreeExhaust` | src/network/tcp.c:246-249 | so any three different peers with an address other than 0 can do that with twelve packets |
| `TcpEvents.SegmentRead` | src/network/tcp.c:111-122 | a segment is read from its bytes: ports, numbers, flags, and as payload what lies behind a header of the length it claims |
| `TcpEvents.SegmentMoves` | src/network/tcp.c:153-273 | what a segment does to a live slot, state by state and field by field, and all that is sent, flags and numbers included |
| `TcpEvents.HeadIs` | src/network/tcp.c:205-212 | the head of a request ends behind the first bytes 13, 10, 13, 10 |
| `TcpEvents.StrangerOpens` | src/network/tcp.c:124-173 | a SYN for port 8080 that no socket matches opens the first closed slot, field by field, and is answered with one segment |
| `TcpEvents.StrangerRefused` | src/network/tcp.c:139-147 | any other segment that no socket matches changes nothing and is answered with a reset, numbered behind it, unless it is one |
| `TcpEvents.TickSays` | src/network/tcp.c:275-286 | a tick sends the SYN-ACK again exactly for sockets in SYN_RECEIVED last active more than one tick ago |
| `TcpEvents.SilentPeer` | src/network/tcp.c:275-286 | so a peer silent after its SYN is sent it with every second tick |
| `TcpEvents.OrderlyVisit` | src/network/tcp.c:153-263 | SYN, ACK, request, ACK, FIN from a new peer: everything said, with all numbers, and at the end the slot is closed and the rest of the table as it was |
| `TcpEvents.OrderlyExists` | src/network/tcp.c:246-263 | every peer with an address other than 0 can make such a connection |
| `TcpEvents.AllServed` | src/network/tcp.c:153-263 | any number of them, one after the other, are all served by a fresh server, and every slot is free afterwards |
| `Tcp.TcpSocket.Append` | src/network/tcp.c:195-198 | the copy loop puts the payload behind what is buffered |
| `Tcp.TcpSocket.FindEnd` | src/network/tcp.c:205-212 | the scan finds the end of the first blank line, or that there is none |
| `Tcp.TcpSocket.TakeData` | src/network/tcp.c:175-244 | in place, the ESTABLISHED and CLOSE_WAIT branch is the data step of the model, segments emitted included |
| `Tcp.TcpSocket.Advance` | src/network/tcp.c:155-272 | in place, the switch is the state machine of the model |
| `Tcp.Receiver.Init` | src/network/tcp.c:88-96 | the table it leaves is the one every run starts from |
| `Tcp.Receiver.SocketAlloc` | src/network/tcp.c:50-58 | the first closed slot, zeroed, and no other slot changed |
| `Tcp.Receiver.SocketLookup` | src/network/tcp.c:60-71 | the loop finds the first match |
| `Tcp.Receiver.ListenerLookup` | src/network/tcp.c:73-80 | the loop finds the first listener on the port |
| `Tcp.Receiver.Receive` | src/network/tcp.c:111-273 | on sockets updated in place, tcp_receive is one step of the model on every packet |
| `Tcp.Receiver.Periodic` | src/network/tcp.c:275-286 | and tcp_periodic is the tick |
| `Checksum.FoldValue` | src/network/ip.c:24-26 | folding ends, keeps the value modulo 0xFFFF, and gives 0 only for 0 |
| `Checksum.NoOverflow` | src/network/ip.c:14-23 | up to 131074 bytes the 32-bit accumulator does not overflow |
| `Checksum.OverflowsBeyond` | src/network/ip.c:14-23 | one byte more and it can |
| `Checksum.InsertedChecks` | src/network/ip.c:14-28 | a message with its checksum stored at an even offset that was zero sums to checksum 0 |
| `Checksum.OneWordChanged` | src/network/ip.c:14-28 | a change of one word goes unnoticed if and only if it swaps 0x0000 and 0xFFFF in a message whose other words are not all zero |
| `Checksum.ComputeIpChecksum` | src/network/ip.c:14-28 | the loops compute the complement of the folded sum, odd lengths included |
| `Ip.TcpSumSplits` | src/network/ip.c:73-111 | the sums of pseudo-header and segment, taken apart, fold to ip_checksum of the two joined |
| `Ip.ComputeTcpChecksum` | src/network/ip.c:73-111 | the loops, with their 32-bit accumulator, compute ip_checksum of the pseudo-header followed by the segment |
| `Ip.PacketChecks` | src/network/ip.c:48-63 | the header of every packet sent sums to checksum 0 |
| `Ip.SegmentChecks` | src/network/ip.c:118-131 | every TCP segment sent, behind its pseudo-header, sums to checksum 0 |
| `Ip.EchoChecks` | src/network/ip.c:169-175 | an echo reply sums to checksum 0 and differs from the request in type and checksum only |
| `Ip.PacketArrives` | src/network/ip.c:138-150 | a packet built for an address is taken by the machine with that address, sender and contents intact, and ignored by every other; the length field is not looked at, so padding becomes contents |
| `Ip.SegmentDecodes` | src/network/ip.c:113-134 | tcp_receive decodes the segment that net_send_tcp builds to the fields it was given, padding behind it to payload |
| `Ip.RunTyped` | src/network/tcp.c:111-286 | in every run the fields of every socket, and of everything sent, have the widths that net_send_tcp takes |
| `Ip.ExchangeFrames` | src/network/ip.c:113-134 | the frames that an exchange gives the driver: response and FIN, or the FIN alone, or none |
| `Ip.ResponseSent` | src/network/ip.c:113-134 | one of them carries the response if and only if it has at most 1994 bytes and the hardware address is known; the FIN is numbered as if the response had been sent in any case |
| `IpFields.RunCarries` | src/network/ip.c:113-134 | in every run, the frames sent in answer to an event carry exactly its segments of at most 1994 bytes, whole and in order, each from this machine to the resolved hardware address and taken by its peer from 10.0.2.15, if that address is known; otherwise there are none |
| `IpFields.FrameFields` | src/network/ip.c:30-42 | a frame is destination, the server's own address, type and payload, byte by byte |
| `IpFields.PacketFields` | src/network/ip.c:44-63 | every field of the header of a packet |
| `IpFields.SegmentFields` | src/network/ip.c:113-131 | every field of the header of a segment |
| `IpFields.PseudoFields` | src/network/ip.c:73-90 | and of the pseudo-header |
| `IpFields.DispatchIs` | src/network/ip.c:138-185 | exactly which packets go to TCP and which are answered as echo requests |
| `IpFields.ChecksumExample` | src/network/ip.c:14-28 | the example of section 3 of RFC 1071 |
| `Ip.LongResponse` | src/http.c:225-309 | there are responses longer than that which http_generate_response accepts |
| `Ip.Sender.SendEth` | src/network/ip.c:30-42 | the frame handed to the driver is addresses, type and payload, or none if the payload is too long |
| `Ip.Sender.SendIp` | src/network/ip.c:44-71 | the buffer filled field by field is the packet, the identification counts up, and an unresolved address sends nothing |
| `Ip.Sender.SendTcp` | src/network/ip.c:113-134 | the same for segments, refused beyond 1994 bytes of payload; its result is the driver's, or -1 if nothing was sent |
| `Ip.Sender.Receive` | src/network/ip.c:138-185 | ip_receive ignores, answers or passes on exactly as the packet's fields say, and answers an echo request with its reply |
| `Rings.WithinIs` | src/network/e1000.c:93-102 | a cyclic range of slots between two registers is the set of positions between two counters less than a ring apart |
| `E1000Rx.RxRing.DoneExactly` | src/network/e1000.c:93-102 | the done bit is set exactly on the slots from rx_head up to RDH, none of which the hardware may still write |
| `E1000Rx.RxRing.HardwareStep` | src/network/e1000.c:93-95 | a step of the hardware, which may write anywhere in the buffers it owns, overwrites no frame that is waiting |
| `E1000Rx.RxRing.Receive` | src/network/e1000.c:187-210 | with hardware steps between any two accesses, 0 means that the next frame in order was returned whole and handed back, and -1 that no frame was waiting |
| `E1000Tx.TxRing.OwnedExactly` | src/network/e1000.c:104-109 | the hardware owns exactly the slots of the frames not yet sent, and never the slot at tx_tail |
| `E1000Tx.TxRing.Fill` | src/network/e1000.c:161-170 | the stores to buffer and descriptor touch only that slot, whatever the hardware sends meanwhile |
| `E1000Tx.TxRing.HardwareStep` | src/network/e1000.c:104-109 | sending a frame and marking its descriptor done are two steps, the second any time later; neither touches what the driver is filling in |
| `E1000Tx.TxRing.Send` | src/network/e1000.c:147-184 | frames are sent once each in queue order; -1 means that this frame is queued or that 31 were pending; 0 means that it was sent, provided fewer than 32 queued descriptors were unmarked before the call |
| `E1000Tx.LagStaysShort` | src/network/e1000.c:176-183 | given what each call promises of that number, it stays below 32 as long as of any 32 calls in a row one returns 0 |
| `E1000Tx.TxRing.SendAll` | src/network/e1000.c:147-184 | so in any sequence of calls, with hardware steps between them, every return of 0 means that all frames queued were sent by then, if no 32 calls in a row return -1 |
| `E1000Tx.TxRing.LateMark` | src/network/e1000.c:176-181 | with more than 32 descriptors unmarked and the last frame unsent, late marks of earlier frames make the polling loop see its descriptor done |
| `E1000Tx.TxRing.Misled` | src/network/e1000.c:147-184 | so the bound of 32 is exact: from every state with room and 32 or more unmarked before the call, its frame can look sent while it is not |
| `E1000Tx.TimeoutsMislead` | src/network/e1000.c:176-183 | a run from the start that gets there: 32 frames sent and not marked, and a 33rd that looks sent |
| `E1000Tx.LengthLimit` | src/network/e1000.c:162 | the copy stays within its slot's buffer, for every slot, if and only if the frame has at most 2048 bytes |

## Left out

- Addresses are offsets from an 8-aligned arena base and NULL is a value outside the arena; the block layout beside the bytes is a proof device.
- Allocator.Heap.Realloc: does not model what happens after a copy that overruns its block; `HeapRuns.GrowthFits` says exactly when it does.
- Allocator.Heap.Perform: does not model it either.
- Allocator.Heap.Free: does not model stale pointers into a payload that was handed out again, whose old header reads whatever was written there.
- JsonNumber.LiteralValue: does not model rounding of doubles, because the arithmetic is over the reals; exponents beyond int are not modelled either.
- JsonParser.Parser.ScanNumber: does not model rounding of doubles either.
- JsonLiterals.NumberLiteral: does not model it either, so the identity is exact.
- JsonLiterals.TruncatedIs: does not model numbers outside the range of int, whose conversion C leaves undefined.
- RequestFields.CompletionFields: does not model the narrowing of numbers to float, nor integers outside the range of int.
- ChatFields.ChatFieldsMeant: does not model them either.
- TokenFields.TokenFieldsMeant: does not model integers outside the range of int.
- Completion.ParseCompletionRequest: does not model the narrowing of numbers to float, nor integers from doubles outside the range of int.
- Completion.CompletionReadsBack: does not model that narrowing either; float fields read back as exact reals.
- Chat.ParseChatRequest: does not model that narrowing, nor those integers, either.
- Chat.ChatReadsBack: does not model that narrowing either; float fields read back as exact reals.
- Detokenize.ParseDetokenizeRequest: does not model integers from doubles outside the range of int.
- JsonParser.Parser.ParseInt: does not model doubles outside the range of int, whose conversion C leaves undefined.
- JsonParser.Parser.ParseString: returns the C string it leaves in the caller's buffer instead of filling a buffer.
- E1000Tx.TxRing.Send: does not model frames of more than 2048 bytes, whose copy runs on into the next slot's buffer, as `E1000Tx.LengthLimit` says; net_send_eth passes none.
- `json_write_float`, `json_write_int64` and request ids: floating-point text, and a directive that the formatter copies literally.
- INT_MIN under `%d`: printed like every other int, although the negation in src/string.c:128 overflows there.
- Characters are values of `char`; the model gives bytes above 127 no meaning of their own.
- The stop, top_k, seed and penalty fields that no chat parser branch fills; the tokenize and embedding parsers, whose loops are the completion parser's.
- The request handlers and routing in src/api.c and src/api_v1.c, which ignore what the writer returns: the reply to a request is an input of the TCP model.
- Request parsing in src/http.c apart from Content-Length: `headers_start` has moved to the last header line before the copy is sized, so only a prefix of the headers is seen.
- tx_buf and the bytes beyond rx_len in a TCP socket: no code reads them.
- Sequence and acknowledgement numbers of arriving segments are not checked by the receiver, and RST is ignored; the model does the same and claims no conformance to section 3.10 of RFC 9293.
- ARP is the answer to one lookup; the driver's answer to a frame is an input of the IP model.
- PCI, register programming, receive errors, frames over several descriptors and the check that the device was found in src/network/e1000.c.
- The spinlock and interrupt flag, serial and VGA output, and the inference stubs.
