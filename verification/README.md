# fsw: a verified model of its codecs, parser and coroutines

This project models the protocol code of fsw in Dafny and proves what that code is for: the HPACK
header compressor, the incremental HTTP/1 parser, the coroutine scheduler with its channels, the
WebSocket frame codec and base 64. `dafny verify dfyconfig.toml` checks all of it.

Each part has a reference definition on values and a form that follows the source.

- **HPACK** (RFC 7541). `HeaderTable` defines the dynamic table as a newest-first sequence,
  `Encoding` the bytes of a block, `Decoding` a decoder that reads one byte at a time. `Reading` and
  `Connection` prove that the two ends stay in step over a whole connection. `RingBuffer`, `HdMap`
  and `HdContext` are the table as the source keeps it: a ring buffer, hash chains through the
  entries, byte counts and a 32-bit sequence counter. `Deflater` and `Inflater` are the two machines
  over them, proved equal to the reference encoder and decoder; `Feeding` relates a call that
  handles many bytes to the byte-wise decoder, and `Session` uses both classes over a connection.
  `Choosing` says which representation a header gets, `Refusing` what the decoder refuses and what
  limits its table.
  `PrefixInt`, `Huffman`, `HuffmanEncoder`, `Bufs` and `Emitting` are the layers below, `Bound` the
  size estimate, `RcBuf` the reference counts.
- **HTTP/1**. `HttpMachine` is the parser of the strict configuration as a machine that reads one
  byte at a time, all states included; `HttpCall` is the same with the counting of one call.
  `HttpParser` is `http_parser_execute` with its marks, inner scans and bulk counting, proved equal
  to the machine of one call. `HttpReach` has what holds in all states that can be reached.
  `HttpFraming` says where bodies begin and end by their lengths alone and proves that the machine
  agrees; `HttpHeaders` does so from whole header blocks. `HttpOptions`, `HttpFields`, `HttpLines`
  and `HttpStart` say what start lines, names, values and blocks mean, by their bytes; `HttpPersist`
  proves of whole messages where they end and what the connection is good for afterwards.
- **Coroutines**. `Scheduling` and `ChannelRuns` are step machines over whole runs; `Coroutine` and
  `Channel` are the classes, cut into methods at the places where control passes to another
  coroutine, and proved to make the steps of the machines.
- **WebSocket and base 64**. `ByteOrder` relates numbers to bytes in memory and on the network;
  `WebSocket` defines frames and masking, `Frame` has the buffer and the two directions; `Base64`
  has the encoding, its definition by groups of six bits, and the loops.

Widths and wrap-around are modelled where the source relies on them: the 32-bit sequence counter,
`size_t` underflow of the ring buffer's `first`, 32-bit shifts of Huffman codes, the overflow tests
of the integer decoder, 64-bit lengths in the HTTP parser with the sentinel `ULLONG_MAX`.

Some claims one might make of the code are not true of all inputs, and the model says when they are.

- Section 4.2 of RFC 7541 has the smallest table limit between two blocks announced. The decoder
  remembers only the last limit that was below its predecessor, so after 100, 4000 and 200 an update
  to 200 is enough. `LeastDemanded` says when it insists on the smallest.
- A Connection header lists options. The parser overlooks the option after one that is the beginning
  of a word it knows, and stops at an empty element and, after a comma, at one that begins with an
  underscore or a tab. `OptionsRead` and `OptionsListed` say exactly what it notes, `CloseUnnoticed` has a `close` it
  does not see.
- `nghttp2_hd_deflate_bound` is described as an upper bound. It allows twelve bytes for each header
  and twelve for size updates, but a literal with two strings of at least 2^28 + 127 bytes that do
  not shrink takes thirteen. `BoundExact` says which single headers can exceed their bound,
  `BlockBound` proves it for every list without such headers. `BlockExact` has the condition for every
  list in every state, `BoundOverrun` for every list in a state that two size changes lead to, where
  the other headers alone decide how much room there is.
- A decoder frees every buffer exactly once unless `nghttp2_hd_inflate_end_headers` is called in the
  middle of a literal and a later literal overwrites the slot that was left filled. `LosesExactly`
  is the exact condition, `LosingInput` an input.
- How input is cut into calls makes no difference to the HTTP parser as long as a call gets at most
  2^32 bytes less the header limit; beyond that the 32-bit count of header bytes can wrap.
  `SplitExactly` says so for every state that input leads to, and `Wraps` has the input.
- Producers and consumers of a channel never both wait if and only if it has a capacity. Without one
  every call waits for good.
- The origins of coroutines lead to null as long as only suspended ones are resumed; the source
  tests no more than `current != this`. `EndsExactly` and `ResumedCreator` say so.

## Model

| member | source | states |
|---|---|---|
| `Connection.RoundTrip` | thirdparty/nghttp2/nghttp2_hd.c:1317-2211 | for every sequence of header lists and table-size changes the decoder emits each list as it was sent, in order, and after each block both dynamic tables and limits are equal; it gives up if and only if some string takes more than 65536 bytes on the wire |
| `Connection.ConverseInSync` | thirdparty/nghttp2/nghttp2_hd.c:1222-1464 | from any state in which the two ends are in step, a whole conversation keeps them in step and is refused exactly when a string is too long |
| `Connection.BlockInSync` | thirdparty/nghttp2/nghttp2_hd.c:1415-1464 | one block: the list comes out as it went in and the ends stay in step; refused, after exactly the headers before it, if and only if a string is too long for the decoder |
| `Connection.ResizeInSync` | thirdparty/nghttp2/nghttp2_hd.c:1222-1268 | any number of size changes between two blocks, applied at both ends, keep the encoder's early and the decoder's late evictions consistent (section 4.2 of RFC 7541) |
| `Connection.RunAnnounced` | thirdparty/nghttp2/nghttp2_hd.c:1425-1447 | the at most two size updates at the start of a block bring the decoder's table to the encoder's, whatever changes came before |
| `Connection.RunHeaders` | thirdparty/nghttp2/nghttp2_hd.c:1317-1413 | all headers of a block are decoded as they were sent and both tables change alike |
| `Connection.RepStands` | thirdparty/nghttp2/nghttp2_hd.c:1317-1413 | whatever representation the encoder chooses stands for exactly the header at hand and asks for the table change the encoder makes |
| `Connection.SettledAfterBlock` | thirdparty/nghttp2/nghttp2_hd.c:1425-1447 | a block leaves no size change unannounced |
| `Reading.RunHeader` | thirdparty/nghttp2/nghttp2_hd.c:1838-2205 | the decoder reads any one representation, whatever follows it, as the header it stands for with the table change of its mode, or refuses it for its length |
| `Reading.RunString` | thirdparty/nghttp2/nghttp2_hd.c:1661-1701 | a string literal, Huffman-coded or plain, is stored exactly, or refused exactly when it is over the limit |
| `Reading.RunUpdate` | thirdparty/nghttp2/nghttp2_hd.c:1907-1925 | a size update is refused if and only if it exceeds the limit from the settings or the bound of a size change that is to be announced; any other evicts to the new size |
| `Reading.RunInt` | thirdparty/nghttp2/nghttp2_hd.c:1620-1646 | checking the bound of an integer after every byte or once at the end of a piece gives the same answer |
| `Decoding.RunSplit` | thirdparty/nghttp2/nghttp2_hd.c:1838-2205 | reading input in two pieces gives the same headers and the same state or error as reading it whole; if it is refused, the same headers come before |
| `Decoding.FeedAny` | thirdparty/nghttp2/nghttp2_hd.c:1838-2205 | the same for any number of pieces |
| `Inflaters.Inflater.InflateHdNv` | thirdparty/nghttp2/nghttp2_hd.c:1838-2205 | the resumable decoder, which handles runs of bytes at a time, stops at each header, whatever follows it, or at the end of the input, exactly where and in the state the byte-wise machine has, and fails exactly when that fails before the next header; after a failure it can be called and keeps failing (what the machine accepts and refuses is in the rows of `Reading` and `Refusing`) |
| `Inflaters.Inflater.ChangeTableSize` | thirdparty/nghttp2/nghttp2_hd.c:1238-1268 | refused in the middle of a block; otherwise the limit changes, the table is evicted to it, and a shrink has to be announced |
| `Inflaters.Inflater.CommitHeader` | thirdparty/nghttp2/nghttp2_hd.c:1725-1803 | a finished literal emits its header and enters the table as its representation says |
| `Inflaters.Inflater.EndHeaders` | thirdparty/nghttp2/nghttp2_hd.c:2207-2211 | the next block starts afresh, nothing else changes, whatever the decoder was in the middle of |
| `Feeding.AcceptedDefined` | thirdparty/nghttp2/nghttp2_hd.c:1838-2205 | input that the byte-wise machine accepts has no integer that C leaves undefined |
| `Refusing.AlwaysLimited` | thirdparty/nghttp2/nghttp2_hd.c:1238-1268 | after any input, ends of blocks and changes of the settings, the table takes no more than its limit and that no more than the settings last said |
| `Refusing.UpdateTooLate` | thirdparty/nghttp2/nghttp2_hd.c:1872-1880 | a size update after a header is refused |
| `Refusing.ShrinkDemands` | thirdparty/nghttp2/nghttp2_hd.c:1861-1867 | after changes of the settings among which one made the table smaller, a block that begins with a header is refused |
| `Refusing.LeastDemanded` | thirdparty/nghttp2/nghttp2_hd.c:1238-1268 | the decoder insists on an announcement of the smallest limit, as section 4.2 of RFC 7541 wants, if and only if that was the last limit below its predecessor or the last of all |
| `Refusing.LeastForgotten` | thirdparty/nghttp2/nghttp2_hd.c:1250-1261 | limits for which it does not: 100, 4000 and 200 |
| `Refusing.BadIndex` | thirdparty/nghttp2/nghttp2_hd.c:1927-1955 | index zero and indices beyond both tables are refused |
| `Refusing.BadName` | thirdparty/nghttp2/nghttp2_hd.c:1927-1955 | so are names by an index beyond both tables |
| `Refusing.RunAnyString` | thirdparty/nghttp2/nghttp2_hd.c:1661-1701 | a string literal of any bytes in either coding: refused if and only if it is too long, no Huffman code or cut off inside one; otherwise stored as what it denotes |
| `Refusing.CutOff` | thirdparty/nghttp2/nghttp2_hd.c:2176-2190 | a block that ends inside a header is refused at its end, wherever it is cut |
| `Session.Hold` | thirdparty/nghttp2/nghttp2_hd.c:678-2211 | the two classes over a whole connection: every list whose strings the decoder accepts, deflated, cut anywhere and inflated, arrives as it was sent, whatever happens to the table sizes in between |
| `Session.Transmit` | thirdparty/nghttp2/nghttp2_hd.c:1466-2211 | one block from a deflater to an inflater in step with it, in pieces of any lengths: a list whose strings the decoder accepts arrives and they stay in step |
| `Session.Receive` | thirdparty/nghttp2/nghttp2_hd.c:1838-2211 | calling the inflater again and again on the pieces of an accepted block gives the headers and the state of the block read whole |
| `Session.DeflateBounded` | thirdparty/nghttp2/nghttp2_hd.c:1466-1555 | with a buffer of `nghttp2_hd_deflate_bound` bytes the deflater never runs out of room for a list without oversized headers |
| `Choosing.Chosen` | thirdparty/nghttp2/nghttp2_hd.c:1299-1413 | authorization, cookies under 20 bytes and headers the caller flags are literals that begin with 0001 and change no table; any other header is an index exactly if a table has it; and what is new enters the table exactly if its name is not one of eight and it takes at most three quarters of the table |
| `Choosing.ChosenIndex` | thirdparty/nghttp2/nghttp2_hd.c:1149-1198 | an index refers to the newest dynamic entry equal to the header, or else to the first static one |
| `Choosing.ChosenName` | thirdparty/nghttp2/nghttp2_hd.c:1149-1198 | a literal names its first static entry, or else its newest dynamic one, or spells the name out if it is in neither table |
| `Choosing.AnnouncedExactly` | thirdparty/nghttp2/nghttp2_hd.c:1222-1236 | a block begins with size updates exactly if the limit changed since the last block: the smallest limit, if that is not the final one, and the final one |
| `Encoding.StringShortest` | thirdparty/nghttp2/nghttp2_hd.c:948-1000 | a string is sent in the coding that makes the literal shorter, plain if both are equally long |
| `Feeding.IntDoes` | thirdparty/nghttp2/nghttp2_hd.c:1620-1646 | finishing an integer in the middle of a call comes to what the byte-wise machine does on its bytes |
| `Feeding.BodyDoes` | thirdparty/nghttp2/nghttp2_hd.c:1661-1701 | reading as much of a string as there is comes to what the byte-wise machine does on those bytes, also at the end of the string |
| `Deflaters.Deflater.DeflateNv` | thirdparty/nghttp2/nghttp2_hd.c:1317-1413 | appends the representation of one header and changes the table as the reference encoder does, or fails exactly when there is no room (which representation that is: `Choosing`) |
| `Deflaters.Deflater.DeflateHdBufs` | thirdparty/nghttp2/nghttp2_hd.c:1415-1464 | appends the whole block of the reference encoder, or fails exactly when it does not fit; after a failure it keeps failing |
| `Deflaters.Deflater.DeflateHdVec` | thirdparty/nghttp2/nghttp2_hd.c:1498-1529 | into any vector of chunks, none but the first empty: the concatenated bytes are those of the block, and the only reason to fail is too little total room |
| `Deflaters.Deflater.DeflateHd` | thirdparty/nghttp2/nghttp2_hd.c:1466-1496 | the same block into one buffer, failing exactly when it is longer than the buffer |
| `Deflaters.Deflater.ChangeTableSize` | thirdparty/nghttp2/nghttp2_hd.c:1222-1236 | the new limit, the smallest limit since the last block and the eviction to it |
| `Deflaters.Deflater.SearchHdTable` | thirdparty/nghttp2/nghttp2_hd.c:1173-1198 | the index found through hash buckets and sequence numbers is the one a scan of the static and the dynamic table finds |
| `Deflaters.SeqGivesIndex` | thirdparty/nghttp2/nghttp2_hd.c:1173-1198 | `next_seq - 1 - seq` is the place of an entry in the table even after the 32-bit counter has wrapped |
| `Emitting.EmitString` | thirdparty/nghttp2/nghttp2_hd.c:948-991 | appends a string literal, coded whichever way is shorter, or fails exactly when it does not fit |
| `Emitting.EmitLiteral` | thirdparty/nghttp2/nghttp2_hd.c:1009-1075 | appends a literal with indexed or new name in the given mode, or fails exactly when it does not fit |
| `Bound.BlockBound` | thirdparty/nghttp2/nghttp2_hd.c:1531-1555 | in every state no block takes more than the bound, unless one of its headers is oversized: not in the static table, with two strings of at least 2^28 + 127 bytes that do not shrink |
| `Bound.BlockExact` | thirdparty/nghttp2/nghttp2_hd.c:1531-1555 | in every state, for every list: the block stays within the bound if and only if no more headers are spelled out with two strings of that length than the other headers and the size updates leave bytes unused |
| `Bound.BoundExact` | thirdparty/nghttp2/nghttp2_hd.c:1531-1555 | a block with one header stays within the bound in every state of the encoder if and only if the header is not oversized |
| `Bound.BoundOverrun` | thirdparty/nghttp2/nghttp2_hd.c:1531-1555 | after two size changes of a new encoder: a list stays within the bound if and only if it has no more oversized headers than the block of its other headers alone leaves bytes of its bound unused |
| `Bound.AcceptedBound` | thirdparty/nghttp2/nghttp2_hd.c:1531-1555 | the bound also holds for every block whose strings the decoder accepts |
| `Bound.DeflateBound` | thirdparty/nghttp2/nghttp2_hd.c:1531-1555 | the bound is 12 bytes, 12 for each header, and all names and values |
| `HeaderTable.EvictFewest` | thirdparty/nghttp2/nghttp2_hd.c:1200-1220 | eviction keeps the longest run of newest entries that fits (section 4.3 of RFC 7541) |
| `HeaderTable.EvictTwice` | thirdparty/nghttp2/nghttp2_hd.c:1200-1220 | evicting to several limits in turn comes to evicting once to the smallest |
| `HeaderTable.Search` | thirdparty/nghttp2/nghttp2_hd.c:1173-1198 | the index found refers to an entry with the name, and to the field itself if the match is exact; never exact for names only (what is found: the next three rows) |
| `HeaderTable.SearchDynamic` | thirdparty/nghttp2/nghttp2_hd.c:1173-1198 | a field of the dynamic table is found exactly, at its newest place |
| `HeaderTable.SearchStatic` | thirdparty/nghttp2/nghttp2_hd.c:1149-1171 | any other field is found exactly if and only if the static table has it, at its first place |
| `HeaderTable.SearchName` | thirdparty/nghttp2/nghttp2_hd.c:1149-1198 | otherwise the first static entry with the name, or else the newest dynamic one, or else nothing |
| `HeaderTable.AddEvicts` | thirdparty/nghttp2/nghttp2_hd.c:1077-1147 | adding an entry is evicting from the table with the entry in front, also when it is larger than the table (section 4.4 of RFC 7541) |
| `HdContexts.HdContext.AddIncremental` | thirdparty/nghttp2/nghttp2_hd.c:1077-1141 | adding refines the table of the standard (section 4.4 of RFC 7541): the fewest oldest entries go, an oversized entry empties the table, the byte count stays the sum of the entry sizes and within the limit, and the hash map holds exactly the live entries |
| `HdContexts.HdContext.Shrink` | thirdparty/nghttp2/nghttp2_hd.c:1200-1220 | evicts the fewest oldest entries that make the table fit its limit, in the ring buffer, the byte count and the hash map alike |
| `HdContexts.HdContext.MakeRoom` | thirdparty/nghttp2/nghttp2_hd.c:1087-1108 | evicts the fewest oldest entries so that the new entry fits, or everything if it never can |
| `HdContexts.NumberedCons` | thirdparty/nghttp2/nghttp2_hd.c:1131-1136 | a new entry keeps all sequence numbers in step with the table positions through the wrap of the counter |
| `HdMaps.HdMap.Find` | thirdparty/nghttp2/nghttp2_hd.c:530-557 | what is found in one bucket is what a newest-first scan of the whole table finds: the first exact match, otherwise the first with the name |
| `HdMaps.HdMap.Insert` | thirdparty/nghttp2/nghttp2_hd.c:515-528 | all buckets again hold exactly their entries, newest first |
| `HdMaps.HdMap.Remove` | thirdparty/nghttp2/nghttp2_hd.c:559-573 | exactly the entry is gone from its bucket, all others stay in order |
| `HdMaps.BucketHasNamed` | thirdparty/nghttp2/nghttp2_hd.c:530-557 | the first entry with a name, and the first equal field, of the whole table are the first ones of their bucket |
| `RingBuffers.RingBuffer.Get` | thirdparty/nghttp2/nghttp2_hd.c:590-594 | masked indexing reads the deque's element although `first + idx` wraps |
| `RingBuffers.RingBuffer.Reserve` | thirdparty/nghttp2/nghttp2_hd.c:596-619 | growing keeps the contents and their order |
| `RingBuffers.RingBuffer.PushFront` | thirdparty/nghttp2/nghttp2_hd.c:635-649 | puts an element in front of the deque, through the underflow of `first` and growth |
| `RingBuffers.RingBuffer.PopBack` | thirdparty/nghttp2/nghttp2_hd.c:651-654 | drops the last element of the deque |
| `RingBuffers.PowerFor` | thirdparty/nghttp2/nghttp2_hd.c:575-588 | the smallest power of two that is large enough |
| `PrefixInt.RoundTrip` | thirdparty/nghttp2/nghttp2_hd.c:776-892 | every 32-bit integer decodes to itself behind any flag bits and in front of anything, using up exactly its bytes (section 5.1 of RFC 7541) |
| `PrefixInt.RoundTripSplit` | thirdparty/nghttp2/nghttp2_hd.c:835-892 | the same when the encoding arrives in two pieces, cut anywhere |
| `PrefixInt.Shortest` | thirdparty/nghttp2/nghttp2_hd.c:776-892 | no input that decodes to an integer takes fewer bytes than its encoding |
| `PrefixInt.DecodeSplit` | thirdparty/nghttp2/nghttp2_hd.c:835-892 | decoding any input in two calls gives the outcome of one call: value, bytes used, need for more, or refusal |
| `PrefixInt.DecodeLength` | thirdparty/nghttp2/nghttp2_hd.c:835-892 | the loop with its shift, overflow tests and resumption computes the reference decoding |
| `PrefixInt.EncodeLength` | thirdparty/nghttp2/nghttp2_hd.c:793-816 | writes the encoding over the buffer, leaving the flag bits of the first byte |
| `PrefixInt.CountEncodedLength` | thirdparty/nghttp2/nghttp2_hd.c:776-791 | the length of the encoding |
| `PrefixInt.FlagsUntouched` | thirdparty/nghttp2/nghttp2_hd.c:793-816 | the bits above the prefix are those that were there |
| `Huffman.RoundTrip` | thirdparty/nghttp2/nghttp2_hd_huffman.c:152-231 | table-driven decoding of an encoded string gives the string back in an accepting state (section 5.2 of RFC 7541) |
| `Huffman.DecodeSplit` | thirdparty/nghttp2/nghttp2_hd_huffman.c:198-231 | decoding in two pieces gives the same symbols and the same state |
| `Huffman.DecodeWalks` | thirdparty/nghttp2/nghttp2_hd_huffman.c:198-231 | two table look-ups for each byte walk the code tree bit by bit |
| `Huffman.HuffDecode` | thirdparty/nghttp2/nghttp2_hd_huffman.c:198-231 | the loop writes the decoded symbols, at most two for each input byte, and keeps the context for the next piece |
| `Huffman.HuffEncodeCount` | thirdparty/nghttp2/nghttp2_hd_huffman.c:141-150 | the length of the encoded string |
| `HuffmanEncoder.HuffEncode` | thirdparty/nghttp2/nghttp2_hd_huffman.c:152-191 | appends the concatenated codes with the padding to any chain of chunks, and fails exactly when they do not fit |
| `HuffmanEncoder.HuffEncodeSym` | thirdparty/nghttp2/nghttp2_hd_huffman.c:40-139 | one symbol: the fast writes and the byte-by-byte path append the same bits at every position of a chunk boundary |
| `HuffmanEncoder.FastPath` | thirdparty/nghttp2/nghttp2_hd_huffman.c:106-138 | the unchecked writes append exactly the rest of the code |
| `HuffmanEncoder.SlowPath` | thirdparty/nghttp2/nghttp2_hd_huffman.c:67-104 | the checked writes append exactly the rest of the code or fail for want of room |
| `Bufs.Bufs.Add` | thirdparty/nghttp2/nghttp2_buf.c:330-356 | appends across chunk boundaries; fails exactly when the data does not fit, having filled all room |
| `Bufs.Bufs.AddB` | thirdparty/nghttp2/nghttp2_buf.c:376-387 | appends one byte, in the next chunk if the current one is full |
| `Bufs.Bufs.AddBHold` | thirdparty/nghttp2/nghttp2_buf.c:389-400 | stores a byte at the write position without claiming it |
| `Bufs.Bufs.AllocChain` | thirdparty/nghttp2/nghttp2_buf.c:298-328 | moves on to the next chunk without changing what was written or how much room is left |
| `Bufs.Bufs.Wrap` | thirdparty/nghttp2/nghttp2_buf.c:197-262 | wraps the caller's chunks, none but the first empty: nothing is written and the room is their total length |
| `Bufs.Bufs.Len` | thirdparty/nghttp2/nghttp2_buf.c:286-296 | the number of bytes written |
| `Bufs.Bufs.NoGaps` | thirdparty/nghttp2/nghttp2_buf.c:298-400 | the bytes written fill the caller's memory from the front, without gaps |
| `RcBufs.Run` | thirdparty/nghttp2/nghttp2_hd.c:743-762 | over every run of decoder operations that ends with the decoder being freed, everything is freed exactly once if and only if no string began while its slot still held another; static buffers are never freed |
| `RcBufs.LosesExactly` | thirdparty/nghttp2/nghttp2_hd.c:1999-2211 | that happens if and only if `nghttp2_hd_inflate_end_headers` was called in the middle of a literal whose slot a later literal uses |
| `RcBufs.NothingLost` | thirdparty/nghttp2/nghttp2_hd.c:2207-2211 | in particular never if every block is ended with both slots empty, as they are between literals |
| `RcBufs.LosingRunLoses` | thirdparty/nghttp2/nghttp2_hd.c:1999-2211 | a shortest run that loses a buffer |
| `RcBufs.LosingInput` | thirdparty/nghttp2/nghttp2_hd.c:1838-2211 | the two bytes 0x40 0x03, the end of the block and the same two bytes make the decoder begin a name twice |
| `RcBufs.Holder.Perform` | thirdparty/nghttp2/nghttp2_hd.c:1725-2211 | every operation, in every order the decoder allows, keeps every count equal to the number of holders and of lost references, and loses one exactly when it overwrites a filled slot |
| `RcBufs.Holder.BeginName` | thirdparty/nghttp2/nghttp2_hd.c:1996-2005 | a new name buffer; what the slot held is held by nobody any more |
| `RcBufs.Holder.CommitIndname` | thirdparty/nghttp2/nghttp2_hd.c:1770-1803 | adding a literal whose name comes from the table keeps the counts even when that entry is evicted to make room |
| `RcBufs.Holder.CommitNewname` | thirdparty/nghttp2/nghttp2_hd.c:1725-1757 | the references of the slots pass to the application, the table takes its own |
| `RcBufs.Holder.DeflateAdd` | thirdparty/nghttp2/nghttp2_hd.c:1371-1402 | the encoder takes a reference of a static name or copies the name, copies the value, and gives both back whether or not the entry was stored |
| `RcBufs.RunEncoder` | thirdparty/nghttp2/nghttp2_hd.c:1371-1402 | over every run of the encoder everything is freed exactly once |
| `RcBufs.Holder.Free` | thirdparty/nghttp2/nghttp2_hd.c:755-762 | gives back all references of the decoder |
| `RcBufs.Holder.HeldAlive` | thirdparty/nghttp2/nghttp2_rcbuf.c:74-92 | a buffer somebody holds has not been freed and its count is the number of holders |
| `RcBufs.Holder.AllFreed` | thirdparty/nghttp2/nghttp2_rcbuf.c:82-92 | without holders everything has been freed once, if and only if no reference was lost |
| `RcBufs.RcBuf.Decref` | thirdparty/nghttp2/nghttp2_rcbuf.c:82-92 | one holder less, freed if it was the last |
| `RcBufs.RcBuf.Incref` | thirdparty/nghttp2/nghttp2_rcbuf.c:74-80 | one holder more; static buffers are not counted |
| `HttpParsers.HttpParser.Execute` | thirdparty/http/http_parser.c:638-2084 | one call of the parser on input of any length, with marks, inner scans and 32-bit bulk counting, ends in the same state after the same callbacks (adjacent data joined), or fails, exactly as the machine of one call; where it leaves for another protocol it does so after the same callbacks and has read the same number of bytes |
| `HttpCalls.CallIsRun` | thirdparty/http/http_parser.c:638-2084 | a call on at most 2^32 bytes less the header limit does exactly what the byte-wise machine does |
| `HttpCalls.CallsAreRun` | thirdparty/http/http_parser.c:638-2084 | split independence: any number of such calls, however the input is cut, have the outcome, the state and the callbacks of the byte-wise machine on the whole input |
| `HttpCalls.SplitExactly` | thirdparty/http/http_parser.c:154-161 | after any input, cutting a call of up to a given length makes no difference if and only if the length plus the header limit is at most 2^32 |
| `HttpCalls.Wraps` | thirdparty/http/http_parser.c:1366-1372 | a request whose header is one byte short of the limit in the middle of a name: the rest of the name is accepted in one call, its count having wrapped, and refused when cut after one byte |
| `HttpCalls.LeadsToFull` | thirdparty/http/http_parser.c:1214-1420 | that request is read from the start up to that byte, in the middle of the name |
| `HttpMachine.SplitIndependence` | thirdparty/http/http_parser.c:638-2084 | the byte-wise machine does not depend on how its input is cut |
| `HttpMachine.RunSplit` | thirdparty/http/http_parser.c:638-2084 | the same for two pieces, for every input and every state |
| `HttpReach.NoAssertionFails` | thirdparty/http/http_parser.c:1361-2048 | what the source asserts of lengths, flags, counts and matchers holds in every state that any input leads to |
| `HttpReach.EofAccepts` | thirdparty/http/http_parser.c:658-682 | after any input the end of the connection is accepted if and only if every message that was begun is complete or is completed by it |
| `HttpParsers.HttpParser.AtEof` | thirdparty/http/http_parser.c:658-682 | the call at the end of the connection succeeds if and only if every message that was begun is complete then |
| `HttpParsers.HttpParser.FieldCase` | thirdparty/http/http_parser.c:1248-1382 | scanning a header name and counting it at once comes to reading it byte by byte |
| `HttpParsers.HttpParser.ValueCase` | thirdparty/http/http_parser.c:1469-1668 | the same for a value, including the byte that is passed over unread at the limit of the inner loop |
| `HttpParsers.HttpParser.CountHeaderSize` | thirdparty/http/http_parser.c:154-161 | the count is the sum modulo 2^32, compared with the limit |
| `HttpParsers.HttpParser.IdentityCase` | thirdparty/http/http_parser.c:1873-1908 | reads as much of a sized body as there is and completes the message with its last byte |
| `HttpParsers.HttpParser.ChunkCase` | thirdparty/http/http_parser.c:2007-2028 | reads as much of a chunk as there is |
| `HttpParsers.HttpParser.EofCase` | thirdparty/http/http_parser.c:1910-1914 | everything up to the end of the connection is body |
| `HttpParsers.HttpParser.FinishMessage` | thirdparty/http/http_parser.c:1916-1923 | the end of a message: completed and in the state `NewMessage` names, which `HttpPersist` gives by the bytes of the message, or left for another protocol with the rest of the input unread |
| `HttpFraming.ChunkedMessage` | thirdparty/http/http_parser.c:1925-2045 | an accepted chunked message delivers as body exactly the concatenated data of its chunks up to the byte that completes it; the trailer adds nothing |
| `HttpFraming.ChunkedBody` | thirdparty/http/http_parser.c:1925-2045 | the parser takes a chunked body apart as the lengths of its chunks say, refuses it exactly when it is malformed, and asks for more exactly when it is cut off |
| `HttpFraming.RunLine` | thirdparty/http/http_parser.c:1925-2005 | the line of a chunk: its hexadecimal size, optional parameters, and every way to refuse it |
| `HttpFraming.RunHex` | thirdparty/http/http_parser.c:1941-1976 | chunk-size digits give their number or are refused as too large |
| `HttpFraming.BodyOfPieces` | thirdparty/http/http_parser.c:2007-2045 | the body callbacks of a list of chunks join to their data in order |
| `HttpFraming.RunTrailer` | thirdparty/http/http_parser.c:1757-1767 | the trailer completes the message and delivers no body |
| `HttpHeaders.SizedBlock` | thirdparty/http/http_parser.c:1198-1923 | a whole header block with one Content-Length line, its name in any case, spaces after it, lines ended by LF alone or with CR, and anything else around it: the body is exactly the bytes the line says, and the message is complete with the last |
| `HttpHeaders.ChunkedBlock` | thirdparty/http/http_parser.c:1198-2045 | a whole header block with a line that says chunked, in any case, spaces after it, lines ended by LF alone or with CR: its chunks are read next |
| `HttpHeaders.ContentLengthLine` | thirdparty/http/http_parser.c:1248-1712 | such a line stores its number, or is refused as too large |
| `HttpHeaders.ChunkedLine` | thirdparty/http/http_parser.c:1248-1712 | such a line is recognised |
| `HttpHeaders.EmptyLine` | thirdparty/http/http_parser.c:1714-1775 | LF alone ends the block as LF after CR does: the flags of the last value are set, and a last value that was empty is reported |
| `HttpHeaders.BlockKeeps` | thirdparty/http/http_parser.c:1198-1756 | the rest of the header block cannot change a length that is complete, nor take the chunked flag back |
| `HttpPersist.PipelineRead` | thirdparty/http/http_parser.c:2089-2127 | any requests on one connection, each with its header block and its body of known length: all are read, with exactly their callbacks, if and only if each but the last keeps the connection open, HTTP/1.1 by having no `close` option, HTTP/1.0 by having `keep-alive`; otherwise the input is refused |
| `HttpPersist.SizedRequest` | thirdparty/http/http_parser.c:1198-1923 | one such request: its body is delivered and the parser is then ready for another request or dead, by the version and the options its bytes give |
| `HttpPersist.ChunkedRequest` | thirdparty/http/http_parser.c:1198-2045 | the same for a chunked request with a trailer, whose options count as well |
| `HttpPersist.DeadRefuses` | thirdparty/http/http_parser.c:716-724 | a connection that does not persist takes nothing but line ends |
| `HttpPersist.UnsizedReply` | thirdparty/http/http_parser.c:2089-2109 | a response that gives no length: without a body if its status is 1xx, 204 or 304 or the application says so, and then the connection persists by the same rule; otherwise everything up to the end of the connection is its body, and that end completes it |
| `HttpPersist.SizedReply` | thirdparty/http/http_parser.c:1826-1923 | a response with a length, whatever its status: exactly that body, and the connection persists by the same rule |
| `HttpPersist.UpgradeRequest` | thirdparty/http/http_parser.c:1775-1843 | a request without a body that names a protocol and has the `upgrade` option: complete, and nothing after its head is read |
| `HttpPersist.BothRefused` | thirdparty/http/http_parser.c:1768-1775 | a request with both a length and chunks is refused |
| `HttpPersist.CommonForms` | thirdparty/http/http_parser.c:2112-2127 | without a Connection line HTTP/1.1 keeps the connection open and HTTP/1.0 does not |
| `HttpPersist.ConnectionLine` | thirdparty/http/http_parser.c:1469-1712 | with one Connection line the options decide, as far as the parser listens to them |
| `HttpLines.RunBlock` | thirdparty/http/http_parser.c:1198-1712 | a whole header block has the effect of its lines one after the other, with their callbacks, or is refused |
| `HttpLines.BlockSays` | thirdparty/http/http_parser.c:1198-1712 | the flags after a block are exactly those its lines call for, whatever their order; it is refused if and only if it has two lengths, or one that is no number or too large |
| `HttpLines.BadName` | thirdparty/http/http_parser.c:1215-1220 | a character that no name may have is refused in a name |
| `HttpLines.BadValue` | thirdparty/http/http_parser.c:1488-1491 | a control character is refused in a value after its first character |
| `HttpFields.NameRecognised` | thirdparty/http/http_parser.c:1206-1360 | the matcher recognises exactly connection, proxy-connection, content-length, transfer-encoding and upgrade, in any case |
| `HttpFields.FieldMeans` | thirdparty/http/http_parser.c:1403-1712 | the value of a field has exactly the effect its name and elements say: options, a length, chunked alone, an upgrade, or nothing |
| `HttpOptions.OptionsRead` | thirdparty/http/http_parser.c:1590-1665 | the matcher notes the options of a Connection value element by element: it passes over the element after one that is cut short, and stops at an empty one and at one that does not begin like a token |
| `HttpOptions.OptionsListed` | thirdparty/http/http_parser.c:1590-1665 | in a list of tokens a word is noted if and only if it is one of them at a place where the parser listens |
| `HttpOptions.AllHeard` | thirdparty/http/http_parser.c:1590-1665 | it listens everywhere if no option but the last is cut short and none begins with an underscore |
| `HttpOptions.CloseUnnoticed` | thirdparty/http/http_parser.c:1620-1631 | `k, close`: the option goes unnoticed |
| `HttpStart.RunMethod` | thirdparty/http/http_parser.c:920-1014 | a method is accepted if and only if it is one of the 34 known ones, and that one is kept |
| `HttpStart.RunTarget` | thirdparty/http/http_parser.c:1016-1087 | a target in origin form or `*` is accepted if and only if all of it is printable, and is delivered as it is |
| `HttpStart.VersionExactly` | thirdparty/http/http_parser.c:1089-1169 | a version is accepted if and only if it is HTTP, a slash, a digit, a dot and a digit |
| `HttpStart.RunRequestLine` | thirdparty/http/http_parser.c:920-1196 | a request line leaves its method, version and target |
| `HttpStart.RunStatusLine` | thirdparty/http/http_parser.c:763-918 | a status line leaves its version, status and reason |
| `HttpStart.EitherKind` | thirdparty/http/http_parser.c:726-762 | a parser for both kinds takes what begins with HT for a response and everything else for a request |
| `HttpStart.BareCr` | thirdparty/http/http_parser.c:449-459 | in a line end CR must be followed by LF, in every part of a message |
| `HttpFraming.SizedMessage` | thirdparty/http/http_parser.c:1826-1923 | a message with Content-Length n delivers exactly its n bytes as body and is complete with the last |
| `HttpFraming.LengthHeader` | thirdparty/http/http_parser.c:1423-1437 | the digits of Content-Length are stored as the number they denote, or refused as too large |
| `HttpFraming.LengthDigits` | thirdparty/http/http_parser.c:1529-1556 | the same for further digits, from any length so far |
| `HttpFraming.FitsBelow` | thirdparty/http/http_parser.c:1547-1554 | an accepted length is below the value that stands for no length, and so never wraps |
| `HttpFraming.FitsExact` | thirdparty/http/http_parser.c:1547-1554 | the guard before each digit accepts a length if and only if the number without its last digit is within the limit |
| `Scheduling.ReturnsToResumer` | src/coroutine/coroutine.cc:60-93 | after every run a coroutine that yields or ends gives control to whoever created or resumed it last |
| `Scheduling.AlwaysSound` | src/coroutine/coroutine.cc:13-93 | in every run that resumes only suspended coroutines, the chain of resumers consists of distinct live coroutines |
| `Scheduling.LiveAreNotEnded` | src/coroutine/coroutine.cc:13-27 | exactly the coroutines created and not ended exist, each created once |
| `Scheduling.ResumedByNext` | src/coroutine/coroutine.cc:79-93 | each coroutine of the chain was last resumed by the next |
| `Scheduling.OriginsEnd` | src/coroutine/coroutine.cc:13-93 | in such a run the assignments to `current` and `origin` keep the origins leading from `current` through exactly the active coroutines to null |
| `Scheduling.EndsExactly` | src/coroutine/coroutine.cc:79-85 | following the origins still ends in null after a resume if and only if the coroutine was not on the chain |
| `Scheduling.ResumedCreator` | src/coroutine/coroutine.cc:79-85 | a coroutine that resumes its creator makes the origins run in a circle |
| `Coroutines.Scheduler.Create` | src/coroutine/coroutine.cc:13-27 | a new registered coroutine runs, its creator behind it on the chain of origins |
| `Coroutines.Scheduler.Resume` | src/coroutine/coroutine.cc:79-93 | the coroutine runs, `current` and the processor agree; if it was suspended its resumer is behind it and the chain ends, if it was active the origins no longer end |
| `Coroutines.Scheduler.Yield` | src/coroutine/coroutine.cc:60-66 | the origin runs; the rest of the chain is as it was |
| `Coroutines.Scheduler.End` | src/coroutine/coroutine.cc:86-92 | the origin runs and the coroutine is unregistered |
| `ChannelRuns.ChannelOrder` | src/coroutine/channel.cc:24-94 | in every reachable state of a channel with capacity: a pop that returned gave the datum of the push of the same rank, every push succeeded, the queue never exceeds the capacity, producers and consumers never both wait, and who is woken finds room or a datum |
| `ChannelRuns.WaitingExactly` | src/coroutine/channel.cc:24-94 | exactly as many calls wait as one side is ahead of the other and of the capacity |
| `ChannelRuns.StepKeeps` | src/coroutine/channel.cc:24-94 | every step of a call, and every switch elsewhere, keeps the ordering of queue, waiters and points of return |
| `ChannelRuns.NeverBothWait` | src/coroutine/channel.cc:24-94 | producers and consumers never both wait, in any run, if and only if the channel has a capacity |
| `ChannelRuns.NothingReturns` | src/coroutine/channel.cc:61-70 | without capacity no call ever returns: nothing is pushed, nothing popped, all that call wait |
| `Channels.Channel.Push` | src/coroutine/channel.cc:61-94 | a call of push up to the first switch makes that step of the model, with and without capacity |
| `Channels.Channel.GoOnPush` | src/coroutine/channel.cc:71-94 | a push that was woken, or need not wait, always finds room and hands over to the first waiting consumer |
| `Channels.Channel.EndPush` | src/coroutine/channel.cc:84-93 | a push returns true once the notified consumer has given control back |
| `Channels.Channel.Pop` | src/coroutine/channel.cc:24-59 | a call of pop up to the first switch makes that step of the model, with and without capacity |
| `Channels.Channel.GoOnPop` | src/coroutine/channel.cc:39-59 | a pop that was woken, or need not wait, always finds a datum and hands over to the first waiting producer |
| `Channels.Channel.EndPop` | src/coroutine/channel.cc:48-58 | a pop returns the datum it took before it notified |
| `WebSocket.DecodesWire` | src/websocket_frame.cc:83-121 | decoding inverts encoding for every payload below 2^64 bytes, with 7, 16 or 64-bit length, masked or not, whatever follows the frame |
| `WebSocket.LengthFieldShortest` | src/websocket_frame.cc:137-152 | no header that announces the same payload length has a shorter length field (section 5.2 of RFC 6455) |
| `WebSocket.Mask` | src/websocket_frame.cc:66-81 | masking eight bytes at a time and the rest one at a time, in place, is masking byte i with byte i mod 4 of the key |
| `WebSocket.MaskedTwice` | src/websocket_frame.cc:66-81 | masking is its own inverse |
| `WebSocket.MaskedWord` | src/websocket_frame.cc:66-75 | one operation on a little-endian word masks its eight bytes |
| `WebSocket.Hton64Stores` | src/websocket_frame.cc:50-64 | swapping the halves lays a 64-bit number out in network order |
| `WebSocket.Ntoh64Loads` | src/websocket_frame.cc:34-48 | and reads it back from network order |
| `WebSocket.UnpackPack` | include/websocket_frame.h:12-25 | the bit fields of a header come back from its two bytes |
| `Frames.Encode` | src/websocket_frame.cc:123-174 | appends the frame that RFC 6455, section 5.2, defines |
| `Frames.FrameHeader` | src/websocket_frame.cc:125-152 | the header with the length in the fewest bytes |
| `Frames.Frame.Decode` | src/websocket_frame.cc:117-121 | header fields, header length, payload length and place, and the payload unmasked where it is |
| `Frames.Frame.FetchPayload` | src/websocket_frame.cc:83-115 | the same on the message itself; nothing else in it changes |
| `Frames.Buffer.Append` | src/buffer.cc:18-29 | the bytes are added at the end of the contents |
| `Base64.RoundTrip` | src/base64.cc:45-141 | decoding an encoding gives the bytes back, for every byte string |
| `Base64.EncodedBack` | src/base64.cc:94-141 | any letters in groups of four are the encoding of what they decode to, which is three quarters as long |
| `Base64.StopsAtOther` | src/base64.cc:94-141 | everything from the first character on that is no letter is ignored |
| `Base64.LetterInAlphabet` | src/base64.cc:32-40 | the letters are those of table 1 of RFC 4648, in its order |
| `Base64.FindInAlphabet` | src/base64.cc:32-40 | a character is a letter exactly if it is in that table, and stands for its place there |
| `Base64.Shape` | src/base64.cc:45-92 | an encoding has length 4 * ceil(n / 3): letters, then two, one or no padding characters |
| `Base64.BitsInGroups` | src/base64.cc:56-80 | the letters hold the bits of the bytes in groups of six, the last group filled with zeros (section 4 of RFC 4648) |
| `Base64.Encode` | src/base64.cc:45-92 | the loops compute the reference encoding |
| `Base64.Decode` | src/base64.cc:94-141 | the loops compute the reference decoding, which `RoundTrip`, `EncodedBack` and `StopsAtOther` characterise |
| `Base64.TripleQuad` | src/base64.cc:110-112 | four letters give back their three bytes |

## Left out

- The Huffman code, its decode table, the static header table, `lookup_token` and the name hash are
  parameters with the properties the proofs need (`Huffman.WellFormed`, `HeaderTable.WellFormed`,
  `Encoding.Tokens`); the constants themselves are not part of this model.
- Chains that grow by allocation, `nghttp2_bufs_remove`, `_remove_copy`, `_reset` and reserved
  offsets: HPACK output always goes to wrapped memory here.
- Bufs.Bufs.Wrap: chunks of length zero after the first are excluded, because appending one byte moves
  on by one chunk and writes there whatever its length (nghttp2_buf.c:358-387).
- Inflaters.Inflater.InflateHdNv: integers with more than five continuation bytes are excluded,
  because the source then shifts by more than the width of the type; `Feeding.Defined` says so.
- Allocation failure everywhere, and overflow of a reference count.
- Session.Transmit: the lists are those the decoder accepts; `Connection.BlockInSync` says what
  happens to others.
- Session.Hold: likewise; `Connection.RoundTrip` has all lists.
- Inflaters.Inflater.EndHeaders: the references it gives back are in `RcBufs`.
- RcBufs.Holder.Perform: how many entries an insertion evicts, and whether it stores the new one,
  are parameters of the operation, so the counts hold whatever the sizes decide.
- HdContexts.HdContext.AddIncremental: the hash map is a part of the encoder's context here instead
  of a parameter of the call, and an entry gets its hash and sequence number when it is made.
- HttpParsers.HttpParser.Execute: one mark stands for the five of the source, of which at most one
  is set; the answer of `on_headers_complete`, 0, 1 or 2, is a constant of the parser, and the other
  callbacks always continue.
- HttpParsers.HttpParser.AtEof: the call with empty input is a method of its own.
- The return value of `http_parser_execute` for errors, pausing, the lenient and the
  non-strict configuration, `http_parser_parse_url` and status strings.
- HttpHeaders.SizedBlock: the number follows on the line of the name, blanks before it; lines that are
  folded before the number are excluded.
- HttpLines.RunBlock: the same for its lines; `HttpHeaders` allows folded lines in the rest of a block.
- HttpStart.RunTarget: targets in absolute form and in the authority form of CONNECT, and the
  protocol name ICE after SOURCE; `HttpMachine` has them, but nothing is stated of them.
- HttpPersist.PipelineRead: start lines are those of `RunRequestLine`, with one space between parts.
- The assembly context switch, stacks and deferred functions: a switch is a change of the running
  context.
- Coroutines.Scheduler.Create: numbers do not run out.
- Channels.Channel.Push: switches outside the channel are steps of `ChannelRuns` and not methods of
  the class; calls come from coroutines, not from the main program.
- Timeouts of channel operations: a coroutine that timed out stays in the queue, so the order is not
  kept then.
- Frames.Encode: the branch for masked frames is never taken, because the mask bit is set to zero
  before; a buffer too small for the frame, which the source only logs, is excluded.
- Frames.Buffer.Append: data beyond the capacity, for which the source logs an error and then writes
  beyond its memory.
- Frames.Frame.Decode: the whole frame has been received; the source does not test it.
- Frames.Frame.FetchPayload: likewise.
- Base64.Decode: lengths that do not fit `int`, and locales other than C.
- Sockets, event loop, timers, processes, file serving and logging; the HTTP server's callbacks; the
  HTTP/2 client around the compressor.
