# Verified model of the multiplexing server

The repository is a TCP server in C, with a web proxy in JavaScript in front of it. It
echoes and serves files over a small binary protocol, compresses payloads with a
256-entry variable-length code, serves one file range over several connections at once,
and runs its clients on a pool of worker threads. This project models that behaviour in
Dafny and proves what it keeps. `dafny verify dfyconfig.toml` checks everything.

| module | models |
|---|---|
| Bits, Wrappers | bytes, bits and the bitwise operators on natural numbers; packing bits into bytes; an option type |
| PrefixCode | the dictionary as a code: encoding, greedy first-match scanning, uniqueness |
| Messages, Compression | `compression.c`: `compress` and `decompress` |
| DictionaryFile | the bit-serialised dictionary file and `create_map` |
| JsDecompressor | `frontend/decompressor.js` |
| Trie, CompressionOpt, OptRoundTrip | `compression_opt.c`: trie, lookup encoder, trie decoder |
| GrowingEncoder | `compression_optimized.c`: growing-buffer encoder, decoder, fallback dictionary |
| Wire, Reassembly, Sockets, Requests, Responses | header bytes and integers, stream reassembly, full reads and writes, request printer and parser, what the proxy makes of a reply |
| Echo | the echo service from the request's bytes to the payload that the proxy hands on for display |
| FileSession, SessionProtocol, SessionRuns | a file range split over the connections of a session |
| Queues, WorkerPool | ring and linked work queues; workers, condition variable, shutdown |
| RequestList, MemoryPool | the list of sessions; the three-class allocator |

Code that works step by step is an imperative method (on a class where the source has a
record it updates) proved against a function on values; the laws are proved about those
functions. The two concurrent parts are transition systems, and their theorems hold for
every run.

## Properties that fail, and exactly when

The code is modelled as it is. Where it does not do what one would expect, the exact
condition is a theorem. Failing inputs are given by lemmas too: `RawByteMangled`, `PaddingDecoded`,
`PadCountDecoded`, `AccentCutOff`, `NameRunsOn`, `WrappedRangeAccepted`,
`JoinedBetweenLoops`, `FirstOfSeveral`, `BothOpen`.

- An empty message does not survive `compress` and `decompress`: it comes back as the
  single pad byte (`RoundTrip`). The proxy's decoder does handle it (`InvertsCompress`),
  and the two decoders differ exactly on frames that claim no code bit (`AgreesWithC`).
- A dictionary is lossless for all nonempty messages exactly when it is a prefix code
  with nonempty codes (`LosslessIffPrefixCode`).
- The encoder of `compression_opt.c` stores no pad count and does not mark data that it
  keeps raw; its decoder decodes both. A message that coding shrinks comes back exactly
  when there is no padding or the padding is the beginning of a longer code. One that is
  kept raw comes back exactly when cutting its own bits into codes comes to bits that
  start no code, or when its own bits begin with its encoding and hold no code after it
  (`OptRoundTripIff`, for every message; with a complete code also what comes back,
  `CompleteRoundTrip`).
- The encoder of `compression_optimized.c` or-s the pad count into an incomplete last
  byte, and its decoder reads every bit. No code bit changes, but a message comes back
  exactly when the digits of the pad count hold no code (`GrownRoundTripIff`), as they
  never do when all codes are longer than seven bits (`LongCodesSurvive`).
- The payload of an echo is handed on unchanged except for an empty message sent
  compressed with a plain answer asked for (`EchoPreservesMeaning`).
- For echo and file size requests the proxy announces a string's length instead of its
  byte count: the server receives what is meant exactly when the text is ASCII
  (`ParsedIff`), and text typed comes back as its own bytes exactly then (`TypedTextIff`).
  The proxy sends no NUL after a file name, so the server's copy of the name ends inside
  the payload exactly when the text itself has a NUL (`ProxyNameTerminatedIff`).
- The range check accepts a range outside the file when offset plus length wraps past
  2^64 (`AcceptedInsideIff`).
- `num_connect` is read again and again while a range is split, and children may join
  between any two readings. Whatever is read, the pieces add up to the range exactly
  when the division used is that by the number of pieces handed out, and as many pieces
  are longer as that division leaves over (`ReadingsMustAgree`). If children join only
  before the loops, that is when both counts give the same quotient (`JoinedBeforeLoops`).
- The search for a predecessor in `remove_node` runs off the list exactly for the first
  of several sessions and for a record that a nonempty list does not hold
  (`RemoveNode`, `PredecessorIff`).
- A session is looked for and added in two steps. Adding keeps ids unique exactly when no
  session has the id at that moment (`Open`); as one step it always does (`Join`).
- Memory of the pool that is freed with a size of another class goes to the heap (`Free`).
- The ring and the linked queue behave alike exactly when the ring rejects nothing
  (`SameUnlessRejected`).

## Assumptions

- Bytes are the integers 0 to 255. Bit counters that are `int` in C get the
  precondition that the count fits, so the methods compute the functions that the laws
  are about for messages of up to INT_MAX code bits; the laws themselves hold for
  messages of any length. Freshly grown memory has arbitrary contents.
- A read gives at least one byte unless the stream has ended, a write takes at least one;
  how many is arbitrary.
- In SessionProtocol and ParentSend the parent reads the number of connections as one
  value, after the children it counts have joined (SplitRange and ReadingsMustAgree do
  without that). Children may still join later. A pipe is a queue of whole
  16-byte records, and a child finding it empty waits.
- In WorkerPool a step is what a thread does while it holds the mutex. The loop that
  empties the queue at shutdown (tp_optimized.c:257) does not hold it; each dequeue there
  is taken to be atomic all the same. `pthread_cond_wait` is as in POSIX.1, spurious
  wake-ups included.
- In RequestList `input->next` is null when a record is added.
- The echo reply buffer is as long as the compressed payload needs.
- Message lengths in the proxy are below 2^53, and request text has no lone surrogates.

## Model

| member | source | states |
|---|---|---|
| Bits.WriteBit | compression.c:136-141 | setting or clearing bit k decides bit k and leaves every other bit of the byte |
| Bits.ReadBit | compression.c:89 | masking then shifting, and shifting then masking, read the same binary digit |
| Bits.MostSignificantFirst | compression.c:86-89 | bit j of byte i, counted from the left, is the digit of weight 2^(7 - j) |
| Bits.PackBits | compression.c:126-158 | packing keeps every bit, in the fewest bytes, and adds only zero padding |
| Bits.PackUnique | compression.c:130-153 | a buffer with these bits and zeros after them is the packing: there is no other |
| PrefixCode.ScanSound | compression.c:85-103 | what a decoder has emitted, encoded again, plus the bits it still holds is exactly what it has read |
| PrefixCode.EncodeAppend | compression.c:130-131 | the code bits of two messages one after the other are theirs one after the other |
| PrefixCode.EncodeOne | compression.c:131 | the code bits of one byte are its entry's |
| PrefixCode.ScanGreedy | compression.c:90-101 | the bits a decoder holds never start with a code |
| PrefixCode.ScanEncode | compression.c:85-103 | with a prefix code, scanning an encoded message gives the message and leaves no bits |
| PrefixCode.ScanUnique | compression.c:85-103 | the scan result is the only way to read a bit string as codes followed by a rest that no code starts (if and only if) |
| PrefixCode.FirstMatchSome | compression.c:90-99 | the table search finds the earliest entry whose code is the pending bits |
| PrefixCode.ClashingCodeLost | compression.c:90-99 | if another code starts the code of j, or an earlier entry has the same one, the scan of j's code does not give j |
| Compression.AppendBit | compression.c:132-146 | one bit goes after the earlier ones whatever the newly grown byte held |
| Compression.AppendCode | compression.c:131-147 | a whole code goes after the earlier bits |
| Compression.ZeroPad | compression.c:150-153 | the bits left in the last byte become zero and the buffer is the packing of the code bits |
| Compression.Compress | compression.c:120-162 | within the `int` counters the buffer becomes the code bits, fewer than eight zeros up to a whole byte, and a byte that says how many; length follows |
| Compression.ScanTable | compression.c:90-99 | the loop over the table gives the first entry with the pending code |
| Compression.TakeBit | compression.c:87-102 | one bit read advances the loop state as one step of the scan |
| Compression.Decompress | compression.c:78-118 | with n = 8 * (length - 1) less the last byte, the buffer becomes the scan of its first n bits, or stays as it is when n is not positive |
| Compression.FrameBits | compression.c:149-158 | the pad count cuts off exactly the padding |
| Compression.FrameLayout | compression.c:149-158 | a frame is code bits, padding zeros to a whole byte, and the number of these zeros |
| Compression.RoundTrip | compression.c:78-162 | with a prefix code decompress undoes compress exactly on the nonempty messages |
| Compression.LostMessage | compression.c:78-162 | a dictionary that is no prefix code loses some nonempty message, which is given |
| Compression.LosslessIffPrefixCode | compression.c:78-162 | no nonempty message is lost if and only if the dictionary is a prefix code of nonempty codes |
| DictionaryFile.LengthByPowers | compression.c:52-60 | the sum of `pow` terms is the number whose binary digits were read, without overflow |
| DictionaryFile.ReadBits | compression.c:44-51 | reads the next bits in order and moves the cursor past them |
| DictionaryFile.CreateMap | compression.c:11-77 | on a file with enough bits the table is the parse of the file, entry i for byte i |
| DictionaryFile.LengthDigit | frontend/decompressor.js:23-33 | or-ing each digit into its place builds the same length, a missing digit counting zero |
| DictionaryFile.CutOffLength | frontend/decompressor.js:23-33 | a length field cut off by the end of the file is read as if zeros followed |
| DictionaryFile.AvailIs | frontend/decompressor.js:37-47 | a code cut off by the end of the file has just the bits that are there |
| DictionaryFile.ParseSerialized | compression.c:41-74 | parsing a serialised table gives back the table whatever bits follow it |
| DictionaryFile.ParseFile | compression.c:41-74 | the same through a file of whole bytes |
| JsDecompressor.LoadDictionary | frontend/decompressor.js:9-61 | the proxy's table is the same parse, also of a file that is too short |
| JsDecompressor.FindEntry | frontend/decompressor.js:92-108 | the element-wise comparison finds the same first entry as the C table search |
| JsDecompressor.Decompressor.constructor | frontend/decompressor.js:4-7 | the decoder has the parsed dictionary, or none when the file cannot be read |
| JsDecompressor.Decompressor.Decompress | frontend/decompressor.js:63-113 | without a dictionary the data comes back; otherwise the nested loops with breaks give the scan of the first 8 * (length - 1) less last byte bits, and nothing for none |
| JsDecompressor.AgreesWithC | frontend/decompressor.js:73-112 | the two decoders agree on a frame if and only if it claims at least one bit |
| JsDecompressor.InvertsCompress | frontend/decompressor.js:73-112 | it undoes compress for every message of a prefix code, the empty one included |
| Trie.Tree.EnsureChild | compression_opt.c:18-24 | the child on a bit exists afterwards, one node at most is new, no leaf changes |
| Trie.Tree.Insert | compression_opt.c:15-28 | the nodes are the old ones and all prefixes of the code; the code's node, and no other, becomes its leaf |
| Trie.FirstIsLast | compression_opt.c:26-27 | with distinct codes the leaf left by the last insertion is the first match of the table |
| Trie.LastMatchSome | compression_opt.c:26-27 | of several entries with a code the last one's byte is at the leaf |
| Trie.WalkRefinesScan | compression_opt.c:196-224 | a trie walk that meets no missing child has emitted what the table scan emits and stands at the path of its pending bits |
| Trie.WalkSurvives | compression_opt.c:200-205 | the walk meets no missing child if and only if the scan's pending bits always start some code |
| CompressionOpt.ReadLength | compression_opt.c:77-89 | leaving the loop at the end of the file reads the same length as reading on |
| CompressionOpt.ReadCode | compression_opt.c:95-106 | likewise for the code bits |
| CompressionOpt.CompressionMap.constructor | compression_opt.c:71-111 | the encode table is the parse of the file and the trie stands for it: nodes are the prefixes of codes, leaves the codes |
| CompressionOpt.LoadedTrie | compression_opt.c:75-111 | in a loaded map a path is a node if and only if it is empty or a prefix of some code, and its leaf, if any, holds the byte of the last entry with exactly that code |
| CompressionOpt.TrieOfPrefixCode | compression_opt.c:26-27 | in the trie of a prefix code byte b's leaf is at b's code and nowhere else, and nothing hangs below it |
| CompressionOpt.WriteCode | compression_opt.c:153-165 | or-ing a code into the zeroed buffer appends it to the bits written so far |
| CompressionOpt.CompressOptimized | compression_opt.c:130-179 | gives the packed code bits when they are fewer bytes than the data, else the data |
| CompressionOpt.OptCompressedIs | compression_opt.c:169-178 | the result is the code bits padded with zeros to the next whole byte, if these are fewer bytes than the message, and else the message |
| CompressionOpt.FitsBuffer | compression_opt.c:133-135 | codes of at most 64 bits always fit the eight bytes reserved for each byte |
| CompressionOpt.Push | compression_opt.c:209-220 | a byte is appended and none lost when the capacity doubles |
| CompressionOpt.DecompressOptimized | compression_opt.c:181-230 | gives the walk's output over all bits, or the data unchanged once a child is missing |
| OptRoundTrip.WalkEncode | compression_opt.c:196-224 | the walk over an encoded message gives the message and ends at the root |
| OptRoundTrip.DirtyTail | compression_opt.c:196-224 | zeros that are not the beginning of a code derail the walk or make it emit more |
| OptRoundTrip.OptRoundTripIff | compression_opt.c:130-230 | for any prefix code and every message: a shrunk one comes back if and only if there is no padding or it starts a longer code, a raw one if and only if its bits derail the walk or begin with its own encoding |
| OptRoundTrip.DerailsIff | compression_opt.c:200-205 | the walk meets a missing child if and only if cutting the bits into codes comes to bits that start no code |
| OptRoundTrip.RawRoundTripIff | compression_opt.c:176-230 | exactly when decoding data that was kept raw leaves it as it is |
| OptRoundTrip.RawByteMangled | compression_opt.c:172-178 | a one-byte message kept raw that comes back as another byte |
| OptRoundTrip.PaddingDecoded | compression_opt.c:196-224 | a two-byte message that comes back as eight bytes |
| OptRoundTrip.ZeroRuns | compression_opt.c:196-224 | zeros decode to the byte with the all-zero code once for each whole code in them |
| OptRoundTrip.CompleteRoundTrip | compression_opt.c:130-230 | with a complete code a shrunk message comes back followed by one copy of the all-zero code's byte for each whole code in the padding; a raw one comes back if and only if its bits begin with its encoding |
| GrowingEncoder.PutBit | compression_optimized.c:174-197 | one bit goes into the current byte, and a full byte into the buffer, growing if need be |
| GrowingEncoder.CompressOptimized | compression_optimized.c:157-219 | the buffer becomes the packed code bits with the pad count or-ed into an incomplete last byte; empty input stays |
| GrowingEncoder.OrPadIsAppend | compression_optimized.c:211-212 | or-ing in the pad count is appending its binary digits where the padding is |
| GrowingEncoder.SameCodeBits | compression_optimized.c:170-214 | for every input it has the code bits of compress, none disturbed, in one byte less |
| GrowingEncoder.GrownFrameIsPack | compression_optimized.c:200-214 | its frame is also the frame, and the plain packing, of the code bits followed by the digits of the pad count, a longer string when the last byte is incomplete |
| GrowingEncoder.TakeBit | compression_optimized.c:106-146 | one bit taken in is one step of the scan, the output growing if need be |
| GrowingEncoder.DecompressOptimized | compression_optimized.c:90-155 | the buffer becomes the scan of all its bits, padding and pad count included |
| GrowingEncoder.GrownRoundTripIff | compression_optimized.c:90-219 | for every message of a prefix code the decoder undoes the encoder if and only if the digits of the pad count hold no code |
| GrowingEncoder.LongCodesSurvive | compression_optimized.c:90-219 | with codes all longer than seven bits nothing is lost |
| GrowingEncoder.PadCountDecoded | compression_optimized.c:211-213 | a one-byte message that does not come back |
| GrowingEncoder.FallbackDictionary | compression_optimized.c:21-33 | every byte's code is its own eight bits |
| GrowingEncoder.FallbackIsCompleteCode | compression_optimized.c:21-33 | that dictionary is a complete prefix code, so every result about those applies |
| GrowingEncoder.FallbackIsIdentity | compression_optimized.c:21-33 | with it this file's encoder and decoder leave every message as it is |
| Wire.HeaderRoundTrip | message_handling_optimized.c:50-58 | shifting gets back the type and the two flags that were or-ed into a header byte |
| Wire.HeaderLayout | frontend/proxy-server.js:171-176 | the type is worth sixteen, the two flags eight and four |
| Wire.NumberRoundTrip | message_handling_optimized.c:61-67 | a number written most significant byte first is read back |
| Wire.BigEndian | frontend/proxy-server.js:179 | byte i of n is the digit of weight 256^(n - 1 - i) |
| Wire.MessageFields | message_handling_optimized.c:61-72 | header, length and payload of a message are found again with any bytes after it |
| Reassembly.SplitConserves | frontend/proxy-server.js:67-83 | messages and rest together are the bytes received, each message is whole, and the rest holds none |
| Reassembly.SplitUnique | frontend/proxy-server.js:67-83 | there is no other way to cut a stream into whole messages and an incomplete rest |
| Reassembly.SplitResumes | frontend/proxy-server.js:62-84 | cutting first one part and later the rest gives what cutting all at once gives |
| Reassembly.ChunkingIrrelevant | frontend/proxy-server.js:62-84 | in whatever chunks a stream arrives, messages and rest are those of the whole stream |
| Reassembly.SameBytesSameMessages | frontend/proxy-server.js:62-84 | two deliveries of the same bytes end in the same state |
| Reassembly.MessagesArrive | frontend/proxy-server.js:62-84 | whole messages sent back to back arrive as sent, in any chunks |
| Reassembly.TcpClient.OnData | frontend/proxy-server.js:62-84 | the event handler ends and takes the client to the state that ChunkingIrrelevant is about |
| Sockets.ReadFull | message_handling_optimized.c:20-28 | short reads add up to all bytes asked for, or the stream ends first and the result is zero |
| Sockets.SendAll | message_handling_optimized.c:30-38 | short writes add up to all bytes in order |
| Requests.GetDescription | message_handling_optimized.c:40-90 | however short the reads, the message is the one the stream starts with, decoded where the flags ask for it, and the rest is left unread; a first byte of a type other than 0, 2, 4, 6 is the whole message |
| Requests.LengthCountsBytes | frontend/proxy-server.js:106-107 | the string length is the number of UTF-8 bytes if and only if the text is ASCII |
| Requests.Utf8Value | frontend/proxy-server.js:107 | the bytes of a character are as many as its size asks for, in the ranges of UTF-8, and add up to it |
| Requests.TextSnoc | frontend/proxy-server.js:106-107 | text is written, and its length counted, character by character |
| Requests.ReadPrinted | frontend/proxy-server.js:104-182 | a printed request is parsed back with type, flags and payload, whatever follows it |
| Requests.ReadOneByte | message_handling_optimized.c:50-55 | a first byte whose type is none of 0, 2, 4, 6 is received as that type and no more is read |
| Requests.ReadHangUp | message_handling_optimized.c:61-77 | a stream that ends before its first message does is received as closed |
| Requests.ReadAny | message_handling_optimized.c:57-87 | any whole message is received with its type and flags, and its payload decoded if it is compressed, except for an echo that asks for a compressed answer |
| Requests.ReadCoded | message_handling_optimized.c:79-87 | a compressed request is received as what it says, a compressed echo that asks for compression as it is |
| Requests.PrintedHeader | frontend/proxy-server.js:104-152 | the first byte of each command, in numbers |
| Requests.RetrieveLayout | frontend/proxy-server.js:116-143 | the record of a retrieve request byte by byte, with the length known for each file name |
| Requests.CommandReaches | tp.c:112-178 | each command of the proxy reaches the service it is for, also when its text is cut off, and 0x80 the shutdown |
| Requests.ReadSentAll | message_handling_optimized.c:40-90 | commands of the proxy, compressed requests and one-byte requests such as shutdown, sent back to back in any mixture, are received one by one as meant |
| Requests.ParsedIff | frontend/proxy-server.js:104-182 | a command is received as meant, with nothing left over, if and only if text that is announced by its string length is ASCII |
| Requests.Truncated | frontend/proxy-server.js:106-114 | what the server takes of any text announced that way, and what it leaves for the next message |
| Requests.AccentCutOff | frontend/proxy-server.js:105-109 | a one-letter text of which one byte of two is received |
| Requests.CopyString | message_handling.c:275-277 | copying stops at the first NUL |
| Requests.DissectFileRequest | message_handling.c:266-279 | the record gets session, offset, length and name of the payload |
| Requests.DissectPrinted | message_handling.c:266-279 | a payload with a NUL-terminated name gives back the four fields it was made from |
| Requests.PrintDissected | message_handling.c:266-279 | a record printed again begins the payload it was read from, for every payload with a terminated name |
| Requests.ProxyNameTerminatedIff | frontend/proxy-server.js:116-143 | the name the proxy sends ends inside the payload if and only if the text has a NUL |
| Requests.NameRunsOn | frontend/proxy-server.js:138-140 | a name that runs on past its payload |
| Echo.SendEcho | message_handling.c:101-123 | one reply message is sent, its compression bit set when asked for, the payload compressed once at most |
| Echo.EchoedMeaning | message_handling.c:73-86 | decoded by its own bit the reply payload says what the request said, with the one exception |
| Echo.EchoPreservesMeaning | message_handling.c:45-123 | from request bytes to what the proxy takes for an echo, under all four flag settings, the message is kept if and only if it is not empty, compressed and answered plainly; the reply's first byte is 0x18 or 0x10 as asked |
| Echo.TypedTextIff | frontend/proxy-server.js:104-223 | from text typed, through the server and back, the proxy takes an echo of the text's own bytes from the reply if and only if the text is ASCII |
| FileSession.AcceptedInsideIff | message_handling.c:387 | a range is in the file if and only if it is accepted and its end does not wrap |
| FileSession.AcceptedIff | message_handling.c:387 | a range is accepted if and only if its start is in the file and its end is, as it is or after wrapping |
| FileSession.WrappedRangeAccepted | message_handling.c:387 | a range outside the file that is accepted |
| FileSession.SegmentsSum | message_handling.c:396-427 | the segment lengths add up to the requested length |
| FileSession.SegmentAt | message_handling.c:407-434 | offset and length of the k-th segment in closed form |
| FileSession.ReadingsMustAgree | message_handling.c:396-434 | whatever is read from num_connect at each place and on each turn, the pieces add up to the range if and only if quotient and remainder used are those of the number of pieces handed out |
| FileSession.LongsIsFirst | message_handling.c:415 | the first loop ends at the first turn at which its bound, as read then, is reached |
| FileSession.PiecesAre | message_handling.c:397-427 | how many pieces there are and how long each is, from what is read |
| FileSession.SteadyPieces | message_handling.c:396-434 | with one value throughout the pieces are the segments and add up to the range |
| FileSession.JoinedBeforeLoops | message_handling.c:396-427 | when children join only before the loops the pieces add up if and only if both counts give the same quotient |
| FileSession.JoinedBetweenLoops | message_handling.c:415-427 | a case in which eight bytes are handed out of four |
| FileSession.WriteLonger | message_handling.c:415-419 | the first loop, its bound read anew on each turn, writes consecutive records one byte longer than the division and ends |
| FileSession.TilesCover | message_handling.c:407-434 | a position is in some segment if and only if it is in the range |
| FileSession.TilesDisjoint | message_handling.c:407-434 | no two segments overlap |
| FileSession.SplitRange | message_handling.c:393-431 | whatever is read from num_connect on the way, the records written and the parent's own segment are consecutive pieces of exactly those lengths |
| FileSession.ParentSend | message_handling.c:359-467 | an accepted range is split and the parent's segment sent; otherwise an error goes out and the pipe is left alone |
| FileSession.ChildSend | message_handling.c:281-357 | the first record of the pipe, and no other, is taken and its segment sent |
| FileSession.ReplyUnderstood | message_handling.c:305-356 | a reply is understood as a file reply with its session, offset, length and the file's bytes there |
| FileSession.ReplyShown | frontend/proxy-server.js:261-276 | a reply is one whole message of type 7, compressed exactly as asked, for which the proxy shows the segment's bytes |
| FileSession.ErrorReplyShown | message_handling.c:92-97 | an error reply is nine bytes, a whole message, and the proxy shows an error for it |
| FileSession.PlacedPositions | message_handling.c:297-320 | after any replies in any order exactly the covered positions are filled, each with the file's byte |
| FileSession.AnyOrderRebuilds | message_handling.c:393-434 | replies for all segments, in any order, rebuild exactly the requested range |
| SessionProtocol.StepKeeps | message_handling.c:297-434 | every step keeps: records are in the pipe in order, held by one sender or sent; no sender has had two |
| SessionProtocol.SplitIsARun | message_handling.c:409-427 | the parent's loop is a run of write steps |
| SessionProtocol.AtMostOneEach | message_handling.c:297-299 | in any state of any run no sender has been given two segments and no stranger one |
| SessionProtocol.SessionRebuilds | message_handling.c:281-467 | when a session is done, whatever the interleaving, its replies rebuild exactly the requested range |
| SessionProtocol.WhoIsServed | message_handling.c:393-427 | exactly as many children as were counted are served, each once; as many as joined late are left waiting |
| SessionProtocol.Progress | message_handling.c:281-467 | until a session is done some step can be taken: no interleaving gets stuck |
| SessionProtocol.RunsEnd | message_handling.c:393-427 | after the count a run has a bounded number of steps besides joins |
| SessionRuns.CountIsJoins | message_handling.c:397 | in every run there is at most one count, and what it counts is the joins before it |
| SessionRuns.JoinedAre | tp.c:151-153 | the connections of a session are those that have joined, each counted once |
| SessionRuns.EveryoneIsServed | message_handling.c:393-427 | when a session is done every connection has been served if and only if nobody joined after the count |
| SessionRuns.RepliesAsAsked | message_handling.c:323-348 | every reply is compressed exactly when its own connection asked for that |
| SessionRuns.AnyOrderPossible | message_handling.c:297-299 | for any children, any order in which they come and any wishes for compression there is a run in which the k-th to come sends the k-th segment and the session is done |
| SessionProtocol.WhatMayHappen | message_handling.c:297-434 | when each step can be taken |
| Queues.FirstInFirstOut | tp_optimized.c:49-69 | items leave in the order in which they were let in, none lost or invented, with or without a limit |
| Queues.SameUnlessRejected | tp.c:32-61 | ring and linked queue give the same answers and hold the same items if and only if the ring rejects nothing |
| Queues.SameWhileSmall | tp_optimized.c:49-52 | that is so if and only if the linked queue never holds more than the ring can |
| Queues.LimitKept | tp_optimized.c:49-58 | a queue within its limit stays within it over all operations |
| Queues.CircularQueue.Enqueue | tp_optimized.c:49-58 | the item goes behind all others, through wrap-around, if and only if fewer than 1024 are in the ring, and is refused otherwise |
| Queues.CircularQueue.Dequeue | tp_optimized.c:60-69 | the oldest item comes out and the others keep their order, or none when empty |
| Queues.LinkedQueue.Enqueue | tp.c:50-61 | the item is linked behind all others |
| Queues.LinkedQueue.Dequeue | tp.c:32-46 | the oldest item comes out, and an emptied list has no tail |
| WorkerPool.StepKeeps | tp_optimized.c:101-141 | every step of every thread keeps the invariant of the pool |
| WorkerPool.NoLostWakeup | tp_optimized.c:101-141 | in any run, while a worker is blocked, no more clients are in the queue than there are woken workers that have not looked again |
| WorkerPool.ShutdownSafety | tp_optimized.c:120-138 | after shutdown no worker is blocked, before it none has left |
| WorkerPool.EveryClientOnce | tp_optimized.c:101-141 | every client that arrives is turned away or accepted; accepted ones are taken once, in order, or still queued; each taken is with a worker, has been handled to the end, or was closed at shutdown |
| WorkerPool.TakenClientsServed | tp_optimized.c:124-137 | counting steps: clients taken are returns and drain turns and workers serving or draining; without a shutdown, returns and workers serving |
| WorkerPool.ArrivalAccepted | tp_optimized.c:101-115 | a client is let in, behind the others, if and only if fewer than 1024 are waiting |
| WorkerPool.WhatMayHappen | tp_optimized.c:117-141 | what each worker may do next, by its phase alone |
| WorkerPool.DrainerEmpties | tp_optimized.c:257-261 | a worker that drains the queue goes on only after it has found the queue empty |
| WorkerPool.StandsStill | tp_optimized.c:117-141 | no worker can move if and only if all are blocked (before shutdown, queue empty) or all gone (after) |
| WorkerPool.WorkIsBounded | tp_optimized.c:117-141 | in any run the workers' steps are bounded by the arrivals, spurious wake-ups and shutdowns: none spins |
| WorkerPool.ShutdownEnds | tp_optimized.c:251-261 | once shut and without arrivals every step uses up work, so the run ends |
| WorkerPool.ShutdownCompletes | tp_optimized.c:251-261 | a shutdown run to its end leaves all workers gone and every client ever accepted handled to the end or closed |
| RequestList.List.Add | multiplexlist.c:19-31 | the session is linked behind all others |
| RequestList.List.RemoveNode | multiplexlist.c:35-60 | exactly that session leaves the list, head, tail and links following; or nothing changes and the search runs off the end, if and only if it is the first of several or a nonempty list does not hold it |
| RequestList.List.Find | multiplexlist.c:64-76 | the first session with the id, or null if and only if there is none |
| RequestList.PredecessorIff | multiplexlist.c:50-52 | the search for a predecessor succeeds if and only if the session comes after the first |
| RequestList.FirstOfSeveral | multiplexlist.c:50-52 | the first of several sessions cannot be removed |
| RequestList.WithoutKeepsIds | multiplexlist.c:35-60 | removing keeps ids unique and frees the removed id |
| RequestList.Look | tp.c:136-158 | what a request finds: its session, whose counter goes up by one, a mismatch, or none |
| RequestList.Open | tp.c:165-170 | the session is added; ids are unique afterwards if and only if they were and none had its id at this moment |
| RequestList.BothOpen | tp.c:138-170 | two connections that both find none and then both open one leave the id twice |
| RequestList.Join | tp.c:133-175 | as one step: ids stay unique; a request opens, joins or is refused exactly by the id and the file asked for, and one counter at most goes up |
| MemoryPool.CreateBlockList | memory_pool.c:5-32 | as many blocks as asked for, linked in order, with different memory, all free |
| MemoryPool.BlockList.Take | memory_pool.c:71-85 | the first free block is taken, or none if and only if all are live; the flags mark exactly the live memory |
| MemoryPool.BlockList.Release | memory_pool.c:109-121 | the block with that memory is freed, if there is one |
| MemoryPool.MemoryPool.constructor | memory_pool.c:34-47 | lists of 1000 blocks of 32 bytes, 500 of 256 and 100 of 1024, nothing live |
| MemoryPool.MemoryPool.Alloc | memory_pool.c:49-85 | memory nobody holds, large enough: the first free block of its class, zeroed, or else from the heap; allocations minus deallocations stays the number live |
| MemoryPool.MemoryPool.Free | memory_pool.c:87-122 | pool memory goes back to the pool if and only if the size is of its class, and is counted then; heap memory goes back to the heap; pool memory given with another size goes astray to the heap |

## Left out

- Sockets, `accept`, files, `stat` and other system calls: a stream is a byte sequence, a file a byte sequence, a pipe a queue.
- Failing `malloc`, failing reads and writes, and `exit` paths.
- Compression.Compress: needs the code bits of the message to fit an `int`, because the C counters are `int`.
- Compression.Decompress: needs a nonempty frame whose claimed bit count fits an `int`; with an empty one the C code reads before its buffer.
- DictionaryFile.CreateMap: needs a file with enough bits for 256 entries, because the C code has no check for the end of the file.
- CompressionOpt.CompressionMap.constructor: needs every code of the file to be complete, because a cut-off code is uninitialised memory.
- CompressionOpt.CompressOptimized: needs the code bits to fit the eight bytes reserved for each byte, which the C code does not check.
- Requests.GetDescription: models the reading loops of message_handling_optimized.c; the single reads of message_handling.c:45-88 need the whole message to arrive at once.
- RequestList.Join: models find and add as one step; for the two steps of the C code see Look and Open.
- MemoryPool.MemoryPool.Free: `mp_destroy`, a null pool and a null pointer are not modelled.
- FileSession.ParentSend: needs offset plus length below 2^64 (AcceptedInsideIff says what happens otherwise) and takes num_connect as one value (SplitRange does not); file name checks and path building are not modelled.
- WorkerPool.StepKeeps: locking is not modelled below the level of one step, and the unlocked drain is taken as atomic dequeues.
- Directory listings and file size replies: thin wrappers over the operating system; Responses has what the proxy makes of them.
- `parent_send_optimized`, which sends the whole range itself, and so does not take part in the splitting protocol.
- The text dictionary parser of compression_optimized.c: another file format.
- GrowingEncoder.CompressOptimized: needs the code bits of the message to fit an `int`.
- GrowingEncoder.DecompressOptimized: needs the bits of the data to fit an `int`.
- Echo.EchoPreservesMeaning: stops at the bytes that the proxy takes for the echo; it then turns them into a string, with U+FFFD for bytes that are not UTF-8.
- RequestList.List.Add: needs a record that is not linked to anything, which nothing in the C code sees to.
- Requests.DissectFileRequest: needs a NUL in the payload, past which the C code would read on.
- FileSession.ChildSend: needs a record in the pipe; the C code waits for one.
- server.c and server_optimized.c: set-up and the same queue and worker shape as tp_optimized.c.
- `thread_worker` and the shutdown clean-up of tp.c: a worker there leaves while it holds the mutex.
- Closing of sockets exactly once, and freeing of what shutdown frees.
- Message types of frontend/README.md:65-71, which differ from the code; the code's 0, 2, 4 and 6 are modelled.
- The browser user interface, the benchmarks, and all claims about time.
