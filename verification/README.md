# Verification of mosh-tcp

A Dafny 4.11 model of the parts of mosh-tcp that carry terminal bytes from the server's PTY to the
client's terminal, with proofs of what they promise. `dafny verify dfyconfig.toml` checks all of it.

| file | models |
|---|---|
| `Bits.dfy` | bytes, bits, the two bit orders of Deflate |
| `Canonical.dfy` | canonical Huffman codes as RFC 1951 assigns them; prefix freedom, Kraft tiling |
| `Deflate.dfy` | inflating as a function of a bit stream, with the error numbers of `puff.c` |
| `Huffman.dfy`, `Puff.dfy` | the in-place decoder of `puff.c`: classes, arrays and loops that compute `Deflate.Inflate` |
| `Grammar.dfy` | the Deflate format as syntax trees; what is accepted is exactly what they encode |
| `InflateStandard.dfy`, `InflateExamples.dfy`, `DynamicExample.dfy` | the numbers and conventions of the format by the rules of the standard; whole streams |
| `Truncation.dfy` | more or less input, more output space |
| `AnsiFilter.dfy`, `Split.dfy` | the query filter and the split scanner of `src/ansi.rs` |
| `AnsiNumbers.dfy` | filter and scanner in the numbers of ECMA-48 |
| `Units.dfy`, `SplitPromise.dfy` | a stream as units, as the scanner and as a terminal read it; what the split promises |
| `Framing.dfy`, `Protocol.dfy` | length-prefixed frames, packets and the codec of `src/protocol.rs` |
| `ProtocolForms.dfy` | packets in bytes, and UTF-8 by the rule of RFC 3629 |
| `Gzip.dfy`, `Client.dfy`, `ClientSend.dfy` | the C client: gzip header, reassembly, packets in both directions |
| `Server.dfy` | reader and send loop of `src/server.rs` as a class and as steps on its state |
| `ServerTicks.dfy` | what one step does, in numbers |
| `ServerRuns.dfy`, `ServerScreen.dfy`, `TokenBucket.dfy`, `SplitAlignment.dfy` | what every run keeps |
| `ScreenExamples.dfy` | a small emulator, and runs after which the screens differ |
| `EndToEnd.dfy` | PTY bytes to client output, through compression, framing, reassembly and inflating |

How the C and Rust code is rendered:

- `longjmp` out of the bit reader is an early return of the value `LongJmp`, propagated up to the caller of `setjmp`.
- A byte shifted above the bits already loaded and or-ed in is an addition; masks and shifts are remainders and
  quotients by powers of two. Widths never matter: all values stay far below them.
- Lengths read from the network are unbounded numbers.
- The tokens of the bucket are real numbers; elapsed time is any non-negative number per tick.
- The terminal emulator is an unknown step function on bytes, the screen renderer and the gzip encoder are unknown
  functions. Where a result rests on them, the hypothesis is a named predicate in its `requires`:
  `ServerScreen.RefreshReproduces` (a settled screen, rendered and played on a screen with the same hidden part, gives
  that screen), `ServerScreen.LeavesHidden` (playing a rendering does not change the hidden part),
  `ServerScreen.LosesUnsettled` (a screen that is not settled does not come back) and `EndToEnd.FaithfulGzip` (the
  encoder's output is a gzip member whose body is a Deflate encoding of the input). Which screens are settled and what is
  hidden are parameters. A refresh writes contents, cursor position and cursor visibility (`src/server.rs:424-445`); of
  the rest of the emulator's state, what its bytes reset, such as a sequence of which a part has been read, makes a
  screen unsettled, and what they leave alone, such as a scroll region or a character set, is hidden.
  `ScreenExamples.SmallTerminalFits` shows that the first three can be met, `DeflateGrammar.EveryStringEncodable` the
  fourth.
- A terminal's units: UTF-8 characters by the length that their first byte announces, control sequences up to their
  final byte, the five kinds of control strings (ECMA-48, section 5.6) up to BEL or ESC backslash, and other escapes up
  to the character behind their intermediate bytes. An ESC that is not part of such a terminator breaks off what
  is in front of it.
- A tick of the send loop is two steps, taking data out under the lock and sending it; reads of the PTY may come
  in between. Resize and handshake, which replace the emulator, are steps of their own.

Where the code does not do what the documentation says:

- `README.md:31` promises a strict cap on outbound traffic. The 18 bytes in front of each payload and the closing flush
  are not charged, and a screen refresh is sent whenever tokens are positive, whatever its size. When the bytes on the
  connection keep to the cap is `TokenBucket.WireIff`, when the charged payload does `TokenBucket.CapIff`; runs that do
  not are in `TokenBucket.HeadersExceedCap` and `TokenBucket.OverflowExceedsIff`. The bounds that always hold are
  `TokenBucket.WireBound` and `TokenBucket.BandwidthBound`.
- `doc/architecture.md:86` says that refreshes prevent the corruption of escape sequences. An overflow is met wherever
  the reads happen to have cut the stream, and what it drops may be half a sequence or a change of mode, which a refresh
  does not render: `ScreenExamples.RefreshCutsSequence` and `ScreenExamples.RefreshMissesMode`, with the exact condition
  in `ServerScreen.ScreenAgreement` and `ServerScreen.OverflowCarriedIff`. A refresh that is pending when the PTY closes
  is not sent: `ServerScreen.ClosingForgetsRefresh` and the run `ScreenExamples.RefreshForgotten`.
- `src/ansi.rs:11` says that the split truncates neither UTF-8 characters nor escape sequences. The scanner takes every
  escape but control sequences and OSC for two bytes, and an ESC inside another escape for a part of it:
  `SplitPromise.ThrottledIff`, `SplitPromise.OthersInStepIff` and the inputs in `SplitPromise.CutEscapes`. A buffer that
  is within the target is returned whole and not examined: `SplitPromise.PromiseIff` and `SplitPromise.WholeBufferCuts`.
- The closing flush sends the buffer as one frame whatever its size; a client cannot receive more than 65536 bytes or
  decompress to more than 262144: `EndToEnd.SessionArrivesIff` and the run `EndToEnd.ClosingFlushLost`.
- `clients/c/puff.h:18-26` lists error -7 for a missing end-of-block code; `puff.c` returns -9 (`InflateStandard.BadCodes`),
  and -10, which is not listed, when no code matches (`Canonical.NoCodeIff`).
- `doc/architecture.md` puts the query filter between reader and buffer; `src/server.rs` does not use it. It is modelled
  as the library function it is.

## Model

| member | source | states |
|---|---|---|
| `PuffDecoder.Puff` | clients/c/puff.c:373-412 | the whole in-place decoder: error number, bytes written and bytes consumed (bits rounded up to bytes) are those of `Deflate.Inflate`; bytes of `dest` behind the output are untouched, and running out of input is error 2 |
| `PuffDecoder.State.Inflate` | clients/c/puff.c:398-406 | the block loop, from any decoder state, reaches the error, position and output of the functional decoder; it terminates because unread bits fall with every block |
| `PuffDecoder.State.Bits` | clients/c/puff.c:52-75 | after any mix of calls the buffer holds the unread high bits of the last byte loaded; each call returns the next `need` bits of the stream, least significant first, and advances the position by exactly `need`, or runs out with all bytes loaded |
| `PuffDecoder.State.Decode` | clients/c/puff.c:116-141 | the count/first/index arithmetic, one bit at a time, returns exactly the symbol whose RFC 1951 code comes next; -10 after fifteen bits that are no code; out of input otherwise |
| `PuffDecoder.CodeAtSlot` | clients/c/puff.c:131-134 | a value of length `l` between the first code and the count names the symbol at `index + (code - first)` of the sorted table |
| `PuffDecoder.EndsInsideCode` | clients/c/puff.c:130-132 | a stream that ends while no code has matched cannot contain a symbol |
| `PuffDecoder.State.Stored` | clients/c/puff.c:77-106 | stored blocks: realignment, length and complement, the order of the two input checks and the space check |
| `PuffDecoder.StoredBlockIsBytes` | clients/c/puff.c:84-104 | the byte-wise view of a stored block is the bit-wise one of the format |
| `PuffDecoder.State.CopyBack` | clients/c/puff.c:231-239 | the overlapping byte loop produces the periodic extension of the last `dist` bytes, appends only, and stays within the space |
| `PuffDecoder.ExtendStep` | clients/c/puff.c:236-239 | each copied byte is the one `dist` back, even when it was itself just copied |
| `PuffDecoder.State.DecodeToken` | clients/c/puff.c:209-240 | one turn of the token loop: an error in the order of the checks, end of block, or the token applied to the output |
| `PuffDecoder.State.Codes` | clients/c/puff.c:184-245 | the token loop computes the functional decoder from any state; every index into the tables is in range |
| `PuffDecoder.FixedTables.Build` | clients/c/puff.c:250-280 | the static tables, built once and kept over calls, always stand for the fixed codes |
| `PuffDecoder.State.ReadPreLengths` | clients/c/puff.c:314-318 | code length code lengths land in their permuted places, the others are zero |
| `PuffDecoder.State.ReadRun` | clients/c/puff.c:331-347 | one step of the run-length code: the length to store and how often; error -4 for a repeat without a predecessor comes before its extra bits are read |
| `PuffDecoder.State.ReadLengths` | clients/c/puff.c:325-353 | the lengths array is the run-length expansion; no write is out of bounds and no run goes beyond the total |
| `PuffDecoder.State.BuildTables` | clients/c/puff.c:359-367 | two accepted codes are never over-subscribed and are represented by their tables; error -4 exactly when one is not usable |
| `PuffDecoder.NotUsable` | clients/c/puff.c:321-367 | the tests on the value returned by construction decide completeness, and incompleteness with a single symbol |
| `PuffDecoder.State.ReadTables` | clients/c/puff.c:307-367 | the header of a dynamic block, with its errors in order |
| `HuffmanTable.Huffman.Construct` | clients/c/puff.c:143-182 | construction: negative exactly for over-subscribed lengths, and then what is left over at the first length with too many codes; otherwise the number of unused 15-bit values, and a table that represents the canonical code; an all-zero list counts as complete |
| `HuffmanTable.Huffman.SortSymbols` | clients/c/puff.c:170-178 | the counting sort puts every symbol into its slot |
| `HuffmanTable.SlotsDiffer` | clients/c/puff.c:170-178 | no two symbols share a slot |
| `HuffmanTable.SlotInRange` | clients/c/puff.c:170-178 | every slot is within the symbol table |
| `Canonical.ReadSymbolIff` | clients/c/puff.c:116-141 | for every list of lengths that is not over-subscribed a symbol is read exactly when its code of RFC 1951, section 3.2.2, comes next |
| `Canonical.MatchUnique` | clients/c/puff.c:143-182 | canonical codes are prefix free: at most one symbol matches |
| `Canonical.SymbolListRoundTrip` | clients/c/puff.c:116-141 | any list of symbols, written with its codes and read back, gives the list and the position behind it |
| `Canonical.LeftIsKraftGap` | clients/c/puff.c:161-168 | what the check leaves over is 2^15 minus the sum of 2^(15 - length) |
| `Canonical.FirstCodeLeft` | clients/c/puff.c:127-140 | at every length, first code, codes of that length and unused prefixes add up to all prefixes |
| `Canonical.KraftTiling` | clients/c/puff.c:143-182 | the 15-bit intervals of the codes cover [0, 2^15 - left) without gap or overlap |
| `Canonical.NoCodeIff` | clients/c/puff.c:127-140 | given fifteen bits, decoding fails exactly when their value is at least 2^15 - left; never for a complete code |
| `Deflate.FixedCodesFit` | clients/c/puff.c:263-277 | the fixed literal code is complete, the fixed distance code leaves two of 32 codes unused |
| `InflateStandard.FixedLiteralCodes` | clients/c/puff.c:263-272 | the fixed literal code is the table of RFC 1951, section 3.2.6: the length and the code of every symbol |
| `InflateStandard.FixedDistanceCodes` | clients/c/puff.c:274-277 | every fixed distance code is the five-bit number of its symbol |
| `InflateStandard.CodeOrder` | clients/c/puff.c:143-182 | shorter codes come before longer ones and codes of one length are in the order of their symbols; with the tiling this fixes every code |
| `InflateStandard.BitOfByte` | clients/c/puff.c:52-75 | the bits of a byte come least significant first |
| `InflateStandard.BitOfNumber` | clients/c/puff.c:52-75 | numbers in the stream come least significant bit first |
| `InflateStandard.BitOfCode` | clients/c/puff.c:108-115 | Huffman codes come most significant bit first |
| `InflateStandard.ZerosStep` | clients/c/puff.c:342-347 | for every n from 3 to 138 exactly one step of symbol 17 or 18 appends n zeros: 17 up to 10, 18 above |
| `InflateStandard.RepeatStep` | clients/c/puff.c:335-341 | for every n from 3 to 6 exactly one step of symbol 16 repeats the last length n times |
| `InflateStandard.LengthStep` | clients/c/puff.c:329-330 | a symbol below 16 appends itself once |
| `InflateStandard.OrderRule` | clients/c/puff.c:300-301 | the order of the code length code: 16, 17, 18, 0, then outwards from 8 |
| `InflateStandard.PreLengthsAt` | clients/c/puff.c:314-318 | the numbers listed are the lengths of the symbols in that order, and the others are zero |
| `InflateStandard.CountsInNumbers` | clients/c/puff.c:307-312 | the counts of a dynamic header as a number of fourteen bits; more than 286 or 30 is error -4 |
| `InflateStandard.HeaderInNumbers` | clients/c/puff.c:398-400 | the last-block flag and the type as a number of three bits |
| `InflateStandard.MatchMeaning` | clients/c/puff.c:209-239 | a match of any length and distance is accepted when it stays within the output and there is room, with error -6 before -1; each of its bytes is the one that many places before |
| `InflateStandard.MatchesInNumbers` | clients/c/puff.c:194-206 | lengths and distances of all symbols, and their extra bits, by formula |
| `InflateStandard.MatchInOrder` | clients/c/puff.c:210-229 | behind a length symbol come its extra bits, the distance symbol, and its extra bits |
| `InflateStandard.LiteralsMean` | clients/c/puff.c:197-204 | literals are the bytes they name |
| `InflateStandard.BadCodes` | clients/c/puff.c:355-367 | no end of block is error -9, an unusable code error -4, and the first lengths are those of the literal code |
| `InflateStandard.BadRuns` | clients/c/puff.c:331-349 | a repeat as the first step and a run beyond the total are error -4 |
| `InflateStandard.NoSuchLength` | clients/c/puff.c:210-212 | a length symbol beyond 285 is error -5 |
| `InflateStandard.UsableInNumbers` | clients/c/puff.c:359-367 | usable codes have Kraft sum 1, no symbol, or one symbol |
| `InflateExamples.StoredStream` | clients/c/puff.c:77-106 | for every stream that begins with a last stored block, in bytes: its data, or error -3, 2 or -1 |
| `InflateExamples.InvalidType` | clients/c/puff.c:401-404 | block type 3 is error -2 |
| `InflateExamples.FixedStream` | clients/c/puff.c:246-284 | a whole fixed block, bit by bit |
| `DynamicExample.DynamicStream` | clients/c/puff.c:286-371 | a whole dynamic block, bit by bit, with every kind of run-length step, a run across both codes and an overlapping match |
| `DeflateGrammar.ReadTokenIff` | clients/c/puff.c:210-229 | a token is read exactly when its encoding (code, extra bits, code, extra bits) comes next |
| `DeflateGrammar.EveryMatchExpressible` | clients/c/puff.c:194-206 | the length and distance tables cover every length from 3 to 258 and every distance from 1 to 32768 |
| `Deflate.LengthTable` | clients/c/puff.c:194-199 | the length tables follow the rule of RFC 1951, section 3.2.5: consecutive ranges, four symbols for each number of extra bits |
| `Deflate.DistanceTable` | clients/c/puff.c:200-206 | the distance tables follow the rule: consecutive ranges, two symbols for each number of extra bits |
| `DeflateGrammar.CodesSound` | clients/c/puff.c:184-245 | an accepted block body is the encoding of tokens, and the output is their expansion |
| `DeflateGrammar.CodesComplete` | clients/c/puff.c:184-245 | every encoding of tokens whose expansion exists and fits is accepted and gives that expansion |
| `DeflateGrammar.LengthsSound` | clients/c/puff.c:325-353 | accepted lengths are the run-length expansion of the steps that stand in the stream; runs may cross from literal to distance lengths |
| `DeflateGrammar.LengthsComplete` | clients/c/puff.c:325-353 | every valid list of run-length steps is accepted and expands to its lengths |
| `DeflateGrammar.TablesSound` | clients/c/puff.c:286-367 | an accepted dynamic header is the encoding of a valid header and gives the two codes it describes |
| `DeflateGrammar.TablesComplete` | clients/c/puff.c:286-367 | every valid header is accepted |
| `DeflateGrammar.BlocksSound` | clients/c/puff.c:398-405 | an accepted stream is the encoding of a sequence of blocks, the last one flagged |
| `DeflateGrammar.BlocksComplete` | clients/c/puff.c:398-405 | every encoding of a sequence of blocks whose bytes exist and fit is accepted |
| `DeflateGrammar.InflateAcceptsIff` | clients/c/puff.c:373-412 | inflating succeeds exactly on inputs that start with the encoding of a valid syntax tree (RFC 1951, section 3.2.3, with this code's acceptance set) whose bytes exist and fit |
| `DeflateGrammar.InflateGives` | clients/c/puff.c:373-412 | whatever tree the input encodes, the output is its bytes and the position is the end of its encoding |
| `DeflateGrammar.InflateNeedsRoom` | clients/c/puff.c:373-412 | without room for its bytes no input inflates |
| `DeflateGrammar.EncodeInflateRoundTrip` | clients/c/puff.c:373-412 | any tree that stands for bytes, encoded and packed, inflates to these bytes |
| `DeflateGrammar.EveryStringEncodable` | clients/c/puff.c:77-106 | any byte string has an encoding, and inflating gives it back |
| `Truncation.CutInput` | clients/c/puff.c:56-75 | cutting the input gives the identical result, or error 2 with an output that is a prefix |
| `Truncation.SuccessCutShort` | clients/c/puff.c:395-411 | cutting a successful input below the bytes it consumed gives error 2 and a prefix of the output |
| `Truncation.SuccessExtends` | clients/c/puff.c:395-411 | bytes behind a successful input and more output space change nothing |
| `Truncation.BlocksRoomier` | clients/c/puff.c:187-245 | more output space changes no result but "out of space" |
| `AnsiFilter.StripTerminalQueries` | src/ansi.rs:76-192 | the index-driven scanner returns the cleaned bytes and the unfinished rest of the recursive definition `Strip` |
| `AnsiFilter.Examine` | src/ansi.rs:82-185 | look-ahead at an ESC: wait for more, drop a complete query, or keep one byte |
| `AnsiFilter.ContainsIff` | src/ansi.rs:3-9 | a window matches exactly when the haystack splits around the needle |
| `AnsiFilter.NextStable` | src/ansi.rs:78-192 | a decision other than to wait is not changed by anything that follows |
| `AnsiFilter.ChunkingInvariance` | src/ansi.rs:76-192 | filtering a chunk and then its leftover with the next chunk is filtering both at once |
| `AnsiFilter.AnyChunking` | src/ansi.rs:76-192 | any cutting of a stream gives the same output and leftover |
| `AnsiFilter.RestIsSuffix` | src/ansi.rs:78-192 | the leftover is a suffix of the input that is empty or begins with ESC |
| `AnsiFilter.FilterRemovesQueries` | src/ansi.rs:81-191 | on well-formed sequences exactly the queries are removed, whatever bytes follow |
| `AnsiFilter.ControlQueryIff` | src/ansi.rs:161-181 | a control sequence is removed exactly for device attributes, cursor position and XTVERSION requests, and for private sequences ending in c or n |
| `AnsiFilter.TextQueryIff` | src/ansi.rs:104-145 | an OSC is removed exactly for 4, 10, 11, 12 or a question mark in its body, a DCS exactly for a dollar sign |
| `AnsiFilter.FilterOnItems` | src/ansi.rs:81-191 | on a complete well-formed stream the leftover is empty and a second pass changes nothing |
| `AnsiFilter.UncoveredQuery` | src/ansi.rs:81-191 | a concrete input with an ESC in front of a query: one pass leaves a query, which a second pass removes |
| `AnsiNumbers.FinalBytes` | src/ansi.rs:150-158 | with any parameter and intermediate bytes a control sequence is complete exactly when its last byte is from 0x40 to 0x7e; otherwise it is held back whole |
| `AnsiNumbers.StringEnds` | src/ansi.rs:88-102 | an OSC or DCS is complete with BEL or ESC backslash and held back without |
| `AnsiNumbers.ListedControls` | src/ansi.rs:161-174 | the twelve listed control sequences are removed |
| `AnsiNumbers.PrivateControls` | src/ansi.rs:175-176 | private control sequences ending in c or n are removed |
| `AnsiNumbers.OtherControls` | src/ansi.rs:161-186 | control sequences with another final byte than c, n and q stay |
| `AnsiNumbers.ListedStrings` | src/ansi.rs:104-145 | palette and colour requests, an OSC with a question mark and a DCS with a dollar sign are removed |
| `AnsiNumbers.DeviceQueriesGo` | src/ansi.rs:208-214 | device attribute and cursor position requests between any text go, and nothing else |
| `AnsiNumbers.ColourQueriesGo` | src/ansi.rs:216-222 | colour queries with both terminators between any text go, and nothing else |
| `AnsiNumbers.PartIsHeld` | src/ansi.rs:224-230 | text in front of an unfinished sequence is passed on, the sequence held back |
| `SafeSplit.FindSafeSplitPoint` | src/ansi.rs:11-74 | the scanning loops compute `SplitPoint` |
| `SplitPromise.SafePointIff` | src/ansi.rs:21-63 | the scanner records exactly the end, the ends of escapes, and the boundaries in front of a character |
| `SplitPromise.SplitIsGreatest` | src/ansi.rs:65-73 | a throttled split is the greatest recordable point within the target, or 0 |
| `Units.BoundaryStable` | src/ansi.rs:24-62 | a unit boundary strictly inside the buffer stays one whatever is appended, for the units of the scanner and for those of a terminal |
| `Units.CleanIff` | src/ansi.rs:11-16 | a cut is at a boundary of everything the buffer may become exactly when it is at one inside the buffer, or at the end of a buffer whose last unit is complete |
| `Units.BoundaryCompose` | src/ansi.rs:11-74 | when the rest starts at a boundary, its boundaries are those of the whole |
| `SplitPromise.SplitIsStableBoundary` | src/ansi.rs:11-74 | a throttled split cuts at a boundary of the scanner's units, of the buffer and of every extension of it |
| `SplitPromise.SplitNeverCutsIff` | src/ansi.rs:11-16 | a unit of the scanner, which reads some escapes shorter or longer than a terminal does, is never cut exactly when the target is below the buffer length or the last unit of the buffer is complete |
| `SplitPromise.SplitKeepsCharacters` | src/ansi.rs:56-59 | in any buffer a throttled split stands in front of a continuation byte of UTF-8 only at the end of an escape |
| `SplitPromise.ThrottledIff` | src/ansi.rs:11-74 | the documented promise for the units of a terminal: all throttled splits of a buffer keep it, whatever follows, exactly when every escape that the scanner ends inside the buffer ends there for a terminal, too |
| `SplitPromise.PromiseIff` | src/ansi.rs:11-74 | all splits keep it exactly when, besides, the last unit of the buffer is complete |
| `SplitPromise.ControlsInStep` | src/ansi.rs:24-50 | the scanner ends every control sequence and OSC that no ESC breaks off where a terminal does |
| `SplitPromise.ScannerEnds` | src/ansi.rs:28-50 | a control sequence or OSC that a terminal ends with its final byte or terminator ends there for the scanner |
| `SplitPromise.SplitBehindSequence` | src/ansi.rs:28-73 | the end of such a sequence is the split of the target there |
| `AnsiNumbers.ScannerFinalBytes` | src/ansi.rs:28-36 | the scanner ends a control sequence exactly at a byte from 0x40 to 0x7e |
| `AnsiNumbers.SplitOfText` | src/ansi.rs:55-73 | text without ESC is split at the last byte within the target that is not from 0x80 to 0xbf |
| `AnsiNumbers.CharacterIsUnit` | src/ansi.rs:11-12 | every character of UTF-8 is one unit |
| `AnsiNumbers.StringUnits` | src/ansi.rs:24-53 | control strings of all five kinds run to their terminator for a terminal; for the scanner those other than OSC are two bytes |
| `AnsiNumbers.EscapeWithIntermediates` | src/ansi.rs:51-53 | an escape with intermediate bytes ends behind its final byte for a terminal, and behind two bytes for the scanner |
| `SplitPromise.OthersInStepIff` | src/ansi.rs:51-53 | of the other escapes it does so exactly for those that are two bytes to a terminal; an ESC behind an ESC is read right only in front of a third |
| `SplitPromise.CutEscapes` | src/ansi.rs:51-53 | four concrete buffers whose throttled split cuts: a character behind ESC, an escape of three bytes, a DCS, a control sequence behind a stray ESC |
| `SplitPromise.WholeBufferCuts` | src/ansi.rs:14-16 | a concrete buffer that is returned whole in the middle of a sequence |
| `Framing.FramesComeOut` | src/protocol.rs:222-254 | frames in a row come out as they were put in, whatever follows |
| `Framing.ArrivalInPieces` | src/protocol.rs:222-240 | taking frames out early does not change which frames come out |
| `Framing.AnyArrival` | src/protocol.rs:222-240 | however a stream is cut, the same frames come out |
| `Framing.PartOfStream` | clients/c/mosh_tcp_client.c:500-514 | of a stream of frames that has arrived in part, the first frames are out and the rest is shorter than the next one |
| `Framing.RestLeavesRoom` | clients/c/mosh_tcp_client.c:497-514 | with frames of at most the buffer size at least one byte of the buffer stays free |
| `Protocol.PacketRoundTrip` | src/protocol.rs:67-203 | every packet whose parts fit their length fields is read back as written |
| `ProtocolForms.PacketsInBytes` | src/protocol.rs:67-113 | the six packets in bytes: tag, numbers and data in their order |
| `ProtocolForms.NumbersInBytes` | src/protocol.rs:71-110 | numbers of two and four bytes come most significant byte first |
| `ProtocolForms.UnknownTag` | src/protocol.rs:115-203 | no tag and an unknown tag are the two errors |
| `ProtocolForms.InputTrailing` | src/protocol.rs:127-140 | bytes behind an input packet are not looked at |
| `ProtocolForms.HandshakeTrailing` | src/protocol.rs:177-196 | a handshake with any bytes for a key is read, the key converted to text, and bytes behind it are not looked at |
| `ProtocolForms.FrameTrailing` | src/protocol.rs:157-176 | a server frame is read with any flag byte, and bytes behind it are not looked at |
| `ProtocolForms.DecodeInBytes` | src/protocol.rs:222-240 | one call of the decoder, in bytes: a part of a frame is left alone; a whole frame is taken out whether its packet can be read or not |
| `ProtocolForms.CutShort` | src/protocol.rs:127-196 | packets that are cut short are errors |
| `ProtocolForms.TextIsValid` | src/protocol.rs:188 | the encoding of any list of Unicode characters by RFC 3629 is valid, and lossy conversion keeps it |
| `ProtocolForms.ValidIsText` | src/protocol.rs:188 | whatever is valid is the encoding of a list of Unicode characters |
| `Protocol.LossyKeepsIff` | src/protocol.rs:188 | lossy conversion of a key keeps it exactly when it is valid UTF-8 |
| `Protocol.WritePacket` | src/protocol.rs:67-113 | pushing part after part gives the binary form |
| `Protocol.Codec.Decode` | src/protocol.rs:222-240 | one decode: more bytes needed, a packet, or an error, with the frame taken out of the buffer in both of the last cases |
| `Protocol.Codec.Encode` | src/protocol.rs:247-254 | encoding appends the framed binary form |
| `Protocol.Codec.Receive` | src/protocol.rs:222-240 | appending a chunk and decoding until no frame is left takes out all packets up to the first malformed one |
| `Protocol.DrainIsSplit` | src/protocol.rs:222-240 | decoding packets one by one is cutting into frames and reading each |
| `Protocol.ReceiveIsDrain` | src/protocol.rs:222-240 | any cutting of any stream gives the packets, and the error, of the whole stream |
| `Protocol.CodecRoundTrip` | src/protocol.rs:222-254 | a list of packets, encoded and cut in any way, is received exactly, with nothing left over |
| `Gzip.FindBody` | clients/c/mosh_tcp_client.c:156-186 | the header walk finds the body or rejects, never reading outside the input, whatever the header |
| `Gzip.DecompressFrame` | clients/c/mosh_tcp_client.c:156-195 | a frame is decompressed exactly when its body inflates within the space; otherwise it fails |
| `Gzip.MemberBody` | clients/c/mosh_tcp_client.c:161-187 | for every well-formed member (RFC 1952, section 2.3) with any of FEXTRA, FNAME, FCOMMENT, FHCRC the decoder gets exactly the Deflate body without the trailer |
| `Gzip.FlagsInNumbers` | clients/c/mosh_tcp_client.c:165-183 | which bit of the flag byte stands for which field |
| `Gzip.PlainMember` | clients/c/mosh_tcp_client.c:161-187 | a member without optional fields, in bytes |
| `Gzip.NamedMember` | clients/c/mosh_tcp_client.c:174-187 | a member with a name, in bytes |
| `Gzip.ExtraMember` | clients/c/mosh_tcp_client.c:167-172 | a member with an extra field, in bytes: its length comes low byte first |
| `Gzip.FullMember` | clients/c/mosh_tcp_client.c:161-187 | a member with all optional fields, in bytes and in their order |
| `Gzip.NoMember` | clients/c/mosh_tcp_client.c:156-186 | what is too short or has another method is refused, what does not begin like a member is taken as a body |
| `Gzip.MemberDecompresses` | clients/c/mosh_tcp_client.c:156-195 | a well-formed member decompresses to what its body inflates to |
| `Client.Receiver.ProcessPacket` | clients/c/mosh_tcp_client.c:197-226 | a server frame is written raw or decompressed; malformed and other packets write nothing |
| `Client.ShownInBytes` | clients/c/mosh_tcp_client.c:197-226 | which bytes of a payload are shown, by their positions |
| `Client.Receiver.ProcessFrames` | clients/c/mosh_tcp_client.c:500-510 | the reassembly loop processes exactly the complete frames in the buffer, in order |
| `Client.Receiver.Compact` | clients/c/mosh_tcp_client.c:511-514 | compaction in place keeps the bytes behind the offset |
| `Client.Receiver.Arrive` | clients/c/mosh_tcp_client.c:496-518 | one read: output of all complete frames, the incomplete rest kept; an empty read closes |
| `Client.ReadAllIsSplit` | clients/c/mosh_tcp_client.c:496-518 | however the stream is cut into reads, the output is that of its complete frames |
| `Client.Receiver.ReadStream` | clients/c/mosh_tcp_client.c:496-518 | the receiving loop over a stream of which more and more arrives: the output is that of the complete frames read, the rest waits in the buffer, and the loop stops at a read without a byte |
| `Client.ReachIff` | clients/c/mosh_tcp_client.c:497-516 | a client that goes on reading closes in the end, and has read the whole stream exactly when every frame fits its 65536 bytes: a larger one fills the buffer, and a read into no room counts as end of file |
| `Client.OversizeStops` | clients/c/mosh_tcp_client.c:497-516 | nothing from a frame larger than the buffer on is ever processed |
| `ClientSend.Socket.SendHandshake` | clients/c/mosh_tcp_client.c:124-142 | the handshake built in a buffer is the framed packet, with the key cut to 16 bits of length |
| `ClientSend.Socket.SendResize` | clients/c/mosh_tcp_client.c:114-122 | the resize packet is the framed packet of the protocol |
| `ClientSend.Socket.SendInput` | clients/c/mosh_tcp_client.c:144-154 | the input packet is the framed packet of the protocol |
| `ClientSend.ServerReads` | src/protocol.rs:222-240 | the server reads each of these packets as it was meant, whatever follows |
| `Server.Session.AppendChunk` | src/server.rs:157-173 | the reader under the lock: emulator and buffer get the chunk; a caught panic replaces the emulator |
| `Server.Session.TimerTick` | src/server.rs:268-326 | one tick: refill, overflow, suppression, refresh or split, as a function of the old state |
| `ServerTicks.TickTakes` | src/server.rs:303-320 | a tick with no refresh due and positive tokens takes the whole buffer when the tokens cover it, otherwise up to the greatest recordable point within the tokens rounded down; the rest stays |
| `ServerTicks.OverflowInNumbers` | src/server.rs:275-289 | more than 16384 bytes are discarded whatever the tokens, 16384 are not, and without tokens nothing is sent |
| `ServerTicks.RefreshInNumbers` | src/server.rs:290-302 | a refresh that is due is rendered as soon as tokens are positive, and what is buffered is dropped |
| `ServerTicks.BurstInNumbers` | src/server.rs:238-239 | the bucket holds half a second of the rate, at least 2048 |
| `ServerTicks.RefillInNumbers` | src/server.rs:273 | a refill adds rate times elapsed time up to the burst |
| `Server.Session.SendOutgoing` | src/server.rs:328-346 | numbering, compression and charging of the payload; a failed send stops the loop |
| `ServerTicks.SendCharges` | src/server.rs:328-342 | what a sent frame costs: its data up to 128 bytes or when the encoder fails, and what the encoder makes of it when that is shorter |
| `Server.Session.FlushRest` | src/server.rs:249-266 | the closing flush, past the bucket |
| `ServerRuns.ConservedStep` | src/server.rs:152-348 | no step loses, repeats or reorders bytes of the PTY without recording it |
| `ServerRuns.Conservation` | src/server.rs:152-348 | in every run chunks and drops in order, what is under way and the buffer make up all bytes read |
| `ServerRuns.NoLossNoReordering` | src/server.rs:248-346 | in runs without overflow only chunks are sent, numbered 1, 2, 3, ..., and with the buffer they are all bytes read; the closing flush completes them |
| `ServerRuns.NumberedRun` | src/server.rs:255-263 | in every run frame numbers count up from 1 |
| `ServerRuns.TickBounds` | src/server.rs:275-326 | after the locked section the buffer and the chunk are at most 16384 bytes, and a chunk is covered by tokens |
| `TokenBucket.BandwidthBound` | src/server.rs:235-342 | over any stretch of any run the charged payload is at most burst, plus rate times elapsed time, plus the largest refresh sent in it |
| `TokenBucket.Account` | src/server.rs:273-340 | payload and remaining tokens never exceed tokens at the start and refills |
| `TokenBucket.RawNeverNegative` | src/server.rs:306-340 | in no run does sending bytes of the PTY make the tokens negative |
| `TokenBucket.AffordableIff` | src/server.rs:235-342 | by either count, charged payload or all bytes on the connection, every stretch of a run keeps to burst plus rate times elapsed time exactly when each frame, when it is sent, costs at most the tokens of a bucket that pays by that count |
| `TokenBucket.CapIff` | src/server.rs:286-340 | the payload that a run charges keeps to the promised cap, burst plus rate times elapsed time over every stretch, exactly when every refresh that is sent fits the tokens |
| `TokenBucket.OverflowExceedsIff` | src/server.rs:275-340 | for every emulator, renderer, encoder and rate, five full reads and a tick exceed the cap exactly when the refresh has a larger payload than the burst |
| `TokenBucket.WireAccount` | src/server.rs:249-342 | over any stretch of any run the bytes on the connection are the charged payload, 18 for each frame, and the payload of the closing flush; and there are at most two more frames than ticks |
| `TokenBucket.WireBound` | src/server.rs:249-342 | the bound on the bytes on the connection that every stretch of every run keeps |
| `TokenBucket.WireIff` | src/server.rs:249-342 | the bytes on the connection keep to the promised cap over every stretch of a run exactly when each frame, the closing one included, is covered with its 18 bytes and its payload by a bucket that pays for both |
| `TokenBucket.HeadersExceedCap` | src/server.rs:328-340 | at every rate there is a run without a refresh that keeps to the cap as it is charged and puts more than the cap on the connection |
| `ServerScreen.RefreshRestores` | src/server.rs:286-302 | after any run, with resets, panics and failures, a tick that refreshes and the sending bring the client to the server's screen exactly when that screen is settled and has the hidden part of what the client shows |
| `ServerScreen.OverflowCarriedIff` | src/server.rs:275-302 | when both agree and an overflow comes, it is the dropped bytes that decide: they must leave the screen settled and its hidden part as it was |
| `ServerScreen.ScreenAgreement` | src/server.rs:161-346 | in an undisturbed run from the start the client's screen after the frames under way and the buffer is at all times the server's, unless a refresh is pending, exactly when every refresh finds a settled screen with the hidden part of what the client shows |
| `ServerScreen.AgreementAfterRefresh` | src/server.rs:161-346 | after any run, with resets, panics and failures, and whatever the client showed: from a refresh on they agree all the way, until a new disturbance, exactly when that refresh and all later ones do so |
| `ServerScreen.RendersSettled` | src/server.rs:424-445 | that an unsettled screen does not come back from its rendering follows when every rendering is that of a settled screen with the same hidden part |
| `ServerScreen.ScreenAtEnd` | src/server.rs:249-266 | when the sender is done and no refresh is pending, the client shows the server's screen |
| `ServerScreen.ClosingForgetsRefresh` | src/server.rs:249-266 | a refresh that is pending when the PTY has closed is never sent |
| `ScreenExamples.SmallTerminalFits` | src/server.rs:424-445 | an emulator with sequences that are read in part and two character sets, and a renderer, that meet the hypotheses |
| `ScreenExamples.RefreshCutsSequence` | src/server.rs:275-302 | a concrete undisturbed run: an overflow behind a lone ESC, a refresh, and the rest of the sequence is printed by the client |
| `ScreenExamples.RefreshMissesMode` | src/server.rs:275-302 | a concrete undisturbed run: the overflow drops a change of the character set, and the next letter looks different on both sides |
| `ScreenExamples.RefreshForgotten` | src/server.rs:249-302 | a concrete undisturbed run that ends with the sender done, a refresh pending, and the client showing an old screen |
| `SplitAlignment.AlignedStep` | src/server.rs:249-315 | for either reading, a step keeps the buffer starting at a unit boundary of everything that is ever read exactly when what it takes is a clean cut |
| `SplitAlignment.CutsAtBoundaries` | src/server.rs:249-315 | in a run from the start the buffer, and with it every frame, always begins at a unit boundary of the whole stream, whatever is read later, exactly when every step that takes bytes cuts cleanly |
| `SplitAlignment.ScannerCleanIff` | src/server.rs:307-315 | for the scanner's units a step is clean exactly unless it empties a buffer whose last unit is not complete |
| `SplitAlignment.TerminalClean` | src/server.rs:307-315 | the same for the terminal's units while the scanner is in step on the buffer |
| `Server.Env.Compress` | src/protocol.rs:36-49 | the payload is never longer than the data; it is the data itself, or compressed data marked as such |
| `ServerTicks.CompressInNumbers` | src/protocol.rs:36-49 | from 129 bytes on the payload is no longer than what the encoder makes, and marked exactly when that is shorter than the data; up to 128 bytes it is the data, unmarked |
| `EndToEnd.GzipInflates` | clients/c/mosh_tcp_client.c:156-195 | what the encoder made of the data decompresses to it exactly when there is room; otherwise decompression fails |
| `EndToEnd.ChunkShown` | clients/c/mosh_tcp_client.c:197-226 | a chunk whose frame fits the receive buffer is written as it was, compressed or not, if it is at most 262144 bytes, and not at all otherwise |
| `EndToEnd.DeliverableIff` | src/server.rs:249-326 | in every run all chunks can be received and decompressed exactly when that of the closing flush can: what ticks send always can |
| `EndToEnd.StreamIsWire` | src/protocol.rs:247-254 | the encoded frames have the length that the account of the connection counts |
| `EndToEnd.FirstFramesShown` | clients/c/mosh_tcp_client.c:496-518 | after any reads of the stream the client has written the chunks of the first frames |
| `EndToEnd.ClientWritesPtyPrefix` | src/server.rs:249-346 | end to end: in a run without overflow whose closing flush, if any, can be received, the client writes a prefix of the bytes of the PTY, all that were sent once everything has arrived, and its buffer always has room |
| `EndToEnd.SessionArrivesIff` | src/server.rs:249-346 | a finished session without overflow: a client that reads until the connection closes has written exactly the bytes of the PTY if and only if the closing flush made a frame of at most 65536 bytes from at most 262144 |
| `EndToEnd.BurstArrivesIff` | src/server.rs:249-266 | seventeen full reads before the PTY closes: the client writes them exactly when the encoder makes a frame of at most 65536 bytes of them |
| `EndToEnd.ClosingFlushLost` | src/server.rs:249-266 | with an encoder that fails, and at any rate, this run is legal and without overflow, and the client does not write its bytes |

## Left out

- PuffDecoder.State.Decode: stated for tables that are not over-subscribed; no other table reaches it.
- SplitPromise.SplitIsStableBoundary: about the units of the scanner only; for those of a terminal it holds under the condition of `SplitPromise.ThrottledIff`.
- Units.CleanIff: CAN and SUB, which cancel a sequence, and the 8-bit control characters are not told apart from other bytes.
- TokenBucket.BandwidthBound: counts what the code charges; `TokenBucket.WireBound` and `TokenBucket.WireIff` count everything.
- ServerScreen.ScreenAgreement: says nothing for runs with a resize, a handshake, a caught panic, a failed rendering or a failed send; these are covered from the next refresh on by `ServerScreen.AgreementAfterRefresh`, since the code itself does not restore agreement before.
- EndToEnd.ClientWritesPtyPrefix: leaves out runs with an overflow, whose refreshes the code does not bound.
- EndToEnd.SessionArrivesIff: about a client that leaves its loop only at a read without a byte, not at a hang-up that poll reports; and that an undeliverable flush does not arrive is claimed for frames below 4 GiB, whose length the length field holds.
- AnsiFilter.FilterOnItems: a second pass is claimed to change nothing only for complete sequences without ESC inside; with an ESC in front of a query it does, see `AnsiFilter.UncoveredQuery`.
- Server.Session.TimerTick: the rounding of the tokens' floating point numbers and the saturation of their conversion to an integer are not modelled.
- Client.Receiver.ProcessFrames: the 32-bit sums of a length field and its header are unbounded, so lengths within 18 of 2^32 are not modelled.
- Client.Receiver.ReadStream: the client also leaves its loop, perhaps with data unread, when poll reports an error or a hang-up (`clients/c/mosh_tcp_client.c:520`); here only a read without a byte ends it.
- Wrap-around of the 64-bit frame counter and of the decoder's byte counters: out of reach of any real stream.
- The gzip encoder and decoder of the Rust side and the terminal emulator: libraries, kept as unknown functions.
- CRC and length in the gzip trailer: never looked at by the C client.
- Sockets, PTY, timers, threads' scheduling, signals, SSH tunnel, argument parsing: plumbing around the modelled code; reads may have any size.
- The predictor, key and mouse encoders, and the C++ client: easy members, or copies of what is modelled.
- Telemetry counters and formatting, session key generation and comparison: trivial, and one counter misses a drop.
