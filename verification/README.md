# Models of Mavicona's storage, protocol and parsing code

This project models, in Dafny, the parts of Mavicona in which bytes are laid out, moved
or interpreted, and proves what those parts are relied on for.

- **Large values (cynder).** `Disk` is a file with the stdio calls made on it.
  `PageLayout` says where a page puts its header, its chained index blocks and the data of
  its items, from the items stored so far. `Filepage` is the page itself: what create,
  open, growth, store and retrieve make of the file and the fields, the proof that every
  run of stores follows the layout, and that opening a closed file gives the same page.
  `FilepageLimits` is what happens where offsets wrap around 32 bits and where a block has
  one slot. `Filebase` and `DataIndex` are the two layers on top.
- **SHA-1 (mumux, chella).** `Sha1Spec` is the algorithm of FIPS 180-4. `Sha1Rolled`
  is the 80-word schedule with its streaming interface. `Sha1Ring` is the unrolled one,
  on a ring of 16 words of 32 to 64 bits.
- **Rules (extract).** `RuleParser` holds Bison's tables, its loop and the semantic
  actions, and proves that the automaton accepts exactly the printed rule files.
- **JSON (common).** `JsonString` covers escaping and reading back strings, `JsonNumber`
  which texts are numbers, `JsonDouble` rounding to doubles and casting them back,
  `JsonPrinting` the fifteen digits of a double and what they keep. `Json` is dumping,
  scanning and parsing, `JsonParser` the parser object.
- **Matching and options (compat).** `Fnmatch`, and `Getopt` in its three orders.
- **HTTP and WebSocket (mumux).** `Connection` is buffered and chunked output,
  `WebSocket` frame headers and incremental unmasking, `Server` the connection table.
  `Base64` is the encoder.
- **Hashing (cynder, common).** `HashRing` and `Crc32`.

`Bytes`, `Numerals`, `Options` and `Sequences` hold what several of these share.

Code that changes state is written as classes and methods with loops, each proved against
a function; what the source promises is proved about that function. Machine integers are
unbounded numbers with the wrap-around written out, except in the SHA-1 and CRC-32
modules, which use bit vectors. Uninitialised bytes that the C++ code writes to disk,
or reads over, are parameters, so the results hold whatever they are. Sockets are an append-only output
and an input that gives at least one byte or an error.

## What turned out not to hold as promised

Each of these has a lemma with the exact condition or a concrete case.

- A store keeps the layout of a page if and only if there is room, which the source does
  not check. A growth whose last byte wraps around 32 bits to below the first free offset
  always hits an item's data, and spares the items if and only if the byte there is zero
  already. The first free offset itself wraps too, since no page ever counts as full: what
  is stored survives every next store that does not grow the page if and only if the last
  item ends below 2^32.
- Names of other than 36 bytes do not survive closing and opening; with one slot to an index
  block, nor does a page of two items, since the second one breaks the chain. From page
  10000 on a file takes an earlier page's number.
- A `DataIndex` put that is refused as a duplicate has already stored a large value, and
  shows if and only if the key's value is large too.
- An empty chunked write ends the body; a chunk or a WebSocket length from 2^31 on does not
  arrive as it is; the base64 encoder breaks lines only once, although the buffer size
  reckons with a break every nineteen groups.
- getopt skips the `+` or `-` that selects an order in its first call only; later calls
  take it for an option, even if the rest of the option string does not list it, and
  overlook a colon behind it.
- An escaped low surrogate on its own is accepted in a JSON string, and is the only escape
  that does not give well-formed UTF-8.
- With `FNM_PATHNAME`, a `/` in an unterminated bracket makes the whole match fail instead
  of being taken literally.
- Removing a node from the hash ring restores it if and only if the node's points were
  not on it before. Points are erased whoever owns them: a node whose points fell on
  another's leaves the ring with that one.
- JSON integers go through a double: those above 2^53 may come back changed. A whole double
  of 64 bits comes back as an integer; one that is not whole comes back as itself if and only
  if it is the double of some decimal of up to fifteen digits. A number read as a normal
  double is dumped as the same number if and only if it is whole and held by a double, or
  not whole and of at most fifteen digits: 1e23 is not. Fifteen digits do not survive every
  subnormal double. Infinities and what is not a number are dumped as text that does not
  parse.
- An arrival whose socket cannot be configured takes a slot with a stale socket in it. The
  sockets in the table stay different if and only if the first such slot held none, or one
  no slot before it holds; otherwise the next pass closes a living connection's socket,
  unless serving has closed one of the two connections first. In a slot never used it is
  descriptor 0, which the next pass closes.

## Model

| member | source | states |
|---|---|---|
| PageLayout.PartsApart | cynder/filepage.cpp:135-206 | the header, every index block with its pointer and every item's data lie apart from each other and below the first free offset |
| Disk.WrittenKeeps | cynder/filepage.cpp:180-193 | a write leaves what any other region of the file holds |
| Filepage.Filepage.Create | cynder/filepage.cpp:38-69 | on a closed page the file and fields become those of a fresh page, on an open one nothing changes |
| Filepage.CreatedIsLaid | cynder/filepage.cpp:38-69 | a created page follows the layout of no items |
| Filepage.Filepage.GrowPage | cynder/filepage.cpp:135-156 | the new block's pointer, the last block's pointer, the extending byte and the header are written where the source writes them |
| Filepage.GrowMakesReady | cynder/filepage.cpp:135-156 | growth puts the new block on free space, chains it to the last one and disturbs nothing stored |
| Filepage.Filepage.StoreItem | cynder/filepage.cpp:167-206 | on a page that follows the layout of some items, a store makes it follow the layout of those and the new one; a name over 40 bytes changes nothing |
| Filepage.StoreKeepsLayout | cynder/filepage.cpp:167-206 | the layout is an invariant of stores that have room |
| Filepage.RunIsLaid | cynder/filepage.cpp:38-206 | every page reached by create and any stores follows the layout |
| Filepage.NoWrapIsRoomy | cynder/filepage.cpp:152-153 | offsets below 2^32 are room enough |
| Filepage.SmallRunIsRoomy | cynder/filepage.cpp:38-206 | a run whose header, blocks, data and one growth allowance add up to less than 2^32, with fewer than 65536 items, always has room |
| FilepageLimits.StoreKeepsLayoutIff | cynder/filepage.cpp:135-206 | a store keeps the layout if and only if there is room: fewer than 65535 items before it, the block and the data ending below 2^32, and a growth byte at or past the first free offset or on a zero |
| FilepageLimits.GrowthSparesItemsIff | cynder/filepage.cpp:135-156 | any growth, a block that passes 2^32 included, leaves every stored item as it was if and only if its last byte does not wrap to below the first free offset, or hits a zero byte there |
| FilepageLimits.WrappedGrowthHappens | cynder/filepage.cpp:135-206 | a page created with an item size of 2147483533 and two items of one byte is such a case: growing it zeroes the first item |
| FilepageLimits.DataWrapsIntoItem | cynder/filepage.cpp:158-206 | after a store whose end may have wrapped the page is still open for a next one, and an item survives that if and only if the new data agrees with it where they overlap |
| FilepageLimits.NextStoreSparesIff | cynder/filepage.cpp:158-206 | every item survives every next store that does not grow the page if and only if the end of the last item is below 2^32, the guard the fullness test was to be |
| FilepageLimits.WrappedDataHappens | cynder/filepage.cpp:38-206 | a page of the default sizes with items of 1 and 2^32 - 1 bytes is such a case: the third store writes over the first item |
| Filepage.Filepage.ShouldClose | cynder/filepage.cpp:158-165 | the unsigned fullness test never fires |
| Filepage.RetrievesLast | cynder/filepage.cpp:208-226 | a page following the layout returns exactly the data last stored under a name, nothing for other names |
| Filepage.Filepage.RetrieveItem | cynder/filepage.cpp:208-226 | the same of the method, which changes only the file position |
| Filepage.Filepage.Open | cynder/filepage.cpp:71-112 | reads the header and follows the chain of blocks, whatever memory held where a read came up short; on a magic error the fields stay as they were |
| Filepage.SlotsFollowLayout | cynder/filepage.cpp:91-106 | after each slot the loop stands at its end, in the right block, with the map so far |
| Filepage.OpenFinds | cynder/filepage.cpp:71-112 | opening a file that follows the layout rebuilds count, first free offset, last block, sizes and the map with names as the slots hold them |
| Filepage.ReopenIsIdentity | cynder/filepage.cpp:71-112 | after any stores, closing and opening gives the same page if and only if every name has 36 bytes, whatever memory held before |
| FilepageLimits.OneSlotBlocksAreLost | cynder/filepage.cpp:177-181 | with one slot to a block, after any run of two stores or more opening runs off the chain, so that the page is not the one that was closed |
| FilepageLimits.OneSlotReopensIff | cynder/filepage.cpp:71-206 | with one slot to a block, opening gives back the page after any run if and only if there is at most one item, under a name of 36 bytes |
| Filebase.Filebase.constructor | cynder/filebase.h:57-68 | at least one page; each stands for the last file whose number reads back as its own, opened with what it holds if it exists |
| Filebase.PagesKeepFilesIff | cynder/filebase.h:20-43 | every page stands for the file of its own number if and only if there are at most 10000 |
| Filebase.Filebase.ApplicablePage | cynder/filebase.h:45-54 | picks page 0: no page ever counts as full |
| Filebase.Filebase.Put | cynder/filebase.h:70-75 | stores the item on page 0 and no other; while there is room, every page holds the items put on it |
| Filebase.Filebase.Get | cynder/filebase.h:77-79 | reads what the page's map names: while pages hold what was put on them, the data last stored under the name |
| DataIndex.Key | quid/quidpp.h:44-53 | a quid of 36 bytes is its own key, one in braces is cropped to them, anything else is refused |
| DataIndex.RecordReadsBack | cynder/data_index.cpp:30-76 | reading a record undoes writing it on both sides of the 8 MiB limit, whatever the value's bytes |
| DataIndex.BaseShows | cynder/data_index.cpp:35-41 | a large value stored in the base changes what is visible for its key only, and only if its stored value is large |
| DataIndex.DataIndex.Put | cynder/data_index.cpp:19-46 | leaves a record in the database and a large value in the base; while the base has room, a successful put decides what get returns for its key and no other, and a refused one shows if and only if both values are large |
| DataIndex.DataIndex.Get | cynder/data_index.cpp:48-77 | returns what the key's record says, inline or from the base, and so what the puts made visible |
| Sha1Rolled.HashBlock | mumux/sha.c:21-53 | one block compresses the state as section 6.1.2 of FIPS 180-4 says |
| Sha1Rolled.Sha1Stream.Update | mumux/sha.c:67-93 | appends the data to the message, and adds its size to the bit count as the code counts |
| Sha1Rolled.CountedExactIff | mumux/sha.c:88-92 | the bit count is right if and only if the call has less than 2^29 bytes |
| Sha1Rolled.CarryIntoHigh | mumux/sha.c:88-92 | the two halves with their carry are one 64-bit count |
| Sha1Rolled.Sha1Stream.PadZeros | mumux/sha.c:107-111 | the padding loop ends with 56 bytes in the buffer after the least number of zeros |
| Sha1Spec.ZeroCountLeast | mumux/sha.c:109-111 | no fewer zeros complete the block |
| Sha1Rolled.Sha1Stream.Final | mumux/sha.c:95-124 | the digest of the message padded with the counted length, the SHA-1 of the message when the count is right |
| Sha1Rolled.HashPieces | mumux/sha.c:55-124 | however a message is split into updates under 2^29 bytes, the digest is that of the whole message |
| Sha1Ring.LowRound | chella/sha1.cpp:6-19 | a round on words of any width from 32 to 64 bits agrees with the round of FIPS 180-4 in the low 32 bits, dirty high bits or not |
| Sha1Ring.RingNext | chella/sha1.cpp:6-12 | a ring slot recomputed in place is the schedule's next word |
| Sha1Ring.SlotsRead | chella/sha1.cpp:6-12 | the four slots read hold the words 3, 8, 14 and 16 back |
| Sha1Ring.Transform | chella/sha1.cpp:104-203 | the unrolled transform on the ring refines the 80-word compression modulo 2^32 |
| Sha1Ring.BufferToBlock | chella/sha1.cpp:205-219 | signed bytes or not, the block's words are the buffer's big-endian words in the low 32 bits |
| Sha1Ring.PadInPlace | chella/sha1.cpp:42-66 | up to 55 waiting bytes are padded in one block to the hash of the padded message |
| Sha1Ring.PadSpills | chella/sha1.cpp:42-66 | from 56 on the padding takes a second block |
| Sha1Ring.Sha1Object.Update | chella/sha1.cpp:21-40 | appends the stream's data to the message |
| Sha1Ring.Sha1Object.Final | chella/sha1.cpp:42-79 | the forty lower-case hexadecimal digits are the SHA-1 of the message, and the object starts over |
| RuleParser.TablesDecide | extract/rule_parse.cpp:1214-1290 | in every phase and on every lookahead the compressed tables make the grammar's move |
| RuleParser.MoveKeepsStacks | extract/rule_parse.cpp:1214-1427 | whatever the tables decide, the state and value stacks stay those of the grammar's next phase, and only a finished line reaches the rule set |
| RuleParser.StacksEven | extract/rule_parse.cpp:1139-1146 | the stacks are equally high and never above nine, far below YYINITDEPTH |
| RuleParser.PrintingParses | extract/rule_parse.cpp:1074-1427 | a printed rule file parses to exactly its rules, names and actions in order |
| RuleParser.AcceptedIsPrinted | extract/rule_parse.cpp:1074-1427 | whatever is accepted is a printed rule file with at least one action a rule |
| RuleParser.GrammarInvertsPrinting | extract/rule_parse.cpp:1074-1427 | both directions together: parsing is the inverse of printing |
| RuleParser.YyParse | extract/rule_parse.cpp:1074-1427 | the shift/reduce loop ends, accepts exactly the printed files, and yields their rules |
| JsonString.ExtraSpace | common/json.h:5329-5363 | the exact growth of the escaped string, zero if and only if nothing is escaped |
| JsonString.EscapeString | common/json.h:5378-5481 | the buffer of backslashes becomes the escaped string |
| JsonString.ToUnicodeIsUtf8 | common/json.h:6710-6772 | throws for a high surrogate without a low one and beyond 0x10FFFF, otherwise gives the sequence of the code point or the pair by section 3 of RFC 3629, well-formed if and only if it is not a low surrogate alone |
| JsonString.LoneLowSurrogate | common/json.h:6710-6772 | U+DC00 alone does not throw, and gives the ill-formed ED B0 80 |
| JsonString.StringRoundTrip | common/json.h:7676-7777 | an escaped string is scanned as one token and read back as the string, whatever its bytes |
| JsonString.GetString | common/json.h:7676-7777 | the loop over a token gives its text, or throws for a wrong pair |
| JsonParser.ScanIsWhole | common/json.h:7142-7406 | a scanned string token always ends with its closing quote and holds only whole escapes, so get_string can rely on it |
| Json.LexNumber | common/json.h:7098-7555 | a number before a delimiter is scanned as one token that strtod reads completely |
| Json.DumpScans | common/json.h:5500-5640 | scanning a dump without infinities and the like, compact or indented, gives the tokens of the value |
| Json.ValueParses | common/json.h:7900-8112 | on a value's tokens the parser gives the value and stops behind them |
| Json.ParsingUndoesDumping | common/json.h:7887-8112 | parsing such a dump succeeds and gives the value with its integers as doubles round them, and its doubles as their texts are read |
| Json.DumpParsesIff | common/json.h:7887-8112 | parsing a dump succeeds if and only if the value has no infinity and nothing that is not a number |
| Json.RoundTripIff | common/json.h:7887-8112 | for every value, it gives the value itself if and only if doubles hold all its integers and all its doubles come back |
| Json.NumberTextBackIff | common/json.h:8070-8112 | a text that is one number, read as a normal double, parses, and the dump of that value is the same number if and only if it is whole and held by a double, or not whole and of at most fifteen digits |
| JsonDouble.IntegerBack | common/json.h:8070-8098 | a 64-bit integer comes back as itself if and only if a double holds it |
| JsonDouble.SmallIntegersExact | common/json.h:8070-8098 | that is so for all integers within 2^53 |
| JsonDouble.NextIntegerLost | common/json.h:8070-8098 | 2^53 + 1 comes back as 2^53 |
| JsonDouble.NearestError | common/json.h:7805-7808 | a double of 53 bits is within 2^-52 of the number it is read from |
| JsonDouble.SubnormalIff | common/json.h:7805-7808 | a number is read as a subnormal double if and only if it is within half a unit of it, ties to even |
| JsonPrinting.LayoutReads | common/json.h:5624-5629 | digits and a power of ten laid out with a point, an exponent or neither are one number of that value |
| JsonPrinting.PrintsBack | common/json.h:5611-5631 | fifteen digits that a double is near to are those it is printed with, across powers of ten too |
| JsonPrinting.NoDecimalNearer | common/json.h:5611-5631 | no decimal of up to fifteen digits is nearer to a double than the one it is printed as |
| JsonPrinting.WholeComesBackIff | common/json.h:5611-5631 | a whole number, however many digits and zeros it is written with, is dumped as the double nearest to it, and so as the same number if and only if a double holds it |
| JsonPrinting.NumberComesBackIff | common/json.h:5611-5631 | a number read as a normal double is dumped as the same number, sign included, if and only if it is whole and held by a double, or not whole and of at most fifteen digits without the zeros behind them |
| JsonPrinting.DecimalComesBack | common/json.h:5611-5631 | a decimal of up to fifteen digits read as a normal double is dumped as the same number if and only if its exponent is not positive or a double holds the whole number it is |
| JsonPrinting.OneDigitChanged | common/json.h:5619-5622 | 1e23, of one digit, is read as a normal double and dumped as another number |
| JsonPrinting.SubnormalLosesDecimal | common/json.h:5611-5631 | each of the smallest subnormal doubles is read from a decimal of up to fifteen digits that it is not printed as |
| JsonPrinting.FractionBackIff | common/json.h:5611-5631 | a double that is not whole comes back from its text if and only if it is the double of a decimal of up to fifteen digits |
| JsonPrinting.WholeBack | common/json.h:5619-5622 | the text of a whole double is read as that double |
| JsonPrinting.DoubleBackIff | common/json.h:8070-8098 | a finite double survives the text and the parser if and only if it is whole and minus zero or beyond 64 bits, or not whole and the double of a decimal of up to fifteen digits |
| JsonParser.Parser.ParseInternal | common/json.h:7900-8112 | the recursive method follows the grammar on the tokens ahead and fails exactly where it throws |
| JsonParser.ParseText | common/json.h:7887-7897 | one value and the end of the input |
| Fnmatch.Rangematch | compat/fnmatch.c:163-219 | a bracket matches the characters of its list, or not if negated; an open list is an error |
| Fnmatch.Fnmatch | compat/fnmatch.c:61-161 | returns 0 if and only if the string belongs to the pattern's language, for no flags and FNM_PATHNAME |
| Fnmatch.Match | compat/fnmatch.c:61-161 | the same from any position, with termination of loop and recursion |
| Fnmatch.StarsCollapse | compat/fnmatch.c:88-92 | several stars mean one |
| Fnmatch.StarBeforeSlash | compat/fnmatch.c:106-110 | before a slash a star takes everything up to the next slash, or the match fails |
| Fnmatch.PathnameLists | compat/fnmatch.c:192-215 | FNM_PATHNAME changes a bracket's reading exactly when a slash starts one of its elements |
| Fnmatch.UnterminatedSlashRejected | compat/fnmatch.c:192-200 | "[/" matches itself without the flag and not with it |
| Getopt.Exchange | compat/getopt.c:304-382 | swaps the two adjacent segments in place, each in order, and touches nothing else |
| Getopt.ViewExchanged | compat/getopt.c:372-381 | after the exchange, with the bounds relocated, the rest of the scan means the same |
| Getopt.Scanner.Permute | compat/getopt.c:551-573 | in the permuting order, skipping non-options leaves the meaning of the scan and stops at an option or the end |
| Getopt.Scanner.EndOptions | compat/getopt.c:575-592 | "--" is moved before the non-options, and everything behind it is skipped |
| Getopt.Scanner.Next | compat/getopt.c:511-968 | in each of the three orders, one call hands out the next event of the scan and leaves the rest, or ends with options before operands |
| Getopt.ScanInterleaves | compat/getopt.c:546-621 | options and operands keep their relative order |
| Getopt.InOrderMovesNothing | compat/getopt.c:159-182 | unless it permutes, the scan leaves every argument in place; only "--" leaves operands when non-options are handed out |
| Getopt.SelectorIsOptionLater | compat/getopt.c:405-416 | the character that selects the order is an option in all calls but the first, where it is read alike if and only if it stands again further behind with as many colons; every other character is read alike in all calls |
| Getopt.MissingCodeKeptIff | compat/getopt.c:946-949 | the code for a missing argument is the same in all calls if and only if no such character stands before a colon |
| Getopt.ScanAll | compat/getopt.c:511-968 | calling until -1 leaves a permutation: options with their arguments first, operands from optind on, each in the original order, and the vector as it was unless the order permutes |
| Connection.OutputConnection.Push | mumux/connection.c:174-200 | what was sent and what waits is what was pushed, in order; an empty push flushes |
| Connection.OutputConnection.Reset | mumux/connection.c:47-60 | empties the buffer; what was sent is all that was pushed if and only if nothing waited |
| Connection.OutputConnection.Write | mumux/request.c:162-187 | pushes the bytes, as one chunk in a chunked response, as far as an int holds their number |
| Connection.WriteFitsIff | mumux/request.c:180-186 | what a write passes on is the bytes, and its chunk the chunk of the bytes, if and only if there are fewer than 2^31 |
| Connection.OutputConnection.ResponseEnd | mumux/response.c:122-136 | ends a chunked body, and sends everything that waits |
| Connection.ReadHex | mumux/request.c:180-183 | the chunk size reads back |
| Connection.ChunksDecode | mumux/request.c:180-185 | the chunks of non-empty writes and the last chunk decode by section 4.1 of RFC 7230 to the writes |
| Connection.EmptyWriteEndsBody | mumux/request.c:180-185 | an empty write is a last chunk |
| Connection.DeliveredIffNoEmptyWrite | mumux/request.c:180-185 | the body arrives whole if and only if no write was empty |
| Connection.Respond | mumux/response.c:79-136 | from begin to end over any buffer size, what is on the wire decodes to the writes if and only if none was empty |
| WebSocket.ScanFrame | mumux/request.c:51-101 | scans a header, or waits for more of it |
| WebSocket.HeaderRoundTrip | mumux/request.c:51-101 | scanning a header of section 5.2 of RFC 6455 gives its fields back, the length if and only if it is below 2^31 |
| WebSocket.MakeHeader | mumux/util.c:78-99 | writes the unmasked header with the shortest length form; a negative length leaves its low seven bits |
| WebSocket.NegativeAnnounces | mumux/request.c:162-178 | a length that turned negative announces its low seven bits as a length, up to 125, or with 126 and 127 the length in the next two or eight bytes; none of it is sent behind the header |
| WebSocket.FragmentsReassemble | mumux/request.c:103-119 | the fragments of any writes below 2^31 bytes reassemble to their concatenation |
| WebSocket.SendMessage | mumux/request.c:103-187 | a message written in pieces below 2^31 bytes between begin and end is received whole under its opcode; with a larger piece it is not, unless there are some two hundred million pieces |
| WebSocket.UnmaskUndoesMask | mumux/request.c:149-158 | unmasking undoes masking |
| WebSocket.UnmaskedSplits | mumux/request.c:149-158 | unmasking in two parts is unmasking once |
| WebSocket.FrameReader.Read | mumux/request.c:121-160 | delivers the next bytes of buffers and socket, unmasked from their place in the payload, and counts them |
| WebSocket.ReadPieces | mumux/request.c:121-160 | however a masked payload is divided among reads, the pieces are the payload unmasked once from offset 0 |
| Server.Server.OnIncoming | mumux/server.c:147-186 | a configured arrival becomes the next living slot; one whose configuration fails takes the slot too, but dead and with a stale socket, and its descriptor is closed at once; a full table or a bad socket changes nothing |
| Server.Server.AcceptLoop | mumux/server.c:433-439 | the arrivals up to the first that fails are taken in order, the count never exceeds the table, and the one descriptor closed is that of the failing arrival |
| Server.Server.Compact | mumux/server.c:453-466 | exactly the living connections remain, in order; every other is closed, with ws_closed for websockets |
| Server.KeptOrRemoved | mumux/server.c:453-466 | a slot remains as often as it was there if alive, and fires ws_closed once if it was a websocket and is not |
| Server.ClosedPerSlot | mumux/server.c:453-466 | a socket is closed once for each dead slot that holds it |
| Server.Server.Update | mumux/server.c:395-467 | accepting, serving and the pass together: exactly the living connections remain, and what is closed is an arrival that could not be configured and then every dead connection |
| Server.SurvivorSparedIff | mumux/server.c:453-466 | a living connection's socket is left open if and only if no dead slot holds it |
| Server.AcceptKeepsApartIff | mumux/server.c:147-186 | with new sockets arriving, all sockets stay different if and only if no arrival fails, or the slot of the first failing one held no socket or one that no slot before it holds |
| Server.TurnsKeepApart | mumux/server.c:395-467 | over any updates with configured arrivals, sockets stay different, and each pass closes the socket of every removed connection once and of no other |
| Server.FailedArrivalClosesSurvivor | mumux/server.c:160-186 | after a compaction and a failed configuration, and serving in between, the next pass closes a living connection's socket |
| Server.UnusedSlotClosesZero | mumux/server.c:160-186 | a failing arrival in a slot of a server just started makes the next pass close descriptor 0 |
| Base64.Encode | mumux/base64.c:21-64 | writes the text and its NUL within the given size, or nothing and an error if the announced size does not fit |
| Base64.FitsBuffer | mumux/base64.c:13-19 | text and NUL fit wby_base64_bufsize, with nothing to spare if and only if there are fewer than 38 groups |
| Base64.RoundTrip | mumux/base64.c:21-64 | without line breaks the text decodes by section 4 of RFC 4648 to the input, for every length |
| HashRing.HashRing.AddNode | cynder/consistent_hash.h:46-54 | the node's points, and no others, are written over the ring |
| HashRing.HashRing.RemoveNode | cynder/consistent_hash.h:56-62 | exactly the node's points leave the ring |
| HashRing.HashRing.GetNode | cynder/consistent_hash.h:64-78 | the owner of the first point clockwise from the key's hash; an empty ring is an error |
| HashRing.AddMovesOnlyToNew | cynder/consistent_hash.h:46-78 | adding a node moves a key only to it, and exactly when one of its points comes first |
| HashRing.RemoveKeepsOthers | cynder/consistent_hash.h:56-78 | removing a node leaves a key at its first point if and only if that point is not one of the node's, whoever owns it |
| HashRing.RemoveMovesOwnKeys | cynder/consistent_hash.h:56-78 | without collisions removing a node moves exactly the keys that it owned |
| HashRing.CollidingNodeLost | cynder/consistent_hash.h:46-62 | with a collision it takes another node, which owned every key, off the ring |
| HashRing.RemoveUndoesAddIff | cynder/consistent_hash.h:46-62 | removing restores the ring if and only if the points were not on it |
| HashRing.AddsCommuteIff | cynder/consistent_hash.h:46-54 | two additions commute if and only if they are of one node or share no point |
| HashRing.HistoryIndependent | cynder/consistent_hash.h:46-62 | without collisions the ring depends only on which nodes are members |
| Crc32.EntryIsShift8 | common/crc32.h:4-69 | every table entry is eight bitwise steps of its index |
| Crc32.TableStepIsFeedByte | common/crc32.h:82-82 | a table step is the bitwise division of section 8 of RFC 1952 over one byte |
| Crc32.SerialSplits | common/crc32.h:81-83 | hashing a concatenation continues from the state after its first part |
| Crc32.SerialInjective | common/crc32.h:81-83 | distinct states stay distinct over any bytes |
| Crc32.OneByteChangeDetected | common/crc32.h:72-86 | changing any one byte changes the checksum |
| Crc32.Hash | common/crc32.h:72-86 | the loop computes the bitwise checksum of the string, its length taken modulo 2^32 |

## Left out

- Filepage.StoreKeepsLayout: assumes room; FilepageLimits.StoreKeepsLayoutIff shows that nothing less will do, and SmallRunIsRoomy gives a condition on the sizes. What a store without room does is stated for the items' data only, in FilepageLimits.GrowthSparesItemsIff and FilepageLimits.NextStoreSparesIff.
- Filepage.ReopenIsIdentity: is stated for names without NUL, of which strcpy would copy the front only.
- Removing items (cynder/filepage.cpp:228-258) is not modelled; its strcmp runs past the 36 bytes of the name field.
- Filebase.Filebase.constructor: files that exist are those of closed pages; directory handling is not modelled.
- Filebase.Filebase.Put: several pages filling up in turn cannot happen, since no page is ever full.
- DataIndex.DataIndex.Put: the database is a map, its transactions and files are not modelled; a duplicate key is an error as in a database without duplicate keys; the upper bound of a std::string's size is not modelled.
- Sha1Rolled.CountedExactIff: is stated for sizes below 2^61, which no buffer in memory reaches.
- RuleParser.YyParse: works on a token list; the flex scanner, error recovery (yyerror exits), locations and debugging output are not modelled. Semantic values are values where the source shares ActionNode objects by pointer; the stack-growing branch is dead.
- Json.ParsingUndoesDumping: strtod and operator<< round as IEEE 754 asks, in the C locale; casting a double beyond 64 bits to an integer is undefined in C++, and leaves it a double here.
- JsonPrinting.NumberComesBackIff: is stated for normal doubles; a subnormal one can have fewer than fifteen digits to hold.
- Json.DumpScans: indentation is not wrapped at 32 bits; the scanner is a function of the text, not its goto automaton; streams, callbacks and the recursion depth are not modelled.
- Json.Scan: a bare control character from 0x10 to 0x1F inside a string is accepted as the scanner's table does, against section 7 of RFC 7159.
- Fnmatch.Fnmatch: FNM_NOESCAPE, FNM_PERIOD and the other flags are not modelled; characters compare as numbers.
- Getopt.ScanAll: option strings that hold "W;" are excluded, since their arguments are looked up in the table of long options; long options, messages, optopt, and callers that move optind between calls are not modelled.
- Connection.OutputConnection.ResponseBegin: the response head is given as bytes; header lookup and formatting are not modelled.
- Connection.OutputConnection.Write: its result is that of the last push, which can hide an earlier failure; the model keeps that, and states delivery for runs without a refused send, with writes below 2^31 bytes.
- WebSocket.FrameReader.Read: the source turns recv's 0 at the end of the stream into another turn; a socket here gives at least one byte or an error.
- Server.Server.Update: select and the serving of one connection are parameters, and buffers are not modelled: a vacated slot keeps a living connection's buffer pointers, so buffers are not kept apart.
- HashRing.HashRing.GetNode: the hash is a parameter on strings; std::hash of a char pointer, the default, hashes the address instead. With a spread of zero the result of AddNode is unset in the source.
- Crc32.Hash: a string of 2^32 bytes or more is hashed up to its length modulo 2^32, as the code does.
- URL decoding, MIME tables, request parsing, job and log plumbing, Python embedding and the remaining flags and helpers, which would add easy members only.
