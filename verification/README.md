# Verification of SDHS: cJSON, the sensor data pipe, arenas and the row encoder

A Dafny model of the parts of the sensor data handling system that everything else rests on,
with proofs of what they promise. `dafny verify dfyconfig.toml` checks the project.

**cJSON.** `JsonTree` is the value a text denotes, `Rendering` its text, `Grammar` what the parser
accepts, `Utf`, `Numbers` and `JsonStrings` the literals. `Syntax` writes texts out, token by token
with any blanks between them, and says what they mean without saying how they are read; `Acceptance`,
built on `Reading`, `StringReading` and `NumberReading`, proves that the parser accepts exactly these
texts and takes them for what they mean. `RoundTrip` shows that printed text is among them, so
parsing undoes printing; `Layout` says what formatting adds to it. The C code itself works on an
explicit heap (`Memory`): blocks are allocated by an allocator that may fail at any call, and freeing
or reading a block that is not allocated does not verify. `Items` relates linked nodes to the tree
they stand for; `Lists`, `ListEdits`, `Duplication`, `Comparison`, `Creation`, `Parser` and `Printer`
hold the functions of the library as methods on that heap, each proved against the pure specification;
a print buffer is a block of it too, with its bytes in an array beside it. `Minifier` is the in-place
minifier, `MinifyLaws`, `Comments` and `MinifyPrint` its laws, `CompareLaws` the meaning of comparing, `WholeRuns` runs through
several of them.

**Sensor data pipe.** `Pipe` cuts each call into its atomic steps and proves its theorems over every
interleaving of writer and reader. An eventfd created with flags 0 returns and clears its whole
counter when read; the first writer read therefore drains all the initial tokens, and the invariants
start from that. `PipeCalls` holds the calls as the writing thread makes them, with the reader
running between any two of their steps, `PipeBuffers` ties its buffers to the arenas they are, and
`Stream` and `Modbus` feed them.

**Arenas and strings.** `Arena` is the tree of nested arenas with its live blocks, `UArena` the
allocator on memory, `ArenaObjects` any run on a tree of such allocators, `ArenaStrings` the strings
that grow inside one.

**Row encoder.** `Endian`, `CopyEncoder` and `CopyDecoder`: packed host rows to PostgreSQL binary COPY
tuples and back (PostgreSQL documentation of COPY, section "Binary Format").

Modelling choices. Numbers are reals, printed only when they are C ints (the `%d` path) and parsed by
the exact grammar and value of strtod on number characters. Sizes are unbounded, with the INT_MAX
checks of the printer written out. Structure sizes are those of x86-64. The host's byte order is a
parameter. A 64-bit timestamp that overflows wraps. The step of a pipe call that reads its own
`WriteBufIdx` is merged with the entry into the call, since only the writer changes it.

What the parser accepts beyond the standard: every byte up to the space as a blank, NUL included; leading
zeros, and digits missing on one side of the point; bare control characters in strings; four bytes
behind `\u` that are no hexadecimal number, and a backslash they leave over before the closing quote
(`Syntax.Unit`); and, unless the terminator is asked for, anything behind the value.

Where the code and its comments differ, the model follows the code:
- The header asks for 5 bytes more than the text when printing to a fixed buffer; 2 are needed and enough.
- A malformed `\u` escape is read as U+0000 rather than rejected (`Utf.LiteralMeetsStandard`).
- `minify_string` takes a closing quote behind an escaped backslash for an escaped quote
  (`MinifyPrint.MinifyUndoesFormatting`).
- A tree that gives one name two meanings does not compare equal to its own duplicate
  (`CompareLaws.CopyCompares`).
- A string in an arena is meant to extend in place; it does so into its neighbour when it is not the
  arena's last block (`ArenaStrings.ArenaString.Append`, `ArenaStrings.GrowsIntoNeighbour`).
- The conversion buffer is meant for all the rows; its computed size covers at most one field
  (`CopyDecoder.ConvBufCovers`).
- The pipe is meant for buffers the reader can use undisturbed; with two of them it cannot
  (`Pipe.ExclusiveIffThree`).

## Model

| member | source | states |
|---|---|---|
| `RoundTrip.ParsePrint` | src/cJSON/cJSON.c:1266-1745 | for every tree of C strings and C-int numbers with at most CJSON_NESTING_LIMIT nested containers, formatted or not: parsing the printed text, with its NUL or without, gives the same tree, members in order and repeated keys kept, and consumes the whole text |
| `RoundTrip.PrintSpells` | src/cJSON/cJSON.c:1326-1745 | every printed tree, formatted or not, is spelled as `Syntax` says, with the printer's blanks, and means the tree |
| `RoundTrip.PrintedIsShortest` | src/cJSON/cJSON.c:863-973 | of all the literals the standard allows for a string, the printed one is the shortest |
| `Layout.FormattedPrint` | src/cJSON/cJSON.c:1482-1745 | formatting the unformatted text from left to right, strings left alone, gives the formatted one: members and closing braces on lines of their own, a tab for each open container, a tab behind a colon, a space behind the comma in an array |
| `Acceptance.AcceptedExactly` | src/cJSON/cJSON.c:1053-1745 | parsing up to the terminator accepts a text if and only if it is a mark or none, blanks, a spelling within the nesting limit, blanks and the NUL; and takes it for what the spelling means |
| `Acceptance.TextIsRead` | src/cJSON/cJSON.c:1053-1126 | the same for every text that starts with a spelling, whatever follows, if it cannot prolong a number |
| `Acceptance.TextIsThere` | src/cJSON/cJSON.c:1053-1126 | every accepted text, terminator demanded or not, starts with a spelling of the value, and the end reported is the spelling's |
| `Reading.ValueIsRead` | src/cJSON/cJSON.c:1266-1642 | a value spelled with any bytes up to the space between any two tokens is read as its meaning, at any place of any text |
| `Reading.ValueIsThere` | src/cJSON/cJSON.c:1266-1642 | and whatever is read is spelled like that |
| `StringReading.StringIsRead` | src/cJSON/cJSON.c:734-860 | a literal made of bytes, two-character escapes, code units and surrogate pairs is read as the bytes these mean |
| `StringReading.StringIsThere` | src/cJSON/cJSON.c:734-860 | whatever literal is read is made of these, and of the two sloppy forms the code lets through |
| `StringReading.StrictIsProper` | src/cJSON/cJSON.c:734-860 | every literal without the sloppy forms is closed by its own quote, so the first of these covers the whole standard |
| `NumberReading.NumberIsRead` | src/cJSON/cJSON.c:303-373 | a numeral of at most 63 characters is read as its value, digit by digit with its place, scaled by its exponent |
| `NumberReading.NumberIsThere` | src/cJSON/cJSON.c:303-373 | whatever number is read is such a numeral |
| `Numbers.NoLeadingZero` | src/cJSON/cJSON.c:535-595 | no digit of a printed int is needless |
| `Numbers.ToIntIsFarthest` | src/cJSON/cJSON.c:357-368 | valueint is, of the C ints between zero and the number, the farthest from zero: truncated, and saturated at both ends |
| `Numbers.StrtodOfPrintInt` | src/cJSON/cJSON.c:535-595 | the decimal text of an int is consumed entirely by strtod and means that int |
| `Grammar.ParseValue` | src/cJSON/cJSON.c:1266-1323 | an accepted value strictly raises the offset and stays inside the text; an error position is not before the value, and at most at the end of the text |
| `Grammar.SkipWs` | src/cJSON/cJSON.c:996-1016 | skipping blanks never lowers the offset and never runs off the end of a non-exhausted text |
| `Grammar.ErrorPosition` | src/cJSON/cJSON.c:1101-1125 | the error position reported to the caller is inside the text |
| `Grammar.NestingBounded` | src/cJSON/cJSON.c:1393-1409 | no accepted value nests containers deeper than CJSON_NESTING_LIMIT, counted from the depth it is parsed at |
| `JsonStrings.OutputFits` | src/cJSON/cJSON.c:747-782 | for every input, however malformed its escapes, the decoder writes no more bytes than the pre-scan counted, even where the two passes stand on different escape boundaries |
| `JsonStrings.DecodeInto` | src/cJSON/cJSON.c:784-838 | in a buffer of the allocated size every write is in bounds, NUL included; the bytes are those the literal means, or decoding stops at the first malformed escape |
| `JsonStrings.PreScan` | src/cJSON/cJSON.c:747-782 | finds the closing quote, if there is one, and counts each escape pair once |
| `JsonStrings.CountEscapes` | src/cJSON/cJSON.c:876-913 | the extra space counted is exactly what escaping adds |
| `Utf.LiteralMeetsStandard` | src/cJSON/cJSON.c:626-731 | an escape is read as section 7 of RFC 8259 demands, surrogate pairs combined and lone or mismatched ones rejected, if and only if it is too short or a number is written in its four digits; one with other digits is taken for U+0000 |
| `Utf.LiteralBytesMean` | src/cJSON/cJSON.c:626-731 | for well-formed digits, the bytes of an accepted escape decode to exactly the code point the standard names |
| `Utf.Utf8ReadsBack` | src/cJSON/cJSON.c:692-730 | the bytes written for a code point decode to it |
| `Utf.Utf8IsUnique` | src/cJSON/cJSON.c:692-730 | no other bytes decode to it (section 3 of RFC 3629) |
| `Utf.Utf16LiteralToUtf8` | src/cJSON/cJSON.c:626-731 | appends the UTF-8 form of the escape and nothing else, or, if it is rejected, leaves the output untouched |
| `Utf.EncodeUtf8` | src/cJSON/cJSON.c:692-730 | the loop that writes the bytes from the last to the first writes the UTF-8 form |
| `Utf.BitForms` | src/cJSON/cJSON.c:708-722 | the masks and shifts of the UTF-8 loop are the arithmetic the model uses |
| `Utf.SurrogateBits` | src/cJSON/cJSON.c:678-681 | so is the way the two halves of a surrogate pair are put together |
| `Utf.ParseHex4` | src/cJSON/cJSON.c:598-623 | the loop over four digits gives their hexadecimal value, or zero if one is no digit |
| `Utf.HexReadsBack` | src/cJSON/cJSON.c:598-623 | every 16-bit number written with four hexadecimal digits, each in upper or lower case, has that value |
| `Utf.HexIsWritten` | src/cJSON/cJSON.c:598-623 | four digits that have a value are some number written like that |
| `Memory.Memory.Strdup` | src/cJSON/cJSON.c:189-207 | a fresh block with the same C string, or NULL with nothing allocated |
| `Memory.Memory.Reallocate` | src/cJSON/cJSON.c:173-176 | a block of the new size, the same or another, in place of the old one, or NULL with the old one untouched |
| `Lists.Delete` | src/cJSON/cJSON.c:249-271 | frees every block the list owns exactly once and no other; what is freed must be allocated, so neither a double free nor a use after free verifies |
| `Lists.Release` | src/cJSON/cJSON.c:249-271 | one item with its children and strings, also when its child list has not been closed at the front yet |
| `Parser.ParseBuffer.SkipWhitespace` | src/cJSON/cJSON.c:996-1016 | the loop and its final step back meet the specification of skipping blanks |
| `Parser.ParseBuffer.ParseNumber` | src/cJSON/cJSON.c:303-373 | through the fixed 64-byte buffer: the node holds the number the text begins with, valueint saturated |
| `Parser.ParseBuffer.ParseString` | src/cJSON/cJSON.c:734-860 | agrees with the grammar on success, value and error position; on failure the heap is as before |
| `Parser.ParseBuffer.ParseValue` | src/cJSON/cJSON.c:1266-1323 | agrees with the grammar: on success the node has become the parsed tree and only new blocks were added, on failure, at any point and for any failed allocation, the heap is as before |
| `Parser.ParseBuffer.ParseItems` | src/cJSON/cJSON.c:1426-1479 | the element loop keeps a doubly linked open list whose values are the elements read so far; on failure it leaves no block behind |
| `Parser.ParseBuffer.ParseMembers` | src/cJSON/cJSON.c:1573-1642 | the member loop likewise, each item with its key |
| `Parser.ParseBuffer.ParseArray` | src/cJSON/cJSON.c:1393-1479 | the finished list hangs below the node, the head's prev is the tail, the depth counter is restored |
| `Parser.ParseBuffer.ParseObject` | src/cJSON/cJSON.c:1537-1642 | the same for objects |
| `Parser.LastFilled` | src/cJSON/cJSON.c:1439-1454 | filling the last item of a list under construction keeps the list linked and disjoint |
| `Parser.NextItem` | src/cJSON/cJSON.c:1426-1465 | one turn of the element loop advances the grammar by one element |
| `Parser.ParseWithLengthOpts` | src/cJSON/cJSON.c:1053-1126 | a tree of new blocks, accounted for exactly, holding what the text means, or NULL with the heap unchanged and, unless memory ran out, the error position the grammar gives |
| `Parser.ParseCString` | src/cJSON/cJSON.c:1035-1132 | cJSON_Parse: the same for a C string read up to its NUL |
| `Parser.ParseAndDelete` | src/cJSON/cJSON.c:1053-1126 | parse followed by delete restores the heap, for every text and every allocation failure, and without one accepts exactly the texts of the grammar |
| `Printer.PrintBuffer.Ensure` | src/cJSON/cJSON.c:444-513 | succeeds exactly when no allocation fails and the request fits the fixed length or INT_MAX; the text survives growth; beside the blocks there were before printing, exactly the current buffer is allocated, or none if growing failed |
| `Printer.PrintBuffer.Grow` | src/cJSON/cJSON.c:482-512 | by realloc or by allocate, copy and free: the new block replaces the old one, which is also freed if there is no new one |
| `Printer.PrintBuffer.Trim` | src/cJSON/cJSON.c:1165-1190 | the text moves to a block of its exact size and no other buffer is left; if that fails, none is |
| `Printer.PrintBuffer.UpdateOffset` | src/cJSON/cJSON.c:516-525 | the offset moves to the end of the text |
| `Printer.PrintBuffer.PrintStringPtr` | src/cJSON/cJSON.c:863-973 | adds the quoted string to the text, with every write inside the buffer |
| `Printer.PrintBuffer.PrintNumber` | src/cJSON/cJSON.c:535-595 | adds the decimal text of the number |
| `Printer.PrintBuffer.PrintValue` | src/cJSON/cJSON.c:1326-1390 | succeeds exactly when no allocation fails and text, rendering and two bytes fit; then the buffer holds the old text followed by the rendering of the tree |
| `Printer.PrintBuffer.PrintItems` | src/cJSON/cJSON.c:1500-1523 | the element loop adds the rendering of the elements |
| `Printer.PrintBuffer.PrintMembers` | src/cJSON/cJSON.c:1672-1725 | the member loop adds the rendering of the members |
| `Printer.PrintBuffer.PrintArray` | src/cJSON/cJSON.c:1482-1534 | adds the array, and fails only if an allocation does or the two-byte slack is missing |
| `Printer.PrintBuffer.PrintObject` | src/cJSON/cJSON.c:1645-1745 | the same for objects; the depth counter is restored |
| `Printer.Print` | src/cJSON/cJSON.c:1142-1214 | the heap gains exactly one block, of the rendering and its NUL, or is exactly as before, because memory ran out or the text does not fit an int |
| `Printer.PrintBuffered` | src/cJSON/cJSON.c:1216-1243 | the heap gains exactly one block, with the rendering and its NUL at its front whenever no allocation fails, or is exactly as before; growing from any starting size |
| `Printer.PrintPreallocated` | src/cJSON/cJSON.c:1245-1263 | succeeds if and only if length >= size of the rendering + 2, and then the buffer holds the rendering and its NUL; nothing is allocated |
| `Rendering.RenderHasNoNul` | src/cJSON/cJSON.c:1326-1390 | a rendering is a non-empty C string |
| `Minifier.MinifyInPlace` | src/cJSON/cJSON.c:2731-2771 | in place the array comes to hold the minified text and its NUL; the write cursor never passes the read cursor and nothing behind the old terminator changes |
| `Minifier.MinifyString` | src/cJSON/cJSON.c:2709-2729 | copies one string literal byte by byte from the read to the write cursor and nothing else |
| `MinifyLaws.MinifyIdempotent` | src/cJSON/cJSON.c:2685-2771 | for every C string, minifying twice is minifying once |
| `Comments.TokensAreLeft` | src/cJSON/cJSON.c:2685-2771 | of a text made of bytes, literals, blanks, both kinds of comments and stray slashes, exactly the bytes and literals are left, in order |
| `Comments.OpenComment` | src/cJSON/cJSON.c:2685-2707 | a comment that is never closed swallows the rest |
| `Comments.OpenLiteral` | src/cJSON/cJSON.c:2709-2729 | a literal that is never closed is copied to the end |
| `MinifyPrint.MinifyUndoesFormatting` | src/cJSON/cJSON.c:2709-2771 | minifying the formatted print gives the unformatted print if and only if no string or key ends in a backslash, except perhaps the very last string when only arrays enclose it |
| `MinifyPrint.TreeYields` | src/cJSON/cJSON.c:1482-1745 | what minifying makes of a printed tree, whatever follows it: it comes through, or leaves its last string open, or has already gone wrong |
| `MinifyPrint.QuotedYields` | src/cJSON/cJSON.c:2709-2729 | a quoted string comes through and closes exactly when it does not end in a backslash |
| `MinifyPrint.MinifyKeepsUnformatted` | src/cJSON/cJSON.c:2685-2771 | the unformatted print of such a tree is a fixed point |
| `MinifyPrint.BackslashSpoilsMinify` | src/cJSON/cJSON.c:2709-2729 | an object whose one value is a backslash shows the failure |
| `ListEdits.GetArrayItem` | src/cJSON/cJSON.c:1769-1793 | the child at the index, or NULL if there is none |
| `ListEdits.AddItemToArray` | src/cJSON/cJSON.c:1875-1901 | the children become the old ones followed by the item, all links rebuilt; refused for NULL or itself, with nothing changed |
| `ListEdits.DetachItemViaPointer` | src/cJSON/cJSON.c:2116-2146 | the children become the old ones without the item, which stands alone and shares nothing with them |
| `ListEdits.InsertItemInArray` | src/cJSON/cJSON.c:2190-2219 | the item stands at the index, or last if there is no such position; a negative index is refused, and so is the array itself past its end |
| `ListEdits.ReplaceItemViaPointer` | src/cJSON/cJSON.c:2221-2262 | the children become the old ones with that item replaced, and exactly the old item's blocks are freed |
| `ListEdits.GetObjectItem` | src/cJSON/cJSON.c:1795-1826 | the first child of that name, unless a child without a name comes before it |
| `ListEdits.AppendSpells` | src/cJSON/cJSON.c:1847-1901 | the links the append writes spell the new sequence: next and prev inverse, last next NULL, head's prev the tail |
| `ListEdits.RemoveSpells` | src/cJSON/cJSON.c:2116-2146 | the same for removal, in every position |
| `ListEdits.InsertSpells` | src/cJSON/cJSON.c:2190-2219 | the same for insertion |
| `ListEdits.ReplaceSpells` | src/cJSON/cJSON.c:2221-2262 | the same for replacement |
| `Creation.CreateNumber` | src/cJSON/cJSON.c:2355-2373 | a new tree that holds the number, or NULL with nothing allocated |
| `Creation.CreateIntArray` | src/cJSON/cJSON.c:2460-2493 | a new array of the first count numbers, or NULL with nothing left allocated |
| `Duplication.DuplicateRec` | src/cJSON/cJSON.c:2606-2683 | a copy equal up to addresses, in new blocks only; it fails exactly for NULL, when memory runs out, or when a child lies deeper than CJSON_CIRCULAR_LIMIT, and then nothing is left allocated |
| `Duplication.CopyKids` | src/cJSON/cJSON.c:2645-2676 | the child loop: the copies so far hang below the new node in an open list, which is deleted if the loop gives up |
| `Duplication.CopyNode` | src/cJSON/cJSON.c:2614-2640 | the node with copies of its strings, or nothing |
| `Duplication.Duplicate` | src/cJSON/cJSON.c:2601-2604 | the same from depth zero |
| `Duplication.CopyHoldsTheSame` | src/cJSON/cJSON.c:2606-2683 | a copy holds the same value |
| `Comparison.Compare` | src/cJSON/cJSON.c:2862-2978 | decides the pairwise walk, including the shortcut for identical pointers |
| `Comparison.CompareElements` | src/cJSON/cJSON.c:2912-2934 | arrays compare equal iff they are as long and their elements compare equal in order |
| `Comparison.CompareMembers` | src/cJSON/cJSON.c:2936-2968 | one direction of the object comparison: every member has its like under its name on the other side |
| `Comparison.IntsCloseTo` | src/cJSON/cJSON.c:527-532 | on C ints the epsilon comparison is equality |
| `CompareLaws.CompareIsEquality` | src/cJSON/cJSON.c:2862-2978 | on C-int trees without repeated names, comparing is equality with objects read as maps, whatever nodes the two share |
| `CompareLaws.CompareIsEquivalence` | src/cJSON/cJSON.c:2862-2978 | on those trees comparing is reflexive, symmetric and transitive |
| `CompareLaws.CompareExactly` | src/cJSON/cJSON.c:2862-2978 | with repeated names allowed, two separate trees compare equal if and only if they mean the same and neither gives one name two meanings |
| `CompareLaws.ComparedMeansSame` | src/cJSON/cJSON.c:2862-2978 | comparing equal implies the same meaning |
| `CompareLaws.SameMeansCompared` | src/cJSON/cJSON.c:2862-2978 | the same meaning implies comparing equal, if no name has two meanings |
| `CompareLaws.SameNode` | src/cJSON/cJSON.c:2888-2891 | a pointer determines its tree, which is why the shortcut is sound |
| `WholeRuns.CopyComparesUnequal` | src/cJSON/cJSON.c:2601-2978 | unless memory runs out, parsing {"a":1,"a":2} and duplicating it gives two trees in one heap, alike in everything but addresses, that do not compare equal |
| `CompareLaws.CopyCompares` | src/cJSON/cJSON.c:2606-2978 | a copy compares equal to its source if and only if the source gives no name two meanings |
| `CompareLaws.DuplicateAndCompare` | src/cJSON/cJSON.c:2601-2978 | the same as one run of the two functions |
| `WholeRuns.PrintParseCompare` | src/cJSON/cJSON.c:1035-2978 | print, perhaps minify, parse, free the text, compare: the new tree holds the same value in blocks of its own, nothing else is left, and it compares equal unless a name has two meanings; on failure the heap is as before |
| `WholeRuns.ParseCopyDelete` | src/cJSON/cJSON.c:249-2683 | parse, duplicate, delete both: the heap is restored for every text and every allocation failure, and a parsed tree can always be duplicated if memory lasts |
| `WholeRuns.LevelsWithinDepth` | src/cJSON/cJSON.c:2606-2683 | duplication descends no deeper than the containers nest |
| `Pipe.RunKeepsInv` | src/sdhs/Common/SensorDataPipe.c:59-224 | every interleaving keeps the invariant of counters, indices and data |
| `Pipe.TokensAndOrder` | src/sdhs/Common/SensorDataPipe.c:59-182 | in every state of every run: BufCount - 1 tokens before the writer first reads its eventfd and exactly one ever after, FullBuffersCount 0 or 1, the k-th read takes buffer k mod BufCount |
| `Pipe.TakenAsPublished` | src/sdhs/Common/SensorDataPipe.c:114-182 | from the moment a buffer is published until the reader is given it, neither side clears it or writes to it |
| `Pipe.StreamConserved` | src/sdhs/Common/SensorDataPipe.c:114-224 | the buffers taken, one after the other, are a prefix of what was written, and all of it once nothing is published or being filled |
| `Pipe.ExclusiveIffThree` | src/sdhs/Common/SensorDataPipe.c:117-181 | the reader can rely on the buffer it was given, in all runs, if and only if there are at least three buffers |
| `Pipe.ThreeAreEnough` | src/sdhs/Common/SensorDataPipe.c:117-181 | with three or more, that buffer is never the writer's current nor the one being cleared, and keeps its contents |
| `Pipe.TwoAreNotEnough` | src/sdhs/Common/SensorDataPipe.c:117-181 | a run with two buffers in which the writer clears the buffer the reader is using |
| `Pipe.SomeoneMoves` | src/sdhs/Common/SensorDataPipe.c:120-129 | no reachable state blocks both sides inside the pipe calls |
| `Pipe.SomeoneReturns` | src/sdhs/Common/SensorDataPipe.c:114-182 | once both sides are inside the calls, one of the calls returns within ten steps |
| `Pipe.BlockedWriterIsAhead` | src/sdhs/Common/SensorDataPipe.c:120-129 | a writer left waiting has left the reader a buffer to take |
| `Pipe.WriterCalls` | src/sdhs/Common/SensorDataPipe.c:114-144 | the net effect of an undisturbed SdPipeGetWriteBuffer |
| `Pipe.ReaderCalls` | src/sdhs/Common/SensorDataPipe.c:155-182 | the net effect of an undisturbed SdPipeGetReadBuffer |
| `PipeCalls.SensorDataPipe.GetWriteBuffer` | src/sdhs/Common/SensorDataPipe.c:114-144 | under any interference by the reader: the old buffer's contents are published, the new current buffer is the next one and empty, nothing written is lost; the call waits only if there was no token when it came and there is none still |
| `PipeCalls.SensorDataPipe.Flush` | src/sdhs/Common/SensorDataPipe.c:192-224 | the same if the current buffer holds anything, and otherwise nothing at all happens |
| `PipeCalls.SensorDataPipe.Append` | src/sdhs/DataHandlers/ModbusWithPostgres/Modbus.c:68-69 | data go into the current buffer if they fit, and only there |
| `PipeCalls.WriterIsGood` | src/sdhs/Common/SensorDataPipe.c:114-224 | a step of the writer extends the run and keeps the record of what was published |
| `PipeBuffers.StartsBacked` | src/sdhs/Common/SensorDataPipe.c:50-57 | on a pipe as it was created, every arena holds what the pipe has in that buffer |
| `PipeBuffers.Append` | src/sdhs/DataHandlers/ModbusWithPostgres/Modbus.c:68-69 | ArenaAlloc on the current buffer and the copy into it succeed exactly when the pipe says they fit; the bytes in its arena are then the pipe's contents of it, and those of the other arenas are still theirs |
| `PipeBuffers.MoveOn` | src/sdhs/Common/SensorDataPipe.c:114-144 | publishing the current buffer and freeing the next one's arena, under any interference by the reader, keeps every arena holding what the pipe has in that buffer; it waits only without a token |
| `PipeCalls.ReaderIsGood` | src/sdhs/Common/SensorDataPipe.c:155-182 | a step of the reader extends the run and touches nothing of the writer's |
| `Stream.ThroughputTest` | src/sdhs/DataHandlers/ModbusWithPostgres/Modbus.c:64-74 | what the reader has taken is always a prefix of the test data; the data are published in order in chunks of BufferMaxFill, and once all are taken the takings are the data; it does not finish only if it waits without a token, the next chunk in its buffer |
| `Stream.ChunksAppend` | src/sdhs/DataHandlers/ModbusWithPostgres/Modbus.c:65-72 | the chunks put together are the data |
| `Modbus.Connection` | src/sdhs/DataHandlers/ModbusWithPostgres/Modbus.c:130-209 | the loop ends at the first of: the last reception, the one shutdown is asked for before, one that is neither a timeout nor a good packet; all packets until then are published in order, in buffers of exactly ItemMaxCount whole packets except the one the final flush publishes; if the run ends with the writer waiting, there is no token, and what is not published is in the current buffer |
| `Modbus.PacketIsFramed` | src/sdhs/CommProtocols/Modbus.c:112-129 | a reception brings a packet if and only if it is a frame around it with consistent lengths: function code, byte count, the packet, and one byte more |
| `Modbus.Packet` | src/sdhs/DataHandlers/ModbusWithPostgres/Modbus.c:153-197 | only packets of exactly PacketSize bytes get through |
| `Modbus.Sizing` | src/sdhs/DatabaseSystems/Postgres.c:357-361 | BufferMaxFill is the largest multiple of the packet size that fits a buffer, and not zero if a packet fits |
| `Arena.BlocksDisjoint` | src/allocators/u_arena.c:107-202 | over any run of allocations, reservations, pops, seeks and bootstraps anywhere in a tree of arenas, live blocks never overlap and lie inside the root |
| `Arena.RunKeepsWellFormed` | src/allocators/u_arena.c:107-202 | every run keeps each arena's position within its capacity and each bootstrapped arena on its own part of its parent |
| `Arena.LeavesAscend` | src/allocators/u_arena.c:107-202 | in a well-formed tree the live blocks follow one another in address order |
| `Arena.ScratchRestores` | src/allocators/u_arena.c:243-256 | a scratch use that does not rewind below its mark, and leaves the arenas that were there before alone, leaves no trace: the arena is as it was, every block that was live still live |
| `Arena.ScratchReleases` | src/allocators/u_arena.c:243-256 | whatever is done above the mark, in the arena or in arenas bootstrapped since, release leaves only what was done inside the arenas that were there before |
| `UArena.UArena.Alloc` | src/allocators/u_arena.c:125-134 | the next bytes if they fit, else nothing and no change |
| `UArena.UArena.Zalloc` | src/allocators/u_arena.c:139-148 | the same, and exactly those bytes become zero |
| `UArena.UArena.Reserve` | src/allocators/u_arena.c:194-202 | all that was asked for or nothing; the answer is short iff it did not fit |
| `UArena.UArena.Pop` | src/allocators/u_arena.c:171-176 | rewinds by the size unless there is less |
| `UArena.UArena.Seek` | src/allocators/u_arena.c:184-192 | the position, if it is within the capacity |
| `UArena.UArena.Bootstrap` | src/allocators/u_arena.c:107-123 | a new empty arena on memory of its own right behind its struct, and a part of its parent, or NULL if the two do not fit |
| `Arena.ActionSeenAt` | src/allocators/u_arena.c:107-202 | an operation at one place of the tree is itself there, and changes neither position, capacity nor parts of any other arena, the caller's parents and neighbours included, unless it drops the part that arena lies in |
| `ArenaObjects.PlaceAfter` | src/allocators/u_arena.c:107-202 | an operation that does not rewind below an arena with an object leaves every object standing at its place in the tree |
| `ArenaObjects.Act` | src/allocators/u_arena.c:107-202 | one call on any object of a tree of objects is that operation at its place, and a bootstrap adds one object, at a place that was free |
| `ArenaObjects.RunObjects` | src/allocators/u_arena.c:107-202 | any run of calls on the arena objects of a tree of any depth, bootstrapping new ones on the way and not rewinding one below an arena inside it, is a run of the tree: it stays well formed and every object is at its place in it |
| `UArena.Populate` | src/sdhs/Common/SensorDataPipe.c:50-57 | the buffers' memories are disjoint, and every bootstrap succeeds if and only if all the buffers fit |
| `UArena.SdpCreate` | src/sdhs/Common/SensorDataPipe.c:36-83 | the four-term size makes every bootstrap succeed and leaves the arena exactly full; in a given arena all the buffers are there if and only if they fit, and then the pipe starts empty; they are new, unused and apart; if the eventfds fail, a given arena is exactly as it was |
| `ArenaStrings.ArenaString.MakeSpace` | src/lm.h:753-767 | room in full, or failure with nothing changed; a last block stays last; the block reaches over bytes handed out behind it if and only if it was not last and had to grow |
| `ArenaStrings.ArenaString.Append` | src/lm.h:769-791 | the contents become the old ones and the new ones, terminated; fails iff neither string nor arena has room; the capacity grows by all that is added or not at all; for every string, the block comes to reach over bytes handed out behind it if and only if the append succeeds, the string was not last and its spare room was too small |
| `ArenaStrings.ArenaString.Set` | src/lm.h:804-817 | the contents become the given ones, terminated; the capacity, and when the block reaches over bytes behind it, likewise |
| `ArenaStrings.ArenaString.Clear` | src/lm.h:740-744 | empty and terminated |
| `ArenaStrings.ArenaString.Backspace` | src/lm.h:746-751 | the last n bytes go, n not above the length |
| `ArenaStrings.ArenaString.Free` | src/sdhs/Sdb.h:1196-1204 | popping the last block gives back the arena as it was before the string was made |
| `ArenaStrings.LmStringMake` | src/lm.h:703-728 | a terminated string with the initial contents as the last block, or NULL with nothing changed |
| `ArenaStrings.SdbStringMake` | src/sdhs/Sdb.h:1160-1194 | the same, except that an empty given string is terminated if and only if a zero byte lay there |
| `ArenaStrings.PerformAll` | src/sdhs/Sdb.h:1212-1269 | any run of appends, sets, clears and backspaces gives what it gives on a sequence, until an append or set does not fit; length within capacity and last place are kept, and the first edit terminates a string that was not |
| `ArenaStrings.MakeEditFree` | src/sdhs/Sdb.h:1160-1269 | make from any initial string or none, edit, free: the arena is exactly as before and nothing below the string was touched; exactly when what was read is terminated |
| `ArenaStrings.GrowsIntoNeighbour` | src/lm.h:753-781 | the failing case: a string with another behind it grows over that one's header, which happens exactly when the arena has room for both and for what is appended |
| `CopyEncoder.GetTableMetadata` | src/sdhs/DatabaseSystems/Postgres.c:180-209 | each sent column starts where the ones sent before it end; count and row size add up |
| `CopyEncoder.Write2` | src/sdhs/DatabaseSystems/Postgres.c:390-397 | a 16-bit host value is appended in network order |
| `CopyEncoder.Write4` | src/sdhs/DatabaseSystems/Postgres.c:399-406 | a 32-bit one |
| `CopyEncoder.Write8` | src/sdhs/DatabaseSystems/Postgres.c:408-415 | a 64-bit one |
| `CopyEncoder.WriteTimestamp` | src/sdhs/DatabaseSystems/Postgres.c:417-425 | the shifted timestamp is appended in network order |
| `CopyEncoder.TimestampInvertible` | src/sdhs/DatabaseSystems/Postgres.c:48-54 | the shift between the epochs can be undone |
| `CopyEncoder.EpochsMeet` | src/sdhs/DatabaseSystems/Postgres.c:48-54 | 2000-01-01 is zero |
| `CopyEncoder.TimestampReadsBack` | src/sdhs/DatabaseSystems/Postgres.c:417-425 | a timestamp is read back from the wire if and only if the shifted value fits 64 bits |
| `CopyEncoder.FieldReadsBack` | src/sdhs/DatabaseSystems/Postgres.c:523-561 | every supported field is read back as the host bytes that came in, under the same condition |
| `Endian.HostRoundTrip` | src/sdhs/DatabaseSystems/Postgres.c:390-415 | a host integer of either byte order survives network order and back |
| `Endian.NetworkOrder` | src/sdhs/DatabaseSystems/Postgres.c:390-415 | on a little-endian host the bytes are reversed, on a big-endian one they stay |
| `CopyEncoder.ConvertRow` | src/sdhs/DatabaseSystems/Postgres.c:507-562 | the column loop appends the tuple of the row |
| `CopyEncoder.ConvertRows` | src/sdhs/DatabaseSystems/Postgres.c:504-563 | the two loops write the tuples of all rows, one behind the other, in a buffer with room for them |
| `CopyDecoder.FieldsDecode` | src/sdhs/DatabaseSystems/Postgres.c:516-562 | a reader of the COPY format finds the fields of the row in the order of the COPY command |
| `CopyDecoder.FieldsCoverRow` | src/sdhs/DatabaseSystems/Postgres.c:180-209 | the sent columns cover the packed row without gap or overlap |
| `CopyDecoder.EncoderRoundTrip` | src/sdhs/DatabaseSystems/Postgres.c:504-563 | for any table of supported columns, the output decodes to one tuple for each row, whose fields give the row back, and is ItemCount tuples long |
| `CopyDecoder.ConvBufCovers` | src/sdhs/DatabaseSystems/Postgres.c:486-489 | the size computed for the conversion buffer covers the output of a table if and only if no more than one field is sent in all |
| `CopyDecoder.EncodeTable` | src/sdhs/DatabaseSystems/Postgres.c:180-563 | metadata and conversion together: ItemCount * (2 + 4 for each column sent + RowSize) bytes that decode to the rows, field by field in the order of the catalogue's columns that are sent |

## Left out

- Parser.ParseBuffer.ParseNumber: strtod is exact on reals; the rounding of decimal fractions to doubles, infinities, and the locale's decimal point are not modelled.
- Printer.PrintBuffer.PrintNumber: only numbers that are C ints are printed; the `%1.15g` and `%1.17g` paths are library behaviour.
- ListEdits.InsertItemInArray: an array inserted into itself at an existing position is excluded; the code then links it among its own children.
- Printer.PrintBuffered: a starting size of 0 without a reallocation function is excluded, because the manual copy then reads one byte of an empty buffer.
- Comparison.CompareElements: the epsilon comparison of non-integer doubles is modelled on reals, without rounding.
- Memory.Memory.Strdup: blocks are whole C strings or nodes; the bytes behind the first NUL of a parsed string are not kept, as no reader of the tree sees them.
- Modbus.Connection: one connection only; after a reconnect the code goes on with a stale buffer pointer.
- Modbus.Sizing: a packet size of zero, or above the buffer size, is excluded.
- UArena.SdpCreate: a given arena must have room for the pipe struct and its pointers, since the code writes through them unchecked; failure of malloc for an own arena is not modelled.
- UArena.Populate: the same room is required of its arena.
- UArena.UArena.Bootstrap: the struct of a new arena is an object beside the memory it occupies; its bytes are not interpreted.
- ArenaObjects.RunObjects: an arena is not rewound below one inside it that has an object, whose memory it would hand out again; a bootstrapped arena without any memory gets no object.
- ArenaStrings.ArenaString.Append: the header is a pair of fields beside the memory it occupies, so overwriting a header shows as overlap and not as a wrong length.
- ArenaStrings.ArenaString.Backspace: removing more bytes than there are wraps the unsigned length and is excluded.
- CopyEncoder.GetTableMetadata: lengths are natural numbers; columns of variable length (typlen -1) and the 16-bit truncation of the column count are not modelled.
- CopyEncoder.ConvertRows: a buffer with room for the output is required; when the computed size gives it is `CopyDecoder.ConvBufCovers`.
- CopyDecoder.EncodeTable: the same room is required.
- Pipe.RunKeepsInv: reads interrupted by a signal, and failing eventfd writes, are not modelled; one writer and one reader.
- Raw nodes, reference nodes and constant keys of cJSON: aliasing outside the tree model.
- Case-insensitive key lookup, and the Create and Add wrappers other than numbers and int arrays: easy members.
- The kernel arenas, `ua_falloc`, `ua_fzalloc` (no bound check by design), and the choice among several scratch arenas.
- `lm_string_append_fmt` and `SdbStringAppendFmt`: varargs formatting into a fixed buffer.
- libpq, the COPY header and trailer, transactions, sockets, epoll, threads, signals, logging and files.
