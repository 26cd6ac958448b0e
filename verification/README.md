# Verification of the plugin's algorithmic core

This project models the parts of the Allxon plugin SDK repository that are algorithms in
their own right, and proves what they are for. Each component is a module of its own.

* **cJSON.** The grammar as the parser really accepts it is `JsonSyntax`; a pure renderer
  of values is `JsonRender`. The parser (`JsonReader`, `JsonParser`) and the printer
  (`JsonPrinter`, `JsonTreePrinter`) work on heap items and byte arrays and are proved
  against these two, which are inverse to each other (`JsonRoundTrip`). `JsonPrinted` says what printed
  texts look like. `JsonAllocation`
  bounds what the second pass over a string writes by what the first pass allocated, and
  `JsonStrict` says which strings are read as a strict decoder reads them. `JsonGrammar` is
  the grammar of RFC 8259, and the looser one that cJSON reads, with what their texts denote;
  `JsonComplete` and `JsonSound` say that the parser accepts exactly the texts of the loose
  grammar within its limits, and `JsonRepair` where it reports an error. `JsonWhole` puts
  printing, parsing and minifying together on heap trees.
  Sibling lists (`JsonNode`), whole trees (`JsonTree`), copies (`JsonCopy`), the minifier
  (`JsonMinify`, `JsonMinifyMeaning`, `JsonMinifyPrint`) and the comparison (`JsonCompare`,
  `JsonCompareTree`) follow.
* **MD5 streaming** (`Md5`): buffering, counting and padding over any run of appends. The
  compression function is a parameter.
* **The in-memory log** (`LogRing`): a wrapping byte ring and its flush.
* **WebSocket frames** (`MachineWord`, `FrameMask`, `FrameHeader`): masking word by word
  and in chunks, and header encoding, on machines of either byte order.
* **The recursive mutex** (`RecursiveMutex`): a state machine whose steps are single reads
  and writes of shared fields by any thread, the condition wait included.
* **The UTF-8 validator** (`Utf8Validator`): the table against the grammar of RFC 3629.
* **The connection state machine** (`ConnectionStates`): one handler per step.
* **URIs and base64** (`Uri`, `Base64`): parser and printer pairs.

Code that changes state is written as methods over classes and arrays, each proved equal
to a specification function; the lemmas are about those functions. A ghost `Shape` names
the items of a tree on the heap.

Some plain expectations do not hold of the code, and the model keeps the code as it is:

* A `\u` escape with bad digits is not rejected, nor is a raw control character:
  `JsonStrict.StrictExactly` says for exactly which strings the parser is as strict as section 7
  of RFC 8259, and `JsonStrict.PassesEndTogether` for exactly which the two passes end at
  different places. The allocation suffices for all.
* Not every JSON text is accepted: `JsonComplete.ParseDocument` says exactly which are, and
  `JsonComplete.ParseDenotes` for which the value survives as C strings. Texts that are not
  JSON are accepted too: `JsonSound.AcceptedExactly` says exactly which.
* The error position is one byte too far where the name of a member is missing
  (`JsonRepair.ErrorPosition`).
* A preallocated print needs two bytes beyond its text, not one
  (`JsonTreePrinter.PrintPreallocated`).
* Minifying misreads a string that ends in a backslash (`JsonMinifyPrint.MinifyBreaks`);
  `MinifyRestores` says exactly for which trees it is right.
* Comparison is not reflexive for objects that repeat a key with different values
  (`JsonCompare.RepeatedKeyBreaksReflexivity`); `CompareIsPartialEquivalence` says exactly when it is.
* An offline reason given to WebsocketConnected sticks; `ConnectionStates.OfflineSticks` says
  exactly which runs end that.
* Being registered does not mean being connected; `ConnectionStates.RegisteredMeansConnected`
  says for exactly which runs it does.
* The mutex does not survive a wait by a thread that does not hold it, whether or not another
  thread does; `RecursiveMutex.WhoMayWait` and `SafeFromTheStart` say so exactly.
* Appending an item that still has a next item, or that is already in the list, breaks the list
  (`JsonNode.AddItemToArray`), and so does inserting an item that is there already.
* A URI with an IPv6 host does not survive its own printing (`Uri.RoundTrip`).
* The comments on the streaming mask functions say that bytes up to a multiple of the word
  size are rewritten; the code leaves them alone, and so does the model.

## Model

| member | source | states |
|---|---|---|
| `JsonSyntax.Skip` | Util/src/cJSON.c:1034-1057 | the offset after a run of bytes up to 32 never passes the terminator |
| `JsonSyntax.ParseNumber` | Util/src/cJSON.c:305-379 | an accepted number is a run of at most 63 numeric bytes, behind its start and inside the buffer; a rejected one leaves the offset where it was |
| `JsonSyntax.Utf16At` | Util/src/cJSON.c:648-709 | a `\u` escape takes 6 or 12 bytes before the end and gives a code point below 0x110000 that is never a surrogate; 12 bytes exactly for code points beyond 0xFFFF |
| `JsonSyntax.ParseString` | Util/src/cJSON.c:769-895 | a string ends behind its start and inside the buffer, an error position too |
| `JsonSyntax.ParseValue` | Util/src/cJSON.c:1308-1360 | every accepted value ends strictly behind its start and inside the buffer, and a failure position is not before the start |
| `JsonSyntax.ParseText` | Util/src/cJSON.c:1091-1168 | end and error offsets reported to the caller lie inside the text |
| `JsonReader.ParseBuffer.SkipWhitespace` | Util/src/cJSON.c:1034-1057 | the cursor moves to the offset of the specification; nothing else changes |
| `JsonReader.ParseNumber` | Util/src/cJSON.c:305-379 | success, value, integer value and new offset are those of the specification |
| `JsonReader.ParseHex4` | Util/src/cJSON.c:611-645 | the four digits as a number, or 0 when one of them is no hex digit |
| `JsonReader.Utf16LiteralToUtf8` | Util/src/cJSON.c:648-766 | length consumed and bytes written are those of the specification, inside the output |
| `JsonReader.WriteUtf8` | Util/src/cJSON.c:711-760 | the in-place loop that fills continuation bytes from the back writes the encoding of the code point |
| `JsonReader.ScanString` | Util/src/cJSON.c:783-807 | the first pass finds the closing quote of the specification and counts exactly the escapes that size the allocation |
| `JsonReader.UnescapeInto` | Util/src/cJSON.c:815-873 | the second pass writes exactly the specified bytes and stays inside the array the first pass allocated, for every input |
| `JsonReader.ParseString` | Util/src/cJSON.c:769-895 | success, text and new offset are those of the specification |
| `JsonReader.ValueInt` | Util/src/cJSON.c:361-373 | inside the range of an int the value is truncated toward zero, whole numbers exactly; outside it the result is the nearest limit |
| `JsonAllocation.PieceFits` | Util/src/cJSON.c:819-868 | each step of the second pass writes no more than it reads less what the first pass saved there, whatever the first pass took the bytes for |
| `JsonAllocation.SecondPassFits` | Util/src/cJSON.c:817-870 | the same over the rest of the string, even when a step runs past the closing quote |
| `JsonAllocation.AllocationSuffices` | Util/src/cJSON.c:783-879 | for every input, well formed or not, the bytes written and the terminator fit the allocation |
| `JsonStrict.StrictOrLenient` | Util/src/cJSON.c:817-870 | from any offset where the first pass may stand: a one-pass decoder of section 7 of RFC 8259, which rejects a `\u` without four hex digits and a raw control character, succeeds exactly when the second pass does, every `\u` has its digits and no control character is left before the quote, with the same bytes and end |
| `JsonStrict.StrictExactly` | Util/src/cJSON.c:769-895 | for every string in every buffer: the strict decoder accepts it exactly when the parser does, every `\u` has four hex digits before the closing quote and no raw control character stands before it; both then give the same text and the same end |
| `JsonStrict.AcceptedIsStrict` | Util/src/cJSON.c:817-870 | among the strings the parser accepts, those malformed by section 7 of RFC 8259 are exactly those with a `\u` short of hex digits or a raw control character |
| `JsonStrict.PassesEndTogether` | Util/src/cJSON.c:782-879 | for every accepted string: the second pass stops at the closing quote of the first exactly when no `\u` splits the run of backslashes in front of it, else one byte later; a `\u` with its digits never does |
| `JsonStrict.EndsApartFrom` | Util/src/cJSON.c:817-870 | the same from any point of the second pass |
| `JsonStrict.RunIsEven` | Util/src/cJSON.c:786-800 | the backslashes in front of the closing quote pair up for the first pass |
| `JsonStrict.MalformedIsAccepted` | Util/src/cJSON.c:631-634 | an instance: a string with a malformed `\u` that the parser accepts, the strict decoder rejects and the two passes end apart on |
| `JsonStrict.ControlIsAccepted` | Util/src/cJSON.c:819-822 | an instance: a string with a raw line feed that the parser accepts and the strict decoder rejects |
| `JsonParser.ParseValue` | Util/src/cJSON.c:1308-1360 | refines the specification: same verdict, value and offset; the item becomes the root of a fresh well-linked tree; depth is restored on success and never passes 1000 |
| `JsonParser.ParseArray` | Util/src/cJSON.c:1437-1532 | the same for arrays, with the error offset and the depth check of the source |
| `JsonParser.ParseItemList` | Util/src/cJSON.c:1471-1509 | the loop over elements builds a chain that is one well-formed sibling list in order of the text |
| `JsonParser.ParseObject` | Util/src/cJSON.c:1597-1707 | the same for objects |
| `JsonParser.ParseMemberList` | Util/src/cJSON.c:1629-1685 | the loop over members builds the chain with each key on its item |
| `JsonParser.ParseName` | Util/src/cJSON.c:1653-1669 | the key is read as a string and the colon is found where the specification finds it |
| `JsonParser.SkipUtf8Bom` | Util/src/cJSON.c:1060-1073 | the cursor moves over a byte order mark only when more than four bytes are there |
| `JsonParser.ParseWithOpts` | Util/src/cJSON.c:1075-1168 | on every C string: a fresh well-linked tree with the specified value, or null with the specified error position, which is inside the text |
| `JsonRoundTrip.ParsedHeight` | Util/src/cJSON.c:1442-1446 | whatever parses at a depth has a nesting that stays within 1000 |
| `JsonRoundTrip.StrtodOfDecimal` | Util/src/cJSON.c:353-357 | the decimal form of an integer is read back as that integer, to its last byte |
| `JsonRoundTrip.UnescapeOfEscapeAll` | Util/src/cJSON.c:970-1012 | unescaping what the escaper wrote gives the string back |
| `JsonRoundTrip.ParseQuoted` | Util/src/cJSON.c:898-1017 | parsing a printed string gives the string back, wherever it stands |
| `JsonRoundTrip.ParseRendered` | Util/src/cJSON.c:1363-1434 | parsing a printed value in the middle of a text gives that value and stops right behind it, when depth allows |
| `JsonRoundTrip.RoundTrip` | Util/src/cJSON.c:1183-1246 | for every tree of null, booleans, NUL-free strings and keys, and integers below 10^15, formatted or not: parsing the print gives the same tree and end offset exactly when it nests at most 1000 deep |
| `JsonWhole.RenderNulFree` | Util/src/cJSON.c:1183-1246 | the text of a printable tree is a C string |
| `JsonWhole.PrintAndParse` | Util/src/cJSON.c:1171-1256 | printing a heap tree and parsing the bytes gives a fresh well-linked tree of the same value exactly when the text fits an int with two bytes more and the tree nests at most 1000 deep |
| `JsonPrinted.PrintedValue` | Util/src/cJSON.c:1363-1434 | the print of every printable tree, formatted or not, is a text of RFC 8259 that denotes the tree, with this layout: formatted, each member stands on a line of its own behind one tab for each level, a tab stands behind its colon and a space behind each comma in an array; otherwise there is no white space |
| `JsonPrinted.EscapeIsShortest` | Util/src/cJSON.c:925-949 | each byte of a string is printed in its shortest spelling in RFC 8259 |
| `JsonPrinted.HexIsSmall` | Util/src/cJSON.c:1004-1008 | an escape in hex is written with small letters |
| `JsonPrinted.PrintedNumber` | Util/src/cJSON.c:545-608 | a printed integer below 10^15 is a number of RFC 8259 with that value, of at most 63 bytes |
| `JsonComplete.StrtodOfNumeral` | Util/src/cJSON.c:353-357 | every numeral of the loose grammar, which has those of section 6 of RFC 8259, is read to its last byte, as the sum of its digits times the powers of ten of their places, moved by the exponent |
| `JsonComplete.ParseNumeral` | Util/src/cJSON.c:305-379 | inside any text such a number of at most 63 bytes is read whole; after a longer one the parser stands at one of its own bytes |
| `JsonComplete.EndOfBody` | Util/src/cJSON.c:783-807 | the first pass finds the closing quote behind anything without a quote outside an escape |
| `JsonComplete.CharsUnquoted` | Util/src/cJSON.c:783-807 | the characters of section 7 of RFC 8259 are such a body |
| `JsonComplete.UnescapeOfChars` | Util/src/cJSON.c:815-873 | the second pass gives the UTF-8 form of the characters, those of the loose grammar too, when surrogates are paired, and fails exactly when one is not |
| `JsonComplete.ParseChars` | Util/src/cJSON.c:769-895 | a string of the loose grammar is read, up to its first NUL, exactly when its surrogates are paired |
| `JsonComplete.StrictOfChars` | Util/src/cJSON.c:817-870 | the strict decoder accepts every string of the grammar with paired surrogates, with the UTF-8 form of its characters |
| `JsonComplete.CharsOfStrict` | Util/src/cJSON.c:817-870 | and nothing else: what it accepts is such a string |
| `JsonComplete.AcceptedIsGrammatical` | Util/src/cJSON.c:769-895 | among the strings the parser accepts, those of the grammar are exactly those in which every `\u` has its four hex digits and no raw control character stands |
| `JsonComplete.ParseElements` | Util/src/cJSON.c:1471-1509 | elements of the loose grammar up to the closing bracket are all read with their values, or refused when one does not fit |
| `JsonComplete.ParseKeyOf` | Util/src/cJSON.c:1653-1669 | a key with white space around it and its colon is read exactly when its surrogates are paired |
| `JsonComplete.ParseEntries` | Util/src/cJSON.c:1629-1685 | members of the loose grammar up to the closing brace are all read with their keys and values, or refused when one does not fit |
| `JsonComplete.ParseArrayOf` | Util/src/cJSON.c:1437-1532 | an array of the loose grammar, empty or not, is read exactly when it fits the depth and all its elements do |
| `JsonComplete.ParseObjectOf` | Util/src/cJSON.c:1597-1707 | an object of the loose grammar, empty or not, is read exactly when it fits the depth and all its members do |
| `JsonComplete.ParseSyntax` | Util/src/cJSON.c:1308-1360 | a value of the loose grammar in the middle of any text, at any depth, is read with the value it denotes exactly when it fits; otherwise the parser fails or stops at a byte of a number |
| `JsonComplete.ParseLoose` | Util/src/cJSON.c:1075-1168 | every text of the loose grammar is parsed to its end with the value it denotes, strings up to their first NUL, exactly when it nests at most 1000 deep, its numbers take at most 63 bytes and its surrogates are paired; with a terminator required all other such texts are refused |
| `JsonComplete.ElementIsLoose` | Util/src/cJSON.c:1075-1168 | the texts of RFC 8259 are among those of the loose grammar |
| `JsonComplete.ParseDocument` | Util/src/cJSON.c:1075-1168 | in particular every text of RFC 8259, with any white space, escapes, exponents and with or without byte order mark, is parsed to its end with the value it denotes exactly under those conditions, and refused otherwise when a terminator is required |
| `JsonComplete.ParseDenotes` | Util/src/cJSON.c:1075-1168 | the value comes back unchanged exactly when, besides, no string and no key of it contains U+0000 |
| `JsonSound.SoundNumber` | Util/src/cJSON.c:305-379 | a number that is read is a numeral of the loose grammar of at most 63 bytes, with its value |
| `JsonSound.SoundString` | Util/src/cJSON.c:769-895 | a string that is read is a string of the loose grammar with paired surrogates, with its UTF-8 form up to the first NUL |
| `JsonSound.SoundItems` | Util/src/cJSON.c:1471-1509 | what the loop over elements reads are elements with commas between them and a closing bracket behind, with their values |
| `JsonSound.SoundKey` | Util/src/cJSON.c:1653-1669 | a key that is read is a string with white space around it and a colon behind |
| `JsonSound.SoundMembers` | Util/src/cJSON.c:1629-1685 | what the loop over members reads are keys, colons and values with commas between them and a closing brace behind |
| `JsonSound.SoundValue` | Util/src/cJSON.c:1308-1360 | soundness: whatever is read at any offset and depth is a value of the loose grammar that stands there, ends where the parser does, fits the depth and denotes the value |
| `JsonSound.SoundText` | Util/src/cJSON.c:1075-1168 | a whole text that is accepted is a document of the loose grammar with the value it denotes |
| `JsonSound.AcceptedExactly` | Util/src/cJSON.c:1075-1168 | the accepted language: with a terminator required a text is accepted if and only if it is such a document within the limits on nesting, numbers and surrogates, and then has the value that each document it is denotes |
| `JsonSound.SoundFront` | Util/src/cJSON.c:1137-1152 | without a terminator the front of the text up to the reported end is white space and such a value |
| `JsonRepair.RepairString` | Util/src/cJSON.c:881-894 | what stands in front of the error in a refused string is the start of a string of the loose grammar |
| `JsonRepair.RepairValue` | Util/src/cJSON.c:1308-1360 | the same for values at any offset and depth |
| `JsonRepair.ErrorPosition` | Util/src/cJSON.c:1143-1165 | what stands in front of the reported error position is the start of a text that is accepted, so the position is not behind the first byte that nothing can repair; where the name of a member is missing it is one byte further |
| `JsonGrammar.Tokens` | Util/src/cJSON.c:1308-1360 | the bytes of the tokens, as characters |
| `JsonGrammar.Classes` | Util/src/cJSON.c:317-347 | the digits, signs, numeric bytes and white space, as characters |
| `JsonGrammar.HexDigits` | Util/src/cJSON.c:611-645 | hex digits count up from their first character in either case, and no other byte is one |
| `JsonGrammar.ShortEscapes` | Util/src/cJSON.c:832-855 | the eight short escapes and what they stand for, and no other byte is one |
| `JsonWhole.DocumentNulFree` | Util/src/cJSON.c:1075-1083 | every text of the grammar is a C string |
| `JsonWhole.ParseGrammatical` | Util/src/cJSON.c:1075-1168 | the heap parser on a text of the grammar: a fresh well-linked tree with the value the text denotes under exactly those conditions |
| `JsonWhole.ParseExactly` | Util/src/cJSON.c:1075-1168 | the heap parser on any C string with a terminator required: a fresh well-linked tree exactly when the string is a document of the loose grammar within the limits, with the value it denotes, and null for every other string |
| `JsonPrinter.PrintBuffer.Ensure` | Util/src/cJSON.c:439-522 | succeeds exactly when offset, request and terminator fit the capacity (the buffer if preallocated, INT_MAX if growable); what was printed is kept |
| `JsonPrinter.PrintBuffer.UpdateOffset` | Util/src/cJSON.c:525-535 | the offset lands on the terminator of the text so far |
| `JsonPrinter.PrintNumber` | Util/src/cJSON.c:545-608 | appends the decimal digits, succeeding exactly when they and two more bytes fit |
| `JsonPrinter.PrintStringPtr` | Util/src/cJSON.c:898-1017 | appends the quoted, escaped string, succeeding exactly when it and two more bytes fit |
| `JsonPrinter.CountEscapes` | Util/src/cJSON.c:925-949 | the first loop counts exactly the bytes that escaping adds |
| `JsonTreePrinter.PrintValue` | Util/src/cJSON.c:1363-1434 | refines the pure renderer: the buffer holds the text before plus the rendering of the value, in both formats |
| `JsonTreePrinter.PrintArray` | Util/src/cJSON.c:1535-1594 | the same for arrays, depth restored |
| `JsonTreePrinter.PrintObject` | Util/src/cJSON.c:1710-1821 | the same for objects, depth restored |
| `JsonTreePrinter.PrintItems` | Util/src/cJSON.c:1558-1582 | the loop over elements appends the rendering of all of them |
| `JsonTreePrinter.PrintMembers` | Util/src/cJSON.c:1737-1801 | the loop over members appends the rendering of all of them |
| `JsonTreePrinter.PrintGrowing` | Util/src/cJSON.c:1183-1210 | from any initial size the bytes equal the rendering; fails exactly when the text and two bytes pass INT_MAX |
| `JsonTreePrinter.Print` | Util/src/cJSON.c:1183-1256 | a new string that is exactly the rendering and its terminator |
| `JsonTreePrinter.PrintBuffered` | Util/src/cJSON.c:1258-1286 | null for a negative size, else the rendering in the grown buffer |
| `JsonTreePrinter.PrintPreallocated` | Util/src/cJSON.c:1288-1305 | true exactly when the buffer has two bytes more than the text; then the buffer holds the rendering and a terminator |
| `JsonNode.ListIsUnique` | Util/src/cJSON.c:1952-1983 | the links determine the list: a parent has only one sequence of children |
| `JsonNode.AddItemToArray` | Util/src/cJSON.c:1952-1983 | for any item: the result is the sequence with the item appended, with next and prev inverse, last next null and the head knowing the tail, exactly when the list was empty or the item was not in it and had no next of its own; otherwise the parent has no well-formed list at all |
| `JsonNode.GetArrayItem` | Util/src/cJSON.c:1847-1864 | the element at the index, or null |
| `JsonNode.DetachItemViaPointer` | Util/src/cJSON.c:2183-2217 | refines removal from the sequence at any position; the item leaves with null links |
| `JsonNode.DetachItemFromArray` | Util/src/cJSON.c:2219-2227 | the same by index, null outside the list |
| `JsonNode.InsertItemInArray` | Util/src/cJSON.c:2259-2286 | refines insertion at the index, whatever the item was linked to, exactly when the item is not in the list; past the end it is an append, with the condition of an append |
| `JsonNode.LinkBefore` | Util/src/cJSON.c:2274-2285 | the relinking of an insertion, at the head too, which gives that list exactly when the item is not in it already |
| `JsonNode.ReplaceItemViaPointer` | Util/src/cJSON.c:2288-2335 | refines the update of one element exactly when the replacement is that element or not in the list; the old item leaves with null links |
| `JsonNode.RelinkReplacement` | Util/src/cJSON.c:2300-2328 | the relinking of a replacement, for a lone, first, inner and last element |
| `JsonNode.RemovedIsList` | Util/src/cJSON.c:2190-2211 | links that skip one element form the list without it |
| `JsonNode.InsertedIsList` | Util/src/cJSON.c:2274-2285 | links that take one element in form the list with it |
| `JsonNode.ReplacedIsList` | Util/src/cJSON.c:2300-2328 | links that name another element form the updated list |
| `JsonTree.Attach` | Util/src/cJSON.c:1488-1493 | a chain under construction takes one more element at its end |
| `JsonTree.Close` | Util/src/cJSON.c:1514-1519 | the finished chain becomes a well-formed list of the parent |
| `JsonTree.ForestSnoc` | Util/src/cJSON.c:1472-1504 | a forest, its items and its value grow by one tree at the end |
| `JsonCopy.CreateIntArray` | Util/src/cJSON.c:2536-2574 | a fresh well-linked array whose value is the first numbers in order; null exactly for a negative count or no numbers |
| `JsonCopy.Duplicate` | Util/src/cJSON.c:2697-2778 | a fresh tree that shares no item with the original, is linked to no sibling, and has the same contents, all of it or the root only |
| `JsonCopy.DuplicateChildren` | Util/src/cJSON.c:2740-2767 | the loop over children links fresh copies into one well-formed list, head and tail included |
| `JsonCopy.SameValue` | Util/src/cJSON.c:2697-2778 | a copy stands for the same JSON value |
| `JsonMinify.SkipOnelineComment` | Util/src/cJSON.c:2780-2791 | stops behind the newline or at the terminator |
| `JsonMinify.SkipMultilineComment` | Util/src/cJSON.c:2793-2805 | stops behind the closing mark or at the terminator |
| `JsonMinify.MinifyString` | Util/src/cJSON.c:2807-2827 | copies exactly the span that the scan takes for a string, in place |
| `JsonMinify.Minify` | Util/src/cJSON.c:2829-2875 | in place, with the write cursor never ahead of the read cursor, the array ends up with the specified text and its terminator |
| `JsonMinifyMeaning.MinifyDropsComments` | Util/src/cJSON.c:2780-2805 | outside strings a comment of either kind is dropped: the text is minified as if it were not there |
| `JsonMinifyMeaning.OutsideThen` | Util/src/cJSON.c:2829-2875 | a text that ends outside strings and comments is minified without regard to what follows it |
| `JsonMinifyMeaning.StringStays` | Util/src/cJSON.c:2807-2827 | a string of RFC 8259 is kept as it is, unless it ends in an escaped backslash |
| `JsonMinifyMeaning.MinifySyntax` | Util/src/cJSON.c:2829-2875 | minifying any value of RFC 8259 in which no string ends so drops the white space and nothing else |
| `JsonMinifyMeaning.MinifyKeepsMeaning` | Util/src/cJSON.c:2829-2875 | for every such text of RFC 8259: the result is the text of the same syntax without white space, never longer, denotes the same value, and is parsed to the same value exactly when the text is |
| `JsonMinifyPrint.QuotedKept` | Util/src/cJSON.c:2807-2827 | a printed string is kept as it is, unless it ends in a backslash: then the scan runs on past its closing quote |
| `JsonMinifyPrint.MinifyRendered` | Util/src/cJSON.c:2829-2875 | what minifying makes of a formatted value in the middle of a text, by how its strings end |
| `JsonMinifyPrint.MinifyRestores` | Util/src/cJSON.c:2829-2875 | minifying the formatted print gives the unformatted print exactly for the trees in which nothing follows a string that ends in a backslash |
| `JsonWhole.PrintAndMinify` | Util/src/cJSON.c:2829-2875 | printing a heap tree with formatting and minifying the array in place leaves the unformatted print in it exactly when nothing follows a string or key that ends in a backslash |
| `JsonMinifyPrint.MinifyRestoresPlain` | Util/src/cJSON.c:2829-2875 | in particular for every tree without strings or keys that end in a backslash |
| `JsonMinifyPrint.MinifyBreaks` | Util/src/cJSON.c:2821-2825 | a concrete tree whose minified print is not its unformatted print |
| `JsonCompareTree.CaseInsensitiveStrcmp` | Util/src/cJSON.c:133-154 | zero exactly for two strings of one length whose bytes are the same or the two cases of one ASCII letter at every position; a missing string equals nothing |
| `JsonCompareTree.GetObjectItem` | Util/src/cJSON.c:1876-1906 | the first member with the name, byte by byte or with either case of each letter, or null when there is none |
| `JsonCompare.FoldMeans` | Util/src/cJSON.c:133-154 | folding two keys gives the same bytes exactly when they are the same key in that sense |
| `JsonCompareTree.Wanted` | Util/src/cJSON.c:1886-1899 | the loop condition of the lookup, a missing key included |
| `JsonCompareTree.FirstMatch` | Util/src/cJSON.c:1885-1899 | the first match among the items is the first match in the object value |
| `JsonCompareTree.Compare` | Util/src/cJSON.c:2977-3100 | an item equals itself; otherwise, for any two items of one tree or of disjoint trees, true exactly when nothing is missing and the values compare equal |
| `JsonCompareTree.PlacesApart` | Util/src/cJSON.c:2977-3100 | a comparison of any two different items of one tree, nested or not, never meets the same item on both sides |
| `JsonCompareTree.DisjointApart` | Util/src/cJSON.c:2977-3100 | nor does one of disjoint trees |
| `JsonCompareTree.CompareArrays` | Util/src/cJSON.c:3035-3057 | the loop over two arrays is true exactly for equal lengths and pairwise equal elements, wherever no item meets itself |
| `JsonCompareTree.CompareObjects` | Util/src/cJSON.c:3059-3095 | both loops over two objects, likewise |
| `JsonCompareTree.CompareMembers` | Util/src/cJSON.c:3063-3076 | one loop is true exactly when every member has a counterpart that compares equal, likewise |
| `JsonCompareTree.ImageValue` | Util/src/cJSON.c:2977-3100 | the contents used in these contracts have the value of the tree |
| `JsonCompareTree.CopyComparesEqual` | Util/src/cJSON.c:2697-2778 | a deep copy compares equal to its original exactly when members with one key agree; always when no key repeats |
| `JsonCompare.PlainNumbersAreExact` | Util/src/cJSON.c:538-542 | for integers below 10^15 the tolerant comparison is equality |
| `JsonCompare.CloseMeans` | Util/src/cJSON.c:538-542 | for any two numbers: equal to the comparison exactly when both are zero or have one sign and the smaller is at least 1 - 2^-52 times the larger in magnitude |
| `JsonCompare.CloseScales` | Util/src/cJSON.c:538-542 | the answer depends only on the ratio of the two |
| `JsonCompare.LookupDenotes` | Util/src/cJSON.c:1876-1906 | the lookup finds what the map has for the key |
| `JsonCompare.FoundIsInto` | Util/src/cJSON.c:3063-3076 | one loop over an object succeeds exactly when every member is in the map of the other object |
| `JsonCompare.CompareMeaning` | Util/src/cJSON.c:2977-3100 | for trees with integers below 10^15: true exactly when members with one key agree in each tree and both denote the same value, with objects as maps from keys up to the case rule |
| `JsonCompare.CompareIsPartialEquivalence` | Util/src/cJSON.c:2977-3100 | symmetric and transitive; reflexive exactly on trees whose repeated keys agree, in particular without repeated keys |
| `JsonCompare.DistinctIsCoherent` | Util/src/cJSON.c:3059-3095 | trees without repeated keys under the case rule meet that condition |
| `JsonCompare.MemberOrderIsIrrelevant` | Util/src/cJSON.c:3059-3095 | objects with the same members in any order compare equal exactly under that condition |
| `JsonCompare.RepeatedKeyBreaksReflexivity` | Util/src/cJSON.c:3063-3076 | an object that repeats a key with two values does not equal its copy |
| `Md5.State.constructor` | websocket/websocketpp/common/md5.hpp:349-355 | the state of an empty message |
| `Md5.State.Append` | websocket/websocketpp/common/md5.hpp:357-391 | after any run of appends the registers are the fold of the compression over the full blocks of all the bytes, the buffer holds the rest, and the two counters hold 8 times the length modulo 2^64 |
| `Md5.State.AppendBytes` | websocket/websocketpp/common/md5.hpp:363-390 | the block under way is filled first, then whole blocks are taken |
| `Md5.State.FillBlock` | websocket/websocketpp/common/md5.hpp:372-382 | what is copied behind the kept bytes fills the block, and digesting goes on from there, or everything is kept |
| `Md5.State.AppendBlocks` | websocket/websocketpp/common/md5.hpp:384-390 | full blocks are taken from the data directly and the rest is kept |
| `Md5.State.CountBytes` | websocket/websocketpp/common/md5.hpp:366-370 | two words and a carry add up to the whole count |
| `Md5.State.Finish` | websocket/websocketpp/common/md5.hpp:393-412 | the digest is that of one pass over the padded message of sections 3.1 and 3.2 of RFC 1321 |
| `Md5.State.LengthBytes` | websocket/websocketpp/common/md5.hpp:403-405 | the eight bytes of the counter, low byte first |
| `Md5.Md5HashString` | websocket/websocketpp/common/md5.hpp:415-429 | the digest of a whole string |
| `Md5.Padded` | websocket/websocketpp/common/md5.hpp:406-409 | the padded message is a whole number of blocks |
| `Md5.PaddingIsShortest` | websocket/websocketpp/common/md5.hpp:406-407 | no shorter padding would do |
| `Md5.InitialBytes` | websocket/websocketpp/common/md5.hpp:349-355 | the registers start with the bytes of section 3.3 of RFC 1321 |
| `Md5.PaddingFromCount` | websocket/websocketpp/common/md5.hpp:406-407 | the padding length computed from the low counter word is that of the message |
| `Md5.DigestedFull` | websocket/websocketpp/common/md5.hpp:372-390 | digesting can go on from the registers and the leftover |
| `Md5.PaddedIsInjective` | websocket/websocketpp/common/md5.hpp:393-412 | different messages shorter than 2^61 bytes are padded differently |
| `Md5.OffsetIsLeftover` | websocket/websocketpp/common/md5.hpp:360-360 | the buffer position in the counter is the length of the leftover |
| `Md5.PiecesFeedTheWhole` | websocket/websocketpp/common/md5.hpp:357-391 | cutting a message into any run of appends leaves registers, buffered bytes and counter that are a function of the whole message |
| `Md5.Carry` | websocket/websocketpp/common/md5.hpp:366-370 | adding word by word with the carry test is adding modulo 2^64 |
| `LogRing.Ring.constructor` | Util/src/Utl_Log.cpp:610-616 | an empty ring |
| `LogRing.Ring.Write` | Util/src/Utl_Log.cpp:291-317 | the line joins the run; it joins the history unless it is larger than the region, and the ring holds the last bytes of the history in order |
| `LogRing.Ring.AcceptLine` | Util/src/Utl_Log.cpp:293-316 | header fields and contents after a line that is not too long |
| `LogRing.Ring.WriteHere` | Util/src/Utl_Log.cpp:299-305 | a line that fits before the end |
| `LogRing.Ring.WriteAround` | Util/src/Utl_Log.cpp:306-316 | a line that wraps to the beginning |
| `LogRing.Ring.Flush` | Util/src/Utl_Log.cpp:567-617 | for any run of lines since the last flush, emits exactly the last min(total, region) bytes of those accepted, in order, in at most two rounds none of which is empty, and resets the ring; a drop is reported exactly when there was one |
| `LogRing.Ring.Emit` | Util/src/Utl_Log.cpp:581-609 | the flush loop |
| `LogRing.Ring.EmitRound` | Util/src/Utl_Log.cpp:583-608 | one round, up to the end of the memory or from its start when already there |
| `LogRing.WriteInside` | Util/src/Utl_Log.cpp:299-305 | copying inside the ring appends to the bytes held and drops the oldest |
| `LogRing.WriteAcrossTheEnd` | Util/src/Utl_Log.cpp:306-316 | the two copies of a wrapping line do the same |
| `LogRing.PendingAll` | Util/src/Utl_Log.cpp:569-579 | what a flush starts with is everything held |
| `LogRing.LastAppend` | Util/src/Utl_Log.cpp:291-317 | the last bytes of a longer history depend only on the last bytes before |
| `LogRing.KeptIsLast` | Util/src/Utl_Log.cpp:291-317 | dropping the oldest bytes line by line keeps exactly the last bytes of all the lines accepted, which is what a flush emits |
| `LogRing.DroppedFigure` | Util/src/Utl_Log.cpp:574-576 | the reported number of dropped bytes is exact as long as, and only as long as, it fits a 32-bit int |
| `FrameMask.ByteMask` | websocket/websocketpp/frame.hpp:644-655 | byte masking, in place or not, of section 5.3 of RFC 6455 |
| `FrameMask.WordMaskExact` | websocket/websocketpp/frame.hpp:702-717 | word masking equals byte masking of the whole buffer; bytes behind it are untouched |
| `FrameMask.WordMaskCirc` | websocket/websocketpp/frame.hpp:768-789 | masking a chunk with the prepared key equals byte masking at the offset of the chunk, and the returned key is prepared for the next chunk |
| `FrameMask.ByteMaskCirc` | websocket/websocketpp/frame.hpp:830-841 | the same byte by byte |
| `FrameMask.MaskWord` | websocket/websocketpp/frame.hpp:710-712 | loading, masking and storing one word masks its eight bytes, on machines of either byte order |
| `FrameMask.PrepareMaskingKey` | websocket/websocketpp/frame.hpp:595-604 | the word holds the four octets twice |
| `FrameMask.CircshiftAt` | websocket/websocketpp/frame.hpp:612-623 | on either byte order the shift rotates the bytes in memory |
| `FrameMask.ShiftMovesOffset` | websocket/websocketpp/frame.hpp:781-788 | shifting by the rest of the length prepares the key for where the chunk ended |
| `FrameMask.LowKeyBytes` | websocket/websocketpp/frame.hpp:833-834 | cutting the prepared key to 32 bits keeps the right octets on either byte order |
| `FrameMask.ChunksMaskTheWhole` | websocket/websocketpp/frame.hpp:768-789 | masking pieces each at the offset where it stands masks the whole |
| `FrameMask.FramePayload.ProcessPayloadBytes` | websocket/websocketpp/processors/hybi13.hpp:799-823 | a piece is unmasked in place with the key the last piece left, by either routine: the payload so far is byte masking of everything received |
| `FrameMask.MaskInTurn` | websocket/websocketpp/processors/hybi13.hpp:799-823 | the returned key threaded through any run of pieces, by either routine on each, gives byte masking of the whole payload |
| `FrameMask.MaskRest` | websocket/websocketpp/frame.hpp:781-786 | the partial word at the end of a chunk |
| `FrameMask.MaskTwice` | websocket/websocketpp/frame.hpp:644-655 | masking twice restores the payload |
| `MachineWord.XorAt` | websocket/websocketpp/frame.hpp:710-712 | exclusive or of words works byte by byte in memory |
| `MachineWord.Loaded` | websocket/websocketpp/frame.hpp:707-711 | a loaded word has the bytes of memory at their addresses |
| `MachineWord.ShiftedRight` | websocket/websocketpp/frame.hpp:616-622 | a right shift by whole bytes moves the bytes and clears the rest |
| `MachineWord.ShiftedLeft` | websocket/websocketpp/frame.hpp:616-622 | a left shift by whole bytes moves the bytes and clears the rest |
| `FrameHeader.Htonll` | websocket/websocketpp/common/network.hpp:66-85 | swapping bytes in place puts the word in network order on either machine |
| `FrameHeader.NetworkOrderInMemory` | websocket/websocketpp/common/network.hpp:66-85 | the converted word reads most significant byte first in memory |
| `FrameHeader.NetworkOrderTwice` | websocket/websocketpp/common/network.hpp:98-100 | converting back gives the word |
| `FrameHeader.BasicHeader.constructor` | websocket/websocketpp/frame.hpp:194-228 | the first two octets of section 5.2 of RFC 6455 |
| `FrameHeader.BasicHeader.SetFin` | websocket/websocketpp/frame.hpp:330-332 | sets the one bit and no other |
| `FrameHeader.BasicHeader.SetRsv1` | websocket/websocketpp/frame.hpp:348-350 | sets the one bit and no other |
| `FrameHeader.BasicHeader.SetMasked` | websocket/websocketpp/frame.hpp:411-413 | sets the mask bit and keeps the length code |
| `FrameHeader.ExtendedHeader.constructor` | websocket/websocketpp/frame.hpp:240-274 | the extended header starts with the long length in network order and the key |
| `FrameHeader.PrepareHeader` | websocket/websocketpp/frame.hpp:489-502 | the octets of both parts, as long as the header length says, at most 14 |
| `FrameHeader.EncodeHeader` | websocket/websocketpp/processors/hybi13.hpp:670-679 | the encoded header is the layout of section 5.2, and size and key are read back from it whatever bytes follow |
| `FrameHeader.HeaderLen` | websocket/websocketpp/frame.hpp:445-458 | between 2 and 14 |
| `FrameHeader.FirstOctetRecovers` | websocket/websocketpp/frame.hpp:321-395 | flags and opcode are read back from the first octet |
| `FrameHeader.SecondOctetRecovers` | websocket/websocketpp/frame.hpp:402-477 | mask bit, length code and key offset are read back from the second octet |
| `FrameHeader.HeaderRecovers` | websocket/websocketpp/frame.hpp:516-585 | for every size and key, the getters give size, key and header length from any extended header that starts with the encoded bytes |
| `FrameHeader.ShortestForm` | websocket/websocketpp/frame.hpp:216-224 | the three header lengths belong exactly to sizes up to 125, up to 65535 and beyond |
| `FrameHeader.NoShorterHeader` | websocket/websocketpp/frame.hpp:216-224 | no header from which the getters read the same size and mask bit is shorter |
| `FrameHeader.FirstOctetLayout` | websocket/websocketpp/frame.hpp:194-214 | each flag has its own bit in the order of section 5.2 of RFC 6455, and the opcode the four lowest |
| `FrameHeader.SecondOctetLayout` | websocket/websocketpp/frame.hpp:210-228 | the highest bit is the mask bit, and the other seven hold a size up to 125, or 126 or 127 |
| `FrameHeader.LengthLayout` | websocket/websocketpp/frame.hpp:260-273 | a long length is two or eight bytes, the size in network order |
| `RecursiveMutex.StepInv` | Util/src/Utl_mutex.cpp:45-311 | every single read or write of a shared field by any thread keeps the invariant that ties owner, lockTid and lockCount to the position of every thread |
| `RecursiveMutex.StepKeepsOwn` | Util/src/Utl_mutex.cpp:45-311 | for the thread that steps |
| `RecursiveMutex.StepKeepsOther` | Util/src/Utl_mutex.cpp:45-311 | for every other thread |
| `RecursiveMutex.MutexIsCorrect` | Util/src/Utl_mutex.cpp:45-311 | in every interleaving: at most one thread is inside; between calls LockedSelf is true exactly for the thread with an unreleased lock, and lockCount is its nesting depth |
| `RecursiveMutex.FreeWhenUnheld` | Util/src/Utl_mutex.cpp:71-95 | when no call is under way and no thread holds the mutex, both fields and the underlying lock are as at first |
| `RecursiveMutex.NoSelfDeadlock` | Util/src/Utl_mutex.cpp:55-58 | a thread never waits for the underlying lock while it owns it |
| `RecursiveMutex.Progress` | Util/src/Utl_mutex.cpp:45-311 | in every reachable state a thread that cannot go on waits for a lock of another thread, which either is outside any call and holds the mutex or can go on |
| `RecursiveMutex.CallsEnd` | Util/src/Utl_mutex.cpp:45-311 | every step of a thread brings its call nearer to its end, and no step of another thread sets it back |
| `RecursiveMutex.UnlockPermission` | Util/src/Utl_mutex.cpp:81-82 | an unlock is refused exactly when the thread holds nothing |
| `RecursiveMutex.CallReturns` | Util/src/Utl_mutex.cpp:45-311 | for every call in every reachable state, whatever other threads do before it returns: Lock returns Ok with the depth one more, or Failed with the depth unchanged exactly when the system call failed; Unlock returns Ok with the depth one less exactly when the thread held the mutex, else NotPermitted; TimedWait keeps the depth and returns Failed exactly when the system call failed |
| `RecursiveMutex.RestOfCall` | Util/src/Utl_mutex.cpp:45-311 | the same from the middle of a call |
| `RecursiveMutex.WaitingWithoutTheMutex` | Util/src/Utl_mutex.cpp:270-273 | so in every reachable state a wait by a thread that does not hold the mutex is stopped by nothing and takes LockedSelf from an idle thread that does |
| `RecursiveMutex.WhoMayWait` | Util/src/Utl_mutex.cpp:252-311 | in every reachable state and for every thread outside a call: the mutex stays correct after its wait, whatever follows, if and only if LockedSelf is true to it; after its own eight steps LockedSelf agrees with its depth exactly then |
| `RecursiveMutex.SafeExactlyIfHoldersWait` | Util/src/Utl_mutex.cpp:252-311 | from any state that meets the invariant, over every run in which any thread may wait: correct in all futures at every point exactly when only holders wait |
| `RecursiveMutex.SafeFromTheStart` | Util/src/Utl_mutex.cpp:252-311 | the same for every run from the initial state |
| `Utf8Validator.TableClass` | websocket/websocketpp/utf8_validator.hpp:45-54 | the byte part of the table is the classes by range |
| `Utf8Validator.TableNext` | websocket/websocketpp/utf8_validator.hpp:55-59 | the transition part of the table is the rows of section 4 of RFC 3629 |
| `Utf8Validator.RunSplit` | websocket/websocketpp/utf8_validator.hpp:105-118 | feeding a string in pieces gives the same state |
| `Utf8Validator.RejectIsPermanent` | websocket/websocketpp/utf8_validator.hpp:69-78 | no byte leads out of reject |
| `Utf8Validator.CharAccepted` | websocket/websocketpp/utf8_validator.hpp:69-78 | a well-formed sequence leads from accept to accept, and the code point is the one it encodes |
| `Utf8Validator.AcceptedStartsWithChar` | websocket/websocketpp/utf8_validator.hpp:69-78 | whatever is accepted starts with a well-formed sequence |
| `Utf8Validator.AcceptsExactlyUtf8` | websocket/websocketpp/utf8_validator.hpp:143-149 | accepted exactly when the string is a concatenation of well-formed sequences of section 4 of RFC 3629 |
| `Utf8Validator.CodepointAtAccept` | websocket/websocketpp/utf8_validator.hpp:69-78 | at every accept state the code point is that of the last sequence |
| `Utf8Validator.JsonEscapeIsUtf8` | Util/src/cJSON.c:648-766 | what the JSON parser writes for an escaped character is a well-formed sequence |
| `Utf8Validator.EncodedIsWellFormed` | Util/src/cJSON.c:711-760 | the bytes the JSON parser encodes a code point as are a well-formed sequence |
| `Utf8Validator.WellFormedMeans` | websocket/websocketpp/utf8_validator.hpp:49-77 | a sequence is well-formed exactly when it encodes a code point below 0x110000 that is no surrogate |
| `Utf8Validator.Validator.DecodeByte` | websocket/websocketpp/utf8_validator.hpp:69-78 | one step by table lookup is the step of the machine |
| `Utf8Validator.Validator.Consume` | websocket/websocketpp/utf8_validator.hpp:91-96 | false exactly at a rejection |
| `Utf8Validator.Validator.Decode` | websocket/websocketpp/utf8_validator.hpp:105-118 | state and verdict of a run over the whole piece, although it stops at the first error |
| `Utf8Validator.Validator.Reset` | websocket/websocketpp/utf8_validator.hpp:129-132 | back to the start |
| `Utf8Validator.Validate` | websocket/websocketpp/utf8_validator.hpp:143-149 | true exactly for well-formed strings |
| `ConnectionStates.Connection.DoToggle` | MainSrc/ConcreteStates.cpp:12-318 | every toggle of every state, with the fall-through and the reason resets |
| `ConnectionStates.Connection.OnOpen` | MainSrc/WebSocketClient.cpp:156-172 | the event joins the history of the object, whose fields are those of the machine after the whole run |
| `ConnectionStates.Connection.OnFail` | MainSrc/WebSocketClient.cpp:174-197 | likewise |
| `ConnectionStates.Connection.OnErrorMessage` | MainSrc/WebSocketClient.cpp:217-225 | likewise, for any code |
| `ConnectionStates.Connection.OnAgentOffline` | MainSrc/WebSocketClient.cpp:277-306 | likewise, with the last state recorded afterwards |
| `ConnectionStates.Connection.OnAgentOnline` | MainSrc/WebSocketClient.cpp:307-317 | likewise; from ServerOffline the object is in WebsocketConnected afterwards |
| `ConnectionStates.Connection.OnClose` | MainSrc/WebSocketClient.cpp:328-352 | likewise |
| `ConnectionStates.Connection.NotifyUpdateRound` | MainSrc/WebSocketClient.cpp:391-421 | likewise, for one round of the update thread |
| `ConnectionStates.Connection.SendNotifyPluginUpdate` | MainSrc/WebSocketClient.cpp:458-487 | toggles exactly in the two states that may send |
| `ConnectionStates.Connection.ConnectWebsocket` | MainSrc/plugin_main.cpp:120-124 | likewise: whatever state is current is given the reason and toggled |
| `ConnectionStates.Connection.WhereItCanBe` | MainSrc/ConcreteStates.cpp:12-318 | at any time, three states have not been reached, and ServerOffline knows where it came from |
| `ConnectionStates.Connection.ConnectionBroken` | MainSrc/plugin_main.cpp:186-193 | likewise, for the reconnect branch |
| `ConnectionStates.RunInv` | MainSrc/ConcreteStates.cpp:12-318 | every event keeps the invariant on the sticky reasons and the recorded last state |
| `ConnectionStates.NeverReached` | MainSrc/ConcreteStates.cpp:12-318 | over every run AgentDisabled, ResendPlugin and Exit are never reached, and ServerOffline has a recorded last state |
| `ConnectionStates.OnlineAgain` | MainSrc/ConcreteStates.cpp:307-318 | after every run, the agent coming back leads from ServerOffline to WebsocketConnected |
| `ConnectionStates.EntersRegistered` | MainSrc/ConcreteStates.cpp:116-131 | exactly which steps enter PluginRegistered: only from WebsocketConnected, by a reconnect, or by an update over an open connection without a stuck reason |
| `ConnectionStates.ToggleLeads` | MainSrc/ConcreteStates.cpp:12-318 | in any state and with any reason: exactly which of them a toggle leads from into each of the states for an offline or disabled agent, device or websocket |
| `ConnectionStates.ToggleLeadsOnline` | MainSrc/ConcreteStates.cpp:12-318 | the same for the other three states |
| `ConnectionStates.ToggleResets` | MainSrc/ConcreteStates.cpp:12-318 | exactly which reasons a toggle resets |
| `ConnectionStates.DiagramHolds` | MainSrc/ConcreteStates.cpp:12-318 | after every run, every step leads where the state diagram says, and changes flag, reason and last state as it says |
| `ConnectionStates.EntersAndLeaves` | MainSrc/ConcreteStates.cpp:152-200 | exactly which steps enter and leave DeviceOffline and WebsocketDisconnected after any run |
| `ConnectionStates.DeviceComesBack` | MainSrc/WebSocketClient.cpp:408-414 | a device that goes offline while registered is registered again after two update rounds exactly when no reason is stuck |
| `ConnectionStates.OfflineGetsStuck` | MainSrc/WebSocketClient.cpp:294-305 | going offline in WebsocketConnected leaves the reason behind |
| `ConnectionStates.StuckStep` | MainSrc/ConcreteStates.cpp:116-131 | exactly one step ends the stuck state, a reconnect while in WebsocketConnected, which registers at once |
| `ConnectionStates.OfflineSticks` | MainSrc/ConcreteStates.cpp:116-131 | from then on, over every run, the plugin gets registered exactly when the main loop reconnects while in WebsocketConnected; a reconnect in any other state leaves it stuck |
| `ConnectionStates.RegistersAgain` | MainSrc/WebSocketClient.cpp:282-293 | going offline when registered, coming back and updating registers again exactly when no reason is stuck |
| `ConnectionStates.StepKeepsOpen` | MainSrc/WebSocketClient.cpp:174-197 | of all steps in reachable states, exactly two leave the plugin registered over a closed websocket: a reconnect while connected or registered, and a failed connection while registered |
| `ConnectionStates.RegisteredMeansConnected` | MainSrc/plugin_main.cpp:120-124 | over every run, registered means connected throughout exactly when no step of the run is one of those |
| `ConnectionStates.RegisteredMeansConnectedFromStart` | MainSrc/plugin_main.cpp:120-124 | in particular for every run of the program |
| `ConnectionStates.RegisteredWithoutConnection` | MainSrc/plugin_main.cpp:120-124 | both causes occur: two runs that end registered with the websocket closed |
| `Uri.PortRoundTrip` | websocket/websocketpp/uri.hpp:321-342 | the decimal form of a number below 2^32 is that port when it is in 1 to 65535, and an error otherwise |
| `Uri.PortIgnoresTail` | websocket/websocketpp/uri.hpp:330-330 | what follows the digits of a port is ignored |
| `Uri.SchemeRead` | websocket/websocketpp/uri.hpp:60-77 | the scheme of a printed URI is recognised, none of the others |
| `Uri.TailRead` | websocket/websocketpp/uri.hpp:139-167 | port and resource of a printed URI are read back |
| `Uri.RoundTrip` | websocket/websocketpp/uri.hpp:274-285 | for a supported scheme, a port in range and a resource that starts with a slash: parsing the print gives the value back exactly when the host has no colon or slash and does not start with a bracket |
| `Uri.ParsesExactly` | websocket/websocketpp/uri.hpp:51-168 | which strings parse and to what: exactly one of the four schemes, a host in brackets or a plain one, and maybe a port in range and a path, not all empty |
| `Uri.DefaultPorts` | websocket/websocketpp/uri.hpp:60-77 | a host alone behind each scheme: port 443 and secure behind wss and https, port 80 behind ws and http |
| `Uri.AtoiReads` | websocket/websocketpp/uri.hpp:330-330 | the number read for a port: spaces, a sign and decimal digits, whatever follows |
| `Uri.Uri.constructor` | websocket/websocketpp/uri.hpp:51-168 | valid with the specified value exactly when the string parses |
| `Uri.Uri.ReadBracketed` | websocket/websocketpp/uri.hpp:84-119 | an IPv6 literal up to its bracket, and what may follow |
| `Uri.Uri.ReadHost` | websocket/websocketpp/uri.hpp:120-137 | a host up to a colon, a slash or the end |
| `Uri.Uri.ReadPort` | websocket/websocketpp/uri.hpp:139-154 | a port up to a slash or the end |
| `Uri.Uri.ReadRest` | websocket/websocketpp/uri.hpp:156-167 | the verdict, the port and the resource |
| `Base64.Base64Encode` | websocket/websocketpp/base64/base64.hpp:66-112 | the loops over the small arrays write the digits of each 24-bit group and the padding of section 4 of RFC 4648 |
| `Base64.Base64Decode` | websocket/websocketpp/base64/base64.hpp:131-174 | the loops decode the leading characters of the alphabet, up to a partial group |
| `Base64.EncodedDigit` | websocket/websocketpp/base64/base64.hpp:66-112 | every character of an encoding stands for its digit of the 24-bit group it belongs to, filled up with zero bits, or is padding |
| `Base64.DecodedByte` | websocket/websocketpp/base64/base64.hpp:131-174 | for any input: every decoded byte is the eight bits at its place in the string of six bits for each leading character of the alphabet, and a shorter rest is dropped |
| `Base64.AlphabetIsTable` | websocket/websocketpp/base64/base64.hpp:43-46 | the alphabet is that of Table 1 of RFC 4648 |
| `Base64.Position` | websocket/websocketpp/base64/base64.hpp:142-144 | the place in the alphabet is inverse to the alphabet, 255 for any other character |
| `Base64.DigitsByBytes` | websocket/websocketpp/base64/base64.hpp:95-100 | the masks and shifts of the encoder give the digits of the group |
| `Base64.SomeDigits` | websocket/websocketpp/base64/base64.hpp:161-170 | the masks and shifts of the decoder give the bytes of the group; stand-ins for missing characters do not reach the bytes kept |
| `Base64.PaddingPlace` | websocket/websocketpp/base64/base64.hpp:102-108 | padding stands exactly at the end, as many characters as the last group lacks |
| `Base64.RoundTrip` | websocket/websocketpp/base64/base64.hpp:131-174 | decoding an encoding gives the bytes back, for every byte string |

## Left out

- Numbers are exact reals: rounding of `double`, negative zero, infinities and the overflow of huge exponents are not modelled, and printing covers whole numbers below 10^15 in magnitude only.
- Allocation failure, custom hooks, the locale's decimal point, and `cJSON_Delete`: memory is never released in the model.
- Raw and invalid items in trees, reference and constant-string flags.
- `cJSON_ParseWithLength` on buffers without a terminator; with a terminator the branches of the array and object loops that meet the end of the buffer cannot be taken and are not in the model.
- Strings of items are the bytes before their terminator, so sharing of string memory between items is not modelled.
- Bit operations on bytes in cJSON, MD5, base64 and the UTF-8 decoder are written as the arithmetic they amount to; frame masking uses bit vectors.
- Float, double and string variants of array creation, and the object forms of the list edits, which wrap the modelled ones.
- JsonReader.ParseNumber: reads exact decimals where `strtod` rounds to a double.
- JsonPrinter.PrintNumber: takes whole numbers below 10^15 only, the ones `%1.15g` prints as plain digits.
- JsonCompareTree.Compare: for trees that share items through references only one direction is stated, because a shared item equals itself whatever it contains.
- JsonCompareTree.CompareArrays: the same.
- JsonCompareTree.CompareObjects: the same.
- JsonCompareTree.CompareMembers: the same.
- Md5.State.Append: takes objects of at most 2^63-1 bytes, so the sum of offset and length does not wrap.
- The MD5 round function and the hexadecimal form of a digest.
- The log's formatting, file rotation and invalid file handles, the magic bytes and the mutex around the ring; signed overflow of the log size is taken to wrap.
- Machine words of four bytes in frame masking, the setters of the second and third reserved bits, and validation of incoming headers.
- Overflow of the lock count, initialisation and destruction, NULL arguments, and which waiter a signal wakes: a waiting thread may wake at any time.
- Weak memory orders: single reads and writes of shared fields are atomic and in order.
- What the handlers send, parse and sleep; a handler is one atomic step of the connection state machine.
- Uri.PortFromString: numbers outside the range of `int`, which `atoi` leaves undefined, are reduced modulo 2^32.
- The other URI constructors and queries, which copy fields.
- Sockets, TLS, HTTP parsing, plugin message building and shell scripts.
