# A verified model of the refuge server's JSON engine and client tables

The server exchanges every message as JSON through the bundled cJSON library. This project
models that library (parser, printer, tree operations, comparison, minifier) and the two
stateful cores of the application around it (the supply counters, and the select loop with
its bounded client tables), and proves what they are for.

How it is laid out:

- **Texts.** `CText`, `Bits`, `Utf`, `StringLiteral`, `Numbers`, `JsonValue` hold the value domain
  and the codecs; `EscapeTables` and `NumberLaws` say what these mean by tables and place values.
  A C string is a sequence of bytes without NUL; it need not be valid UTF-8.
- **Language.** `Grammar` has concrete syntax trees: `Accepted` is the language of the parser,
  `Rfc` that of RFC 8259 (with every byte up to 32 as whitespace), `StrictTree` what separates
  the two, `Meaning` the value the parser stores and `RfcValue` the value RFC 8259 gives the text.
  `ParserSpec` is recursive descent as functions on the text; `ParserTheorems` and `Document`
  prove it sound, complete and exact for these languages. `FormatScan` judges printed bytes by
  scanners that know nothing of the printer.
- **Heap.** `Nodes` has cJSON nodes with `next`, `prev`, `child`, an allocator that may fail at
  any time and records which blocks are live, and the invariant `Wired`: siblings are linked
  both ways, the last `next` is NULL, and `child->prev` is the last child. A ghost `Shape` is
  the skeleton of a tree, `ValueOf` the value it denotes, `Blocks` the memory it owns.
- **Engine.** `Parser`, `Printer`, `Lists`, `Copies`, `Comparison` and `MinifyInPlace` are the
  C routines as imperative code over that heap, proved against the specifications above,
  `Rendering`, `MinifySpec` and `CompareSpec`. `MinifyAny` extends the minifier's theorem to any
  JSON text with comments; `RoundTrips` runs the routines one after the other.
- **Application.** `Supplies`, `ClientTables` and `ServerLoop`.

A finite double is a real. How `strtod` rounds is an arbitrary function that leaves the ints
alone, and which numerals `%1.15g` and `%1.17g` write is arbitrary within the shape of `%g` for
15 and 17 digits. `CJSON_NESTING_LIMIT` is an arbitrary positive constant. Allocation failure,
what `select` and `accept` report, and which clients still answer are nondeterministic or
inputs.

What the proofs bring to light about the code:

- The parser takes more than RFC 8259: a `\u` escape with a bad digit, which it reads as
  `\u0000`, raw control bytes in a string (`Document.LaxStrings`), and numerals like `007`, `1.`
  and `-.5` (`Document.LaxNumerals`). An accepted text is RFC 8259 if and only if its strings have
  neither and its numerals are those of section 6 (`Grammar.AcceptedIsRfcExactly`,
  `Document.AcceptsRfcExactly`).
- Legal numerals of more than 63 bytes are cut by the 64-byte copy in `parse_number`
  (`Document.OverlongNumeralIsCut`); `Document.RfcParsedExactly` has the exact condition.
- The legal escape `\u0000` cuts the string or key it stands in (`Document.NulEscapeCutsString`);
  an RFC 8259 text yields the value it means exactly without such an escape. The size estimate
  of the first pass covers the second for every input.
- Without the whole-text mode `12-3` is read as 12 (`Document.NumeralEndsEarly`);
  `Document.PrefixExactly` has the exact language.
- `cJSON_Minify` takes an escaped backslash in front of a closing quote for an escaped quote.
  On a formatted print it agrees with the unformatted one exactly for `MinifySpec.Minifiable`
  trees; on any text with comments, the blanks of RFC 8259 and no such backslash it keeps the value
  (`MinifyAny.MinifyKeepsValue`).
- `add_item_to_array` does not reset `next` in the non-empty case: the list stays well-formed
  if and only if the new item had no successor or the list was empty. `Copies.AddItemOfOther`
  goes wrong that way on every child but the last of another array.
- A tree of ints compares equal to its own copy if and only if members of one key agree in
  value (`CompareSpec.SameAsCopy`).
- The for loop of the server turns to a reported client if and only if its descriptor is above
  the TCP listener's (`ServerLoop.HandledExactly`); `ServerLoop.LowDescriptorStays` is a legal
  run with a lost client that is not dropped.
- A connection that found the table full stays outside until it is dropped, room or not
  (`ServerLoop.SixthStaysOutside` is a run with such a connection and a free place), and a
  message the Unix socket or the fifo delivers reaches every open connection if and only if
  there is no such connection at that point of the for loop.
- `add_udp_client` compares the bytes an IPv4 address would occupy, which in an IPv6 address are
  the flow information. Two hosts can be taken for one (`ClientTables.HostsAreConfused`);
  `ClientTables.TableByEndpointExactly` says when the table is the one endpoints would give.

## Model

| member | source | states |
|---|---|---|
| Utf.CombineUndoesSplit | lib/cJSON/src/cJSON.c:711-712 | The code point computed from a surrogate pair is the one RFC 2781 section 2.2 splits into that pair. |
| Utf.CombineInBits | lib/cJSON/src/cJSON.c:711-712 | The masks, the shift and the `or` on the two halves compute that code point. |
| Utf.ContinuationInBits | lib/cJSON/src/cJSON.c:753-758 | For every word, setting bit 7 and masking with 0xBF leaves 0x80 plus the last six bits. |
| Utf.LeadInBits | lib/cJSON/src/cJSON.c:759-763 | What is left of a code point has no bit in common with the mark of the first byte, so their union is their sum. |
| Utf.Utf8IsUniqueShortestForm | lib/cJSON/src/cJSON.c:720-769 | The bytes written for a scalar value are its only encoding in the sense of RFC 3629 section 3: a standard decoder reads it back and no other sequence means it. |
| StringLiteral.CloseAtFindsBody | lib/cJSON/src/cJSON.c:791-813 | The first pass stops at the quote that closes a well-escaped body, whatever follows. |
| StringLiteral.EscapesStep | lib/cJSON/src/cJSON.c:791-813 | Moving the start of the first pass by one byte changes its escape count by 0 or 1. |
| StringLiteral.UnitFits | lib/cJSON/src/cJSON.c:657-775 | One `\u` literal, malformed or not, never writes more than it takes from the estimate. |
| StringLiteral.DecodedFits | lib/cJSON/src/cJSON.c:791-882 | The size estimated by the first pass covers every byte of the second, terminator included, for every input. |
| StringLiteral.DecodeUndoesEscape | lib/cJSON/src/cJSON.c:907-1026 | Decoding an escaped string gives the string back. |
| StringLiteral.EscapeTextIsClosed | lib/cJSON/src/cJSON.c:907-1026 | An escaped string has no bare quote and no dangling backslash. |
| StringLiteral.LegalStringsDecode | lib/cJSON/src/cJSON.c:824-879 | Every string of RFC 8259 section 7, surrogates only in pairs, is accepted and decodes to the bytes it stands for. |
| StringLiteral.UnpairedIsRefused | lib/cJSON/src/cJSON.c:676-708 | Half a surrogate pair anywhere in a string makes the parser refuse it. |
| EscapeTables.Hex4Exactly | lib/cJSON/src/cJSON.c:620-653 | Four characters, each looked up in one of the tables `0123456789ABCDEF` and `0123456789abcdef`, have the value they spell, and only then. |
| EscapeTables.NoHexIsZero | lib/cJSON/src/cJSON.c:643-646 | Four characters that spell nothing have the value 0. |
| EscapeTables.EscapeDecodes | lib/cJSON/src/cJSON.c:657-775 | For every scalar value, its `\u` text in digits of either case, one unit or the pair of RFC 2781, decodes in front of anything to bytes that a UTF-8 decoder reads as that value. |
| EscapeTables.HalfEscapeIsRefused | lib/cJSON/src/cJSON.c:676-708 | Half a pair so spelled, behind any legal prefix and without its other half, makes the parser refuse the string. |
| EscapeTables.LetterDecodes | lib/cJSON/src/cJSON.c:840-864 | The eight letters decode to the codes 22, 5C, 2F, 08, 0C, 0A, 0D and 09. |
| EscapeTables.OtherLettersAreRefused | lib/cJSON/src/cJSON.c:875-876 | Any other letter but `u` makes the parser refuse the string. |
| EscapeTables.LetterIsEscaped | lib/cJSON/src/cJSON.c:990-1014 | A character that has a letter and is not the slash is printed as backslash and letter. |
| EscapeTables.ControlIsEscaped | lib/cJSON/src/cJSON.c:1014-1018 | Any other character below 32 is printed as `\u00` and two lower-case digits. |
| EscapeTables.OthersAreThemselves | lib/cJSON/src/cJSON.c:982-986 | All others are printed as themselves. |
| StringLiteral.NulIsEscaped | lib/cJSON/src/cJSON.c:716-726 | The bytes of a legal string hold a NUL if and only if `\u0000` is written in it. |
| Numbers.StrtodReadsNumeral | lib/cJSON/src/cJSON.c:353-379 | Reading the text of a numeral yields that numeral, completely. |
| Numbers.StrtodIsLongest | lib/cJSON/src/cJSON.c:353-379 | Where any numeral begins the text, a number is read, and none that begins there is longer. |
| Numbers.StrtodExactly | lib/cJSON/src/cJSON.c:353-379 | What is read is a certain numeral if and only if that is the longest one beginning the text. |
| Numbers.IntNumeralValue | lib/cJSON/src/cJSON.c:570-573 | The decimal text of an integer, read as a numeral, has that integer as its value. |
| NumberLaws.NumeralValueExactly | lib/cJSON/src/cJSON.c:353-379 | The value of a numeral is its digits, summed by place, times or over a power of ten: the exponent less the digits behind the point. |
| NumberLaws.DigitsValueExactly | lib/cJSON/src/cJSON.c:353-379 | Digits written from the table `0123456789` have the sum of their place values. |
| NumberLaws.SaturateExactly | lib/cJSON/src/cJSON.c:362-373 | `valueint` is the number truncated towards zero, and the nearest end of the range outside that of an int. |
| NumberLaws.PrintedReadsBack | lib/cJSON/src/cJSON.c:570-590 | What is printed reads back within the tolerance whenever seventeen digits do, with at most fifteen when those do. |
| Numbers.CompareDoubleExactly | lib/cJSON/src/cJSON.c:543-547 | The tolerance written out: the distance is at most 2^-52 of one of the two numbers. |
| Numbers.GeneralIsShort | lib/cJSON/src/cJSON.c:576-584 | A numeral in the shape of `%g` with at most 17 digits has at most 24 bytes. |
| Numbers.PrintedIsShort | lib/cJSON/src/cJSON.c:550-596 | So the numeral printed for any finite double fits the 26-byte buffer with a byte to spare, and the length check never fails. |
| Numbers.IntsReadBack | lib/cJSON/src/cJSON.c:570-573 | An int reads back from what it prints. |
| Numbers.IntTextIsShort | lib/cJSON/src/cJSON.c:550-591 | An int prints in at most 11 bytes. |
| Grammar.RfcIsAccepted | lib/cJSON/src/cJSON.c:1317-1369 | An RFC 8259 text is in the language of the parser if and only if its numerals have at most 63 bytes. |
| Grammar.BodyIsRfcExactly | lib/cJSON/src/cJSON.c:778-904 | A string is RFC 8259 section 7 if and only if the parser takes it, no character below 32 stands in it and every `\u` has four hex digits. |
| Grammar.AcceptedIsRfcExactly | lib/cJSON/src/cJSON.c:1317-1369 | What the parser accepts is RFC 8259 if and only if its strings and keys are strict in this sense and its numerals those of section 6. |
| Grammar.MeaningIsRfcValue | lib/cJSON/src/cJSON.c:778-904 | What the parser stores for an RFC 8259 text is the value meant if and only if no string and no key writes `\u0000`. |
| ParserSpec.ParseValue | lib/cJSON/src/cJSON.c:1317-1369 | What is left after a value is a shorter, still terminated text: the recursive descent terminates. |
| ParserTheorems.ValueSound | lib/cJSON/src/cJSON.c:1317-1369 | Whatever is parsed was written there: the text is the layout of an accepted tree within the nesting limit, followed by the rest. |
| ParserTheorems.ArraySound | lib/cJSON/src/cJSON.c:1446-1541 | The same for arrays. |
| ParserTheorems.ObjectSound | lib/cJSON/src/cJSON.c:1606-1716 | The same for objects. |
| ParserTheorems.ValueComplete | lib/cJSON/src/cJSON.c:1317-1369 | Every accepted tree, written out in any way, is parsed to itself with the cursor right behind it when it fits the nesting limit, and refused otherwise. |
| ParserTheorems.ArrayComplete | lib/cJSON/src/cJSON.c:1446-1541 | The same for arrays, empty or not, with blanks between all tokens. |
| ParserTheorems.ObjectComplete | lib/cJSON/src/cJSON.c:1606-1716 | The same for objects. |
| Document.ParsedExactly | lib/cJSON/src/cJSON.c:1317-1369 | A syntax tree is parsed to itself if and only if it is accepted and fits the nesting limit. |
| Document.RfcParsedExactly | lib/cJSON/src/cJSON.c:1317-1369 | An RFC 8259 value is parsed to itself if and only if it fits the nesting limit and its numerals have at most 63 bytes, and yields the value RFC 8259 gives it if and only if no string and no key writes `\u0000`. |
| Document.NulEscapeCutsString | lib/cJSON/src/cJSON.c:778-904 | The legal string `"a\u0000b"` is parsed and stored as `a`. |
| Document.OverlongNumeralIsCut | lib/cJSON/src/cJSON.c:305-379 | A legal numeral of 64 digits is not parsed as one number. |
| Document.DigitsReadExactly | lib/cJSON/src/cJSON.c:313-351 | A string of digits is read as one number if and only if there are at most 63. |
| Document.KeywordsMean | lib/cJSON/src/cJSON.c:1325-1346 | `true`, `false` and `null` are read as the values of these names. |
| Document.BomIsUtf8 | lib/cJSON/src/cJSON.c:1071-1082 | The three bytes skipped at the start are the UTF-8 form of U+FEFF. |
| Document.BlanksExactly | lib/cJSON/src/cJSON.c:1043-1066 | A character may follow a value if and only if its code is at most 32. |
| Document.AcceptsExactly | lib/cJSON/src/cJSON.c:1100-1177 | In whole-text mode a text is accepted with a tree if and only if it writes that tree, within the limit: optional byte order mark, blanks, value, blanks. |
| Document.AcceptsRfcExactly | lib/cJSON/src/cJSON.c:1100-1177 | A text is accepted with a strict tree if and only if it writes an RFC 8259 tree whose nesting and numerals fit the limits. |
| Document.LaxStrings | lib/cJSON/src/cJSON.c:620-653 | The strings `"\uZZZZ"`, stored as the empty one, and a raw tab are accepted, though not RFC 8259. |
| Document.LaxNumerals | lib/cJSON/src/cJSON.c:313-379 | So are the numerals `007`, `1.` and `-.5`. |
| Document.PrefixIsWritten | lib/cJSON/src/cJSON.c:1180-1183 | Without the whole-text mode, whatever is accepted was written at the start of the text. |
| Document.PrefixIsAccepted | lib/cJSON/src/cJSON.c:1180-1183 | Every accepted tree there is parsed to itself, or refused for its nesting, whatever follows, if, when it is a numeral, no longer numeral begins the first 63 number bytes. |
| Document.PrefixExactly | lib/cJSON/src/cJSON.c:1180-1183 | The mode of `cJSON_Parse`, exactly: the result is a tree and a rest if and only if the text writes that accepted tree in front of that rest, within the limit, a numeral being the longest that begins the first 63 number bytes. |
| Document.ReadsLongest | lib/cJSON/src/cJSON.c:305-379 | The numeral read is exactly the longest one there. |
| Document.NumeralEndsEarly | lib/cJSON/src/cJSON.c:313-379 | `12-3` is read as 12. |
| Document.WrittenIsAccepted | lib/cJSON/src/cJSON.c:1100-1177 | With and without the whole-text mode, a written tree is accepted exactly within the nesting limit, and where the end is reported. |
| Rendering.RenderIsLayout | lib/cJSON/src/cJSON.c:1372-1443 | The rendering of a value, formatted or not, at any depth, is the layout of a syntax tree. |
| Rendering.SyntaxMeans | lib/cJSON/src/cJSON.c:1372-1443 | That tree is accepted, nests as deep as the value and means it, with order and repeated keys kept and every number as its printed numeral. |
| Rendering.RereadExactly | lib/cJSON/src/cJSON.c:550-617 | That is the value itself if and only if every number reads back from what it prints. |
| JsonValue.IntTreesReadBack | lib/cJSON/src/cJSON.c:570-573 | It does in every tree of ints. |
| Rendering.PrintedIsRfc | lib/cJSON/src/cJSON.c:1372-1443 | The rendering is JSON in the sense of RFC 8259, whatever the tree. |
| FormatScan.PrintedIsFormatted | lib/cJSON/src/cJSON.c:1544-1830 | A scanner of bytes accepts every formatted print: outside strings a brace and the comma of an object are followed by a line feed, a line feed by as many tabs as there are open brackets or by one less and the closing brace, a colon by one tab, the comma of an array by one space, and there is no other blank. |
| FormatScan.PrintedIsUnspaced | lib/cJSON/src/cJSON.c:1544-1830 | An unformatted print has no blank outside strings. |
| FormatScan.DepthIsBrackets | lib/cJSON/src/cJSON.c:1446-1454 | The depth that the nesting limit refers to is the greatest number of brackets open at once outside the strings of the text. |
| Rendering.RoundTrip | lib/cJSON/src/cJSON.c:1257-1265 | Either print of a tree is parsed if and only if the tree nests within the limit, and gives back the tree if and only if its numbers read back; trees of ints do. |
| Nodes.Delete | lib/cJSON/src/cJSON.c:253-274 | Deleting a list frees every block of its trees exactly once, and no other block. |
| Nodes.Suffix | lib/cJSON/src/cJSON.c:1933-1937 | The links set keep every subtree and make the list end in the new item. |
| Nodes.CloseList | lib/cJSON/src/cJSON.c:1523-1525 | Setting the first `prev` completes the sibling invariant. |
| Parser.ParseBuffer.SkipWhitespace | lib/cJSON/src/cJSON.c:1043-1066 | The cursor moves to the first byte above 32, or to the final NUL: the step back never leaves it below where it began. |
| Parser.ParseBuffer.ParseNumber | lib/cJSON/src/cJSON.c:305-379 | The number read is the longest numeral that begins the first 63 number bytes, rounded; `valueint` is saturated; a failure moves nothing. |
| Parser.ParseBuffer.ParseHex4 | lib/cJSON/src/cJSON.c:620-653 | The loop computes the value the four characters spell in digits of either case, and 0 if they spell none. |
| Parser.ParseBuffer.EncodeUtf8 | lib/cJSON/src/cJSON.c:720-769 | Writing the bytes backwards with masks and shifts leaves the UTF-8 form, inside the space granted. |
| Parser.ParseBuffer.Utf16LiteralToUtf8 | lib/cJSON/src/cJSON.c:657-775 | One literal or a surrogate pair is decoded, unpaired surrogates and short input are refused, and nothing before the output cursor changes. |
| Parser.ParseBuffer.DecodeInto | lib/cJSON/src/cJSON.c:824-882 | The second pass writes exactly the decoded bytes into a buffer of the estimated size, for every input. |
| Parser.ParseBuffer.ParseString | lib/cJSON/src/cJSON.c:778-904 | Two passes refine the one-pass specification; a failure frees the buffer. |
| Parser.ParseBuffer.ParseArray | lib/cJSON/src/cJSON.c:1446-1541 | The loop over a mutable cursor and a growing list refines the specification; on failure the whole list is freed again. |
| Parser.ParseBuffer.ParseObject | lib/cJSON/src/cJSON.c:1606-1716 | The same for objects, keys included. |
| Parser.ParseBuffer.ParseValue | lib/cJSON/src/cJSON.c:1317-1369 | Success: the cursor advances strictly, stays inside, depth is restored, the node becomes a wired, separate tree of that value and exactly its blocks are new. Failure: a refused text or a failed allocation, and nothing is leaked. |
| Parser.ParseWithOpts | lib/cJSON/src/cJSON.c:1084-1177 | For every text and every pattern of failing allocations: NULL with the live blocks as before, or a wired tree denoting exactly what the text writes, owning exactly the new blocks. |
| Printer.PrintBuffer.Ensure | lib/cJSON/src/cJSON.c:444-527 | A granted request has room for the bytes and one more and keeps the text so far; a refused one was too long for a fixed buffer or an int, or an allocation failed. |
| Printer.PrintBuffer.UpdateOffset | lib/cJSON/src/cJSON.c:530-540 | Committing the pending text leaves the cursor right behind it. |
| Printer.PrintBuffer.FormatNumber | lib/cJSON/src/cJSON.c:570-590 | An int prints as such, any other number with fifteen digits when they read back to it within the tolerance, else with seventeen. |
| Printer.PrintBuffer.PrintNumber | lib/cJSON/src/cJSON.c:550-617 | The numeral of any finite number stands behind the committed text. |
| Printer.PrintBuffer.CountEscapes | lib/cJSON/src/cJSON.c:933-958 | The first pass computes the length of the escaped string; zero extra bytes means nothing to escape. |
| Printer.PrintBuffer.WriteEscaped | lib/cJSON/src/cJSON.c:977-1023 | The second pass leaves the quoted, escaped string, inside the space granted. |
| Printer.PrintBuffer.PrintStringPtr | lib/cJSON/src/cJSON.c:907-1026 | Fast path and slow path both leave the quoted string; a NULL string prints as an empty one; no more than the exact length is asked for. |
| Printer.PrintBuffer.PrintArray | lib/cJSON/src/cJSON.c:1544-1603 | The loop leaves the rendering of the array pending behind the committed text; depth is restored; the other blocks are untouched. |
| Printer.PrintBuffer.PrintObject | lib/cJSON/src/cJSON.c:1719-1830 | The same for objects, with tabs, keys, colons and line ends. |
| Printer.PrintBuffer.PrintValue | lib/cJSON/src/cJSON.c:1372-1443 | Success leaves the committed text, the rendering and a NUL with one byte to spare; failure means that this much was not to be had. |
| Printer.Print | lib/cJSON/src/cJSON.c:1192-1265 | NULL with nothing leaked (an allocation failed, or the text is too long for an int), or a fresh block holding the rendering and its NUL and no byte more; the text passes the scanner for its mode. |
| Printer.PrintBuffered | lib/cJSON/src/cJSON.c:1267-1295 | The same result from any starting capacity, zero included. |
| Printer.PrintPreallocated | lib/cJSON/src/cJSON.c:1297-1314 | It succeeds if and only if the length given is at least the rendered length plus 2, and then the buffer holds the rendering; in any case no byte of the array behind that length is written. |
| Lists.GetArrayItem | lib/cJSON/src/cJSON.c:1856-1873 | The walk finds the child at that index, or NULL. |
| Lists.AddItemToArray | lib/cJSON/src/cJSON.c:1961-1992 | Success exactly for two different nodes; the result is the tree with the item appended if and only if the list was empty or the item had no successor. |
| Lists.InsertItemInArray | lib/cJSON/src/cJSON.c:2268-2300 | Insert-at for every position, append behind the end; the sibling invariant is kept at every level. |
| Lists.DetachItemViaPointer | lib/cJSON/src/cJSON.c:2192-2226 | Remove-at for every position; the item comes out as a tree of its own with no links. |
| Lists.DetachItemFromArray | lib/cJSON/src/cJSON.c:2228-2236 | Remove-at by index; nothing happens for an index outside. |
| Lists.DeleteItemFromArray | lib/cJSON/src/cJSON.c:2238-2241 | Remove-at, and exactly the blocks of that child are freed. |
| Lists.ReplaceItemViaPointer | lib/cJSON/src/cJSON.c:2302-2349 | Update-at for every position, and exactly the blocks of the old item are freed; replacing an item by itself does nothing. |
| Lists.ReplaceItemInArray | lib/cJSON/src/cJSON.c:2351-2359 | Update-at by index, succeeding exactly for an index inside. |
| Lists.BridgedIsLinked | lib/cJSON/src/cJSON.c:2199-2219 | The pointers a detach leaves make the remaining nodes a well-formed list, for any length and position. |
| Lists.SplicedIsLinked | lib/cJSON/src/cJSON.c:2288-2298 | The same for the pointers an insert leaves. |
| Lists.SwappedIsLinked | lib/cJSON/src/cJSON.c:2314-2342 | The same for the pointers a replacement leaves. |
| Lists.ChildrenAct | lib/cJSON/src/cJSON.c:1961-2349 | On the value of the array these are append, insert-at, remove-at and update-at. |
| Lists.MembersAct | lib/cJSON/src/cJSON.c:1961-2349 | And on the members of an object, keys included. |
| Copies.CreateIntArray | lib/cJSON/src/cJSON.c:2555-2593 | A fresh, well-formed array of these numbers in order, or NULL with everything freed. |
| Copies.AddItemOfOther | lib/cJSON/src/cJSON.c:1961-1992 | A child of one array added to another: the second stays well-formed if and only if it was empty or the child is the last of the first. |
| Copies.Duplicate | lib/cJSON/src/cJSON.c:2716-2797 | A fresh tree of the same shape and data, sharing no block with the original, which stays as it is; a failure frees everything allocated. |
| Copies.SameTreeSameValue | lib/cJSON/src/cJSON.c:2716-2797 | Such a copy denotes the same value. |
| Copies.DuplicateThenDelete | lib/cJSON/src/cJSON.c:2716-2797 | Whichever of the two trees is deleted, the other stays intact and live. |
| CompareSpec.KeysAgreeExactly | lib/cJSON/src/cJSON.c:133-154 | Keys are the same if and only if they are equal or, in the insensitive mode, of one length and pairwise equal up to the case of an ASCII letter. |
| CompareSpec.SameIsMatching | lib/cJSON/src/cJSON.c:2996-3119 | Comparison written out for all values: the same type and content, numbers within the tolerance, elements in order, and for each member of one object the first of the other whose key agrees has a matching value. |
| CompareSpec.IntsCompareExactly | lib/cJSON/src/cJSON.c:543-547 | On ints the tolerance of `compare_double` is plain equality. |
| CompareSpec.SameExactly | lib/cJSON/src/cJSON.c:2996-3119 | Comparison of trees of ints, exactly: in both, members of one key agree in value, and read as unordered maps the two are equal. |
| CompareSpec.SameAsCopy | lib/cJSON/src/cJSON.c:3078-3114 | A tree compares equal to its own copy if and only if its members of one key agree in value. |
| CompareSpec.SameIsPartialEquivalence | lib/cJSON/src/cJSON.c:2996-3119 | Comparison is symmetric and transitive, whatever the keys. |
| CompareSpec.SameIsCanonEquality | lib/cJSON/src/cJSON.c:2996-3119 | With pairwise distinct keys under the case mode it is equality of the values with objects read as unordered maps. |
| CompareSpec.SameIsEquivalence | lib/cJSON/src/cJSON.c:2996-3119 | With distinct keys it is an equivalence. |
| CompareSpec.OrderDoesNotMatter | lib/cJSON/src/cJSON.c:3078-3114 | A permutation of the members compares equal if and only if members of one key agree in value. |
| CompareSpec.RepeatedKeysDiffer | lib/cJSON/src/cJSON.c:3082-3095 | A tree whose repeated key has two values, so that it differs from its own copy. |
| Comparison.CaseInsensitiveStrcmp | lib/cJSON/src/cJSON.c:133-154 | Zero if and only if neither is NULL and the strings agree up to the case of ASCII letters, character by character. |
| Comparison.GetObjectItem | lib/cJSON/src/cJSON.c:1885-1915 | The first child whose key agrees; a case-sensitive search ends at a child without a key, the other one passes over it; NULL exactly when there is none. |
| Comparison.FindKeyExactly | lib/cJSON/src/cJSON.c:1885-1915 | The child at a position is the one found if and only if its key agrees with the name, no child before it does, and, where case counts, all children before it have keys. |
| Comparison.NothingFoundExactly | lib/cJSON/src/cJSON.c:1885-1915 | Nothing is found if and only if no child is such. |
| Comparison.FindIsLookup | lib/cJSON/src/cJSON.c:1885-1915 | When all children have keys this is lookup in the member sequence. |
| Comparison.AlikeIsSame | lib/cJSON/src/cJSON.c:2996-3119 | On trees without common nodes whose members have keys, what the walk decides is the comparison of the two values. |
| Comparison.SharedOrKeyless | lib/cJSON/src/cJSON.c:3020-3024 | A node compares equal to itself, and an object with a member without a key to no other node. |
| Comparison.Compare | lib/cJSON/src/cJSON.c:2996-3119 | The recursive walk over the heap decides `Alike` for all trees: identical nodes are alike, NULL is not, a member without a key is never found. |
| MinifySpec.StripIsIdempotent | lib/cJSON/src/cJSON.c:2848-2894 | Minifying twice is minifying once, for every text. |
| MinifySpec.CleanStrip | lib/cJSON/src/cJSON.c:2848-2894 | Where no string ends in a backslash, minifying the formatted print of a value gives the unformatted one, in any surroundings. |
| MinifySpec.MinifyAgreesExactly | lib/cJSON/src/cJSON.c:2848-2894 | Minifying the formatted print gives the unformatted print if and only if no key or string ends in a backslash, except a string at the very end that no formatting follows. |
| MinifySpec.CleanIsMinifiable | lib/cJSON/src/cJSON.c:2826-2846 | In particular it does so whenever no key and no string ends in a backslash. |
| MinifySpec.BackslashBreaksMinify | lib/cJSON/src/cJSON.c:2826-2846 | A tree for which it does not. |
| MinifyAny.FillersStrip | lib/cJSON/src/cJSON.c:2798-2824 | Any sequence of blanks of RFC 8259, comments up to the end of the line and comments up to the first `*/` is dropped, whatever follows. |
| MinifyAny.UnfinishedStrip | lib/cJSON/src/cJSON.c:2798-2824 | A comment that is never closed takes the rest of the text with it; a slash that opens none is dropped alone. |
| MinifyAny.LayoutStrip | lib/cJSON/src/cJSON.c:2848-2894 | Any tree written with such blanks and comments, no string of which ends in a backslash, is minified to the same tree without them, whatever follows. |
| MinifyAny.CompactMeansSame | lib/cJSON/src/cJSON.c:2848-2894 | When the tree was accepted before, it is accepted without blanks, nests as deep and means the same value. |
| MinifyAny.MinifyKeepsValue | lib/cJSON/src/cJSON.c:2848-2894 | A whole such text, byte order mark and outer comments included, is parsed after it is minified if what is left is accepted, to the same value as before if it was accepted before. |
| MinifyInPlace.MinifyString | lib/cJSON/src/cJSON.c:2826-2846 | The copy inside a string, two cursors in one array, follows the pure function. |
| MinifyInPlace.Minify | lib/cJSON/src/cJSON.c:2848-2894 | The in-place run leaves the pure function of the original text, its NUL, and the bytes behind unchanged: the write cursor never passes the read cursor. |
| RoundTrips.PrintAndParse | lib/cJSON/src/cJSON.c:1180-1265 | On the heap: print and parse give a fresh wired tree of the same value, its numbers as printed, unless memory runs out, the text is too long for an int, or the tree is nested too deeply. |
| RoundTrips.PrintAndMinify | lib/cJSON/src/cJSON.c:2848-2894 | On the heap: the minified formatted print spells the unformatted print if and only if the tree is minifiable. |
| Supplies.UpdateSuppliesFromJson | lib/suppliesData/src/supplies_module.c:97-175 | Every counter, named by its field, gets the amount under its own section and name and is clamped at zero; a missing or mistyped entry changes nothing; the counters stay within an int. |
| Supplies.DeltaIsAmount | lib/suppliesData/src/supplies_module.c:97-175 | What a message adds is what its JSON value says: the number of the first member named like the item in the first member named like the section, up to case. |
| Supplies.IntAmount | lib/suppliesData/src/supplies_module.c:104-107 | For an int that is the int itself. |
| Supplies.NoAmount | lib/suppliesData/src/supplies_module.c:100-107 | It is zero if no object of that name holds a number of that name first. |
| Supplies.LeastIsMinimum | lib/suppliesData/src/supplies_module.c:97-175 | The low-water mark is the least prefix sum, zero included. |
| Supplies.ClosedForm | lib/suppliesData/src/supplies_module.c:97-175 | After any deltas from zero a counter is their sum minus the low-water mark. |
| Supplies.RunIsBounded | lib/suppliesData/src/supplies_module.c:97-175 | It is never negative and at most the sum of the positive deltas. |
| Supplies.NoUnderflow | lib/suppliesData/src/supplies_module.c:107-111 | The addition cannot underflow an int. |
| Supplies.ServeUpdates | lib/suppliesData/src/supplies_module.c:26-50 | From the zero start, any number of messages leaves every counter at the sum of the amounts they say for it less the least prefix sum. |
| ClientTables.TcpClientList.AddTcpClient | src/server/server.c:1051-1066 | Append, unless the table is full. |
| ClientTables.TcpClientList.RemoveTcpClient | src/server/server.c:1068-1089 | The shift loop removes the first occurrence and keeps the order of the rest. |
| ClientTables.UdpClientList.AddUdpClient | src/server/server.c:1099-1134 | Append, unless the table has five entries or one with the same port and the same host (IPv4) or flow information (IPv6). |
| ClientTables.CachedExactly | src/server/server.c:1104-1113 | The same of the pure step, both ways. |
| ClientTables.ParsesExactly | src/server/server.c:715-736 | A datagram counts if and only if it begins, behind blanks, with the text of a value within the limit. |
| ClientTables.UdpClientList.ReceiveAll | src/server/server.c:715-736 | After any datagrams the table holds the first MAX_CLIENTS newcomers among the senders of those that parse. |
| ClientTables.TableIsFirstFew | src/server/server.c:1099-1134 | The table is exactly the first MAX_CLIENTS distinct keys in order of arrival. |
| ClientTables.NewcomersCoverKeys | src/server/server.c:1099-1134 | A key has a newcomer if and only if it ever sent. |
| ClientTables.TableByEndpointExactly | src/server/server.c:1099-1134 | The table is the one a comparison of endpoints would build if and only if, at every arrival before MAX_CLIENTS keys have come, the key of the sender has come before exactly when its endpoint has. |
| ClientTables.V4TableIsByEndpoint | src/server/server.c:1104-1113 | For IPv4 senders it always is. |
| ClientTables.HostsAreConfused | src/server/server.c:1104-1113 | Two IPv6 hosts with equal flow information and port are taken for one. |
| ServerLoop.Server.AcceptTcpConnection | src/server/server.c:375-421 | Table, watched set and bound after an accept, failed or not. |
| ServerLoop.Server.HandleTcpSocketActivity | src/server/server.c:137-180 | A client that is lost leaves the watched set and the table. |
| ServerLoop.Server.Serve | src/server/server.c:85-133 | One pass of the loop, whose bound may grow while it runs, refines the pure step, and its clients' turns and broadcasts are those of the pure log. |
| ServerLoop.Server.SendToAllTcpClients | src/server/server.c:1091-1097 | A broadcast writes to the table, in order. |
| ServerLoop.SweepKeepsInv | src/server/server.c:97-132 | One round keeps the invariant of table, watched set and bound. |
| ServerLoop.RunKeepsInv | src/server/server.c:85-133 | Over any run: at most MAX_CLIENTS distinct clients, all watched, none a listener or the fifo, all at most the bound; and every open connection while never more than MAX_CLIENTS were open. |
| ServerLoop.RoundEffect | src/server/server.c:97-132 | The loop accepts once and then drops exactly the clients that are gone, keeping the order of the others. |
| ServerLoop.LostClientIsDropped | src/server/server.c:97-132 | A reported client that does not answer is dropped in that round if and only if its descriptor is above the TCP listener's. |
| ServerLoop.HandledExactly | src/server/server.c:97-132 | A client gets its turn in a round if and only if it is reported and its descriptor is above the TCP listener's. |
| ServerLoop.SentExactly | src/server/server.c:97-132 | A message is passed on in a round if and only if the Unix socket or the fifo delivers it and its descriptor is above the TCP listener's, and then to the table as it stands at that point of the for loop. |
| ServerLoop.LowDescriptorStays | src/server/server.c:97-132 | A legal run in which a lost client below the listener stays watched and listed. |
| ServerLoop.OpenIsListedOrLate | src/server/server.c:85-133 | Over any run the open connections are exactly those in the table and those that found it full, and none is both. |
| ServerLoop.WatchedExactly | src/server/server.c:85-133 | Over any run a descriptor is watched if and only if it is one of the two listeners, the Unix socket or the fifo, or in the table, or found it full. |
| ServerLoop.AllListedExactly | src/server/server.c:85-133 | Every open connection is in the table if and only if none of them found it full. |
| ServerLoop.NeverCrowdedMeansNobodyLate | src/server/server.c:85-133 | None did while never more than MAX_CLIENTS were open at once. |
| ServerLoop.UnlistedStaysUnlisted | src/server/server.c:97-132 | One round does not enter an open connection into the table. |
| ServerLoop.LateClientStaysUnlisted | src/server/server.c:1051-1066 | Over any run, a connection that found the table full stays outside until a round drops it. |
| ServerLoop.SixthStaysOutside | src/server/server.c:1051-1066 | A legal run after which one connection is open, the table has a free place, and the connection is not in it. |
| ServerLoop.TableReaches | src/server/server.c:1091-1097 | After any run the table holds open connections, once each, exactly those that did not find it full; all of them if and only if none did. |
| ServerLoop.Broadcast | src/server/server.c:1091-1097 | What a message delivered inside the for loop, after any run, is written to: the connections open at that point that did not find the table full; all of them if and only if none did. |
| ServerLoop.Run | src/server/server.c:85-133 | The running server, over any number of rounds, is in the state of the pure run and keeps the invariant. |

## Left out

- Printer.PrintBuffer.PrintNumber: NaN and the infinities are not modelled, nor a locale with another decimal point.
- Parser.ParseBuffer.ParseNumber: a numeral beyond the range of double, which `strtod` makes infinite, is rounded to a real.
- CompareSpec.SameExactly: the tolerance for numbers that are no ints is in `Same` but not in the canonical values.
- MinifyAny.MinifyKeepsValue: one direction for strings that end in a backslash; the exact condition is proved for printed texts (`MinifySpec.MinifyAgreesExactly`). Blanks other than those of RFC 8259, which the parser skips and the minifier keeps, are excluded.
- Copies.Duplicate: the depth of the C stack is unbounded.
- ServerLoop.Server.Serve: descriptors are unbounded, `FD_SETSIZE` is not modelled; what the handlers of the other listeners do besides the TCP table is left out.
- Supplies.UpdateSuppliesFromJson: upper overflow of a counter, undefined in C, is excluded by a precondition.
- Raw items, reference items, constant keys and custom allocator hooks: side features that weaken the tree invariant.
- Length-delimited parsing without a final NUL: the server never uses it.
- The reported position of a parse error.
- Wrap-around of `size_t` in offsets and depths; the printer's limit at INT_MAX is modelled.
- Object variants of add, detach and replace: lookup and the list operation they combine are modelled.
- The float, double and string array constructors: the same loop as the int one.
- Create, type and value getters: one branch each.
- Sockets, fork, signals, shared memory, logging, message dispatch, clients and alerts: operating system and user interface.
