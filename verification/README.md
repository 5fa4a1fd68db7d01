# Verification of the SunSpec tool's core

A Dafny model of the parts of the SunSpec/Modbus test tool in which most can go wrong, with proofs about
every input, every run and every reachable state. `dafny verify dfyconfig.toml` checks all of it.

What is modelled, and what is proved:

- **XML (lib/ezxml)**. The UTF-16 converter, the entity decoder that scans replaced text again, the check
  for circular entities, the parser, the printer, and the tag tree that is threaded by three chains at
  once. Main results: every document, however it is written, is parsed to the tree it means, and so parsing what is
  printed gives the same tree; every character reference decodes to its bytes; the decoder ends on
  every text with an accepted entity table whose values leave no reference open and in which no name with a ';'
  inside is looked up, and both conditions are exact; insertion keeps all three chains right, over any run.
- **Scaled numbers (src/suns_output.c, lib/trx/string.c)**. An integer times a power of ten is printed by
  moving digits and read back by a state machine. Main results: the value is exact in both notations, with
  the one exception characterised; the state machine is a plain reader on every string.
- **SunSpec models (src/suns_model.c, src/suns_lang.y)**. Layout of points in registers, encoding into a
  growing buffer, decoding with repeating blocks, the static check of scale factor references and their
  resolution, and the numbering of datasets. Main results: layout and decoder agree; encoding and decoding
  are inverse, byte for byte in the order and with the marks each type has; the static check is sound where only the last block repeats, and elsewhere the models and lengths
  with open references are characterised.
- **Device walk (src/suns_app.c)**. The test server's register map and the client that searches it, with
  read limits and failures. Main results: the client gets the server's blocks byte for byte; and, with the
  encoder, decoder and numbering around it, the values of a data file come out as datasets.
- **Containers (lib/trx/list.c, buffer.c)**. The doubly linked list with its stable insertion sort, the
  Hoare quicksort whose pivot may change under its feet, and the byte buffer as a bounded queue.
- **Dates (lib/trx/date.c)**. The RFC 3339 state machine, against the grammar of the RFC, and on all other
  strings against a reader of fields.

Code that works on pointers, fields and buffers is modelled by classes, arrays and loops; each method is
proved against functions on values (C strings are sequences of characters without NUL), and the promises
are proved about those functions. Reading from the network is a register memory plus a schedule of
failures, quantified over.

Where the code does not do what its documentation or name suggests, the code is followed, and the condition
under which it does is proved:

- The entity check of ezxml accepts tables on which its decoder never ends, by their values
  (`EntityTrap.CompleteIsExact`, with `EntityTrap.LoneAmpersand`) or by their names (`EntityNames.NameIsExact`, with
  `EntityNames.InnerSemicolon`), and refuses some without a cycle (`EntityNames.CheckIsStrict`).
- Attribute text with characters 10 to 31 or above 127 does not survive the logger and the host (`AmpCodec.EscapeRoundTrip`).
- A scientific exponent can lose its last digit without an error (`Decimal.CutExample`).
- After quicksort the back links of a list are wrong unless it has one node (`QuickSort.ListQuickSort`).
- A scale factor in a repeating block is always taken from the first record (`SunsRecords.OwnExponents`, with
  `SunsRecords.SecondRecordWrong`).
- uint32 is missing from the numeric types (src/suns_model.c:886-899), so the scale factors of uint32 points are
  neither checked nor resolved (`ScaleFactors.ExponentTaken`, with `ScaleFactors.UInt32Unscaled`).
- A model that repeats a block in front of the last one passes the check of its scale factors, and some devices
  leave them unresolved (`SunsShown.FoundIsExact`, `SunsFront.DevicesAreExact`, with `SunsFront.RepeatInFront` and
  `SunsFront.CutBehind`).
- A date-time with a fraction and a '-' offset is refused (`Rfc3339.ParseText`).

Files: `CStrings` (string.h and ctype.h), `Utf8`, `CharRefs`, `Entities`, `References`, `EntityTable`,
`EntityTrap`, `EntityNames`, `AmpCodec`, `XmlDocument`, `XmlParser`, `XmlForms`, `XmlRoundTrip`, `Splice`, `StableOrder`, `TagTree`,
`LinkedList`, `QuickSort`, `Decimal`, `DecimalForms`, `ByteBuffer`, `SunsValue`, `SunsModel`, `SunsDecode`, `ScaleFactors`,
`SunsDataset`, `SunsLayout`, `SunsRoundTrip`, `SunsScaling`, `SunsShown`, `SunsRecords`, `SunsFront`,
`DatasetIndex`, `DeviceWalk`, `SunsSystem`, `Rfc3339`, `Rfc3339Fields`.

## Model

| member | source | states |
|---|---|---|
| `Utf8.Str2Utf8` | lib/ezxml/ezxml.c:422-451 | Input without a byte order mark is left alone; otherwise the loop over 16-bit units, in either byte order and with surrogate pairs, gives exactly the specified text, also for odd or truncated input. |
| `Utf8.PayloadCount` | lib/ezxml/ezxml.c:444-445 | The number of payload bytes computed as (bits - 2) / 5 is the one that section 3 of RFC 3629 asks for, for every code point. |
| `Utf8.EmitIsRfc3629` | lib/ezxml/ezxml.c:442-448 | The shifted and masked bytes are the RFC 3629 encoding of every code point up to 0x10FFFF, written independently with division and remainder. |
| `Utf8.ConvertOneUnits` | lib/ezxml/ezxml.c:433-439 | The UTF-16 form of any scalar value (section 2.1 of RFC 2781), one unit or a surrogate pair, is consumed whole and yields that scalar value's bytes. |
| `Utf8.PairIs` | lib/ezxml/ezxml.c:435-439 | Any two units, the first a surrogate of either kind, make the number of their ten low bits each, and 0x10000. |
| `Utf8.RaggedEnd` | lib/ezxml/ezxml.c:433-448 | At the end of an odd input a single byte is dropped and a lone surrogate is written as it is. |
| `Utf8.MarkDecides` | lib/ezxml/ezxml.c:427-439 | On the bytes: FE in front makes the first byte of each unit the high one, FF the second, whatever comes behind the mark; of a pair the first unit has the upper bits. |
| `Utf8.Utf16ToUtf8` | lib/ezxml/ezxml.c:422-451 | For every sequence of scalar values, in either byte order, a byte order mark and the UTF-16 form convert to the UTF-8 form of the same sequence. |
| `Entities.StepDescends` | lib/ezxml/ezxml.c:170-208 | One pass of the decoder's loop strictly lowers a cost of the text still to be scanned, although a replacement is scanned again, on every table whose references form no cycle, whose values hold only complete references, and in which no name with a ';' inside is ever looked up. |
| `Entities.DecodeHalts` | lib/ezxml/ezxml.c:158-218 | On such a table the decoder ends on every text and in every mode, within a number of passes known beforehand, and leaves the decoded text. |
| `Entities.DecodeInPlace` | lib/ezxml/ezxml.c:158-218 | The loop that rewrites the buffer through a moving position leaves the decoded text: line ends normalised first, then references replaced and scanned again. What that text is, References says. |
| `Entities.NormalizeNewlines` | lib/ezxml/ezxml.c:163-168 | The in-place loop turns every carriage return, with or without a line feed behind it, into one line feed (section 2.11 of XML 1.0). |
| `References.NoReturns` | lib/ezxml/ezxml.c:163-168 | After the normalisation no carriage return is left. |
| `References.LineEnd` | lib/ezxml/ezxml.c:163-168 | A carriage return with its line feed, and one alone, is one line feed, wherever it stands; what is around it is normalised on its own. |
| `References.ReferenceDecodes` | lib/ezxml/ezxml.c:174-188 | For every code point from 1 to 0x10FFFF, the reference written by division with its decimal or hexadecimal digits, in either case, with any zeros, blanks, sign or 0x that strtol takes in front, decodes in text and attributes to the code point's bytes of section 3 of RFC 3629; after a minus sign, to the low byte of the negative number. |
| `References.UnfinishedStays` | lib/ezxml/ezxml.c:174-177 | A reference to 0, or one whose digits are not followed by a ';', is text: its '&' stays and the rest is decoded. |
| `References.NoDigitStays` | lib/ezxml/ezxml.c:174-177 | So is one without a digit. |
| `References.EntityDecodes` | lib/ezxml/ezxml.c:189-203 | A reference by name is replaced by the value of the first entity whose name, with its ';', the text goes on with, and the value is scanned again with what comes behind. |
| `References.AmpersandStays` | lib/ezxml/ezxml.c:204-207 | An '&' that no entity's name follows, or that stands where names are not looked up, stays. |
| `References.PlainDecodes` | lib/ezxml/ezxml.c:206-207 | Every other character stays as it is, except that each of the six blanks becomes a space in attribute values. |
| `References.TextReference` | lib/ezxml/ezxml.c:158-218 | With the five predefined entities, which is what DecodeTextInPlace computes, every such numeric reference in front of any text gives its bytes and the decoding of that text. |
| `References.TextNamed` | lib/ezxml/ezxml.c:158-218 | And each of the five names gives its character, which is not scanned as markup of a reference again. |
| `References.TextCData` | lib/ezxml/ezxml.c:163-207 | A CDATA section is decoded to itself, with its line ends normalised. |
| `EntityTable.EntOkMeaning` | lib/ezxml/ezxml.c:268-279 | The recursive check answers no exactly when some chain of references, of any length, leads from the value to the name. |
| `EntityTable.CheckEntity` | lib/ezxml/ezxml.c:268-279 | The loop with its recursive calls ends on every table without a cycle and answers yes exactly when no chain of references leads from the text to the name. |
| `EntityTable.AcceptedStaysAcyclic` | lib/ezxml/ezxml.c:341-355 | A declaration that the check accepts leaves the grown table without a cycle. |
| `EntityTable.CheckIsExact` | lib/ezxml/ezxml.c:350-355 | What the check accepts has no cycle, for every name. For a name that no earlier name starts or continues, it accepts a declaration if and only if the grown table has no cycle (section 4.1 of XML 1.0); a name that an earlier one starts makes no cycle, whatever its value. |
| `EntityTable.DeclaredAcyclic` | lib/ezxml/ezxml.c:330-356 | However many declarations are accepted one after the other, starting from the five predefined entities, the table has no cycle. |
| `EntityTable.DeclareEntities` | lib/ezxml/ezxml.c:330-356 | The loop keeps the table free of cycles, so that every check it makes ends, and stops at the first declaration that fails the check. |
| `EntityTable.DeclaredTableDecodes` | lib/ezxml/ezxml.c:158-218 | If no '&' of a stored value can become a reference by what comes behind the value, and no name with a ';' inside can be looked up (it starts with '#', or an earlier entity takes its references), every text is decoded in finitely many passes with any accepted table. |
| `EntityTrap.AcceptedTableCanDiverge` | lib/ezxml/ezxml.c:268-279 | For every other value the check alone is not enough: three declarations that it accepts, one with this value and two without an open reference, and a text on which the decoder never ends. |
| `EntityTrap.LoneAmpersand` | lib/ezxml/ezxml.c:330-356 | The shortest such value is a lone '&', stored as it stands. |
| `EntityTrap.CompleteIsExact` | lib/ezxml/ezxml.c:170-208 | That condition on values is the exact one for each literal: it holds if and only if, however the literal is declared among others that meet it, with names that fit, every text is decoded with every table the check accepts. |
| `EntityNames.StoredLiteral` | lib/ezxml/ezxml.c:346-349 | Every value without a carriage return is what some literal is stored as. |
| `EntityNames.InnerSemicolon` | lib/ezxml/ezxml.c:337-355 | The loop ends a name at white space only: a;b declared as '&a;' is stored as 'a;b;', passes the check with a complete value, and the text '&a;b;' comes back for ever. |
| `EntityNames.InnerSemicolonDiverges` | lib/ezxml/ezxml.c:188-201 | So does every name with a ';' inside whose references no earlier entity takes, behind any accepted declarations that are in order: the value '&' and the name up to its first ';' is complete, accepted, and makes a text that is never decoded. |
| `EntityNames.NameIsExact` | lib/ezxml/ezxml.c:188-201 | The condition on names is the exact one: behind any such declarations, a name has no ';' inside, starts with '#' or is taken by an earlier entity, if and only if every complete value that the check accepts for it gives a table with which every text is decoded. |
| `EntityNames.CheckIsStrict` | lib/ezxml/ezxml.c:268-279 | For a name that an earlier one continues the check is stricter than that: a;b as 'x' and then a as '&a;b;' is refused, although the table would have no cycle. |
| `AmpCodec.AmpEncodeTo` | lib/ezxml/ezxml.c:667-688 | The loop appends the encoding of each character, for content or for an attribute. |
| `AmpCodec.AmpWritten` | lib/ezxml/ezxml.c:675-685 | The seven characters that are written as references, and as which, in text and in attribute values; every other one is written as it is. |
| `AmpCodec.AmpConcat` | lib/ezxml/ezxml.c:667-688 | Each character is encoded on its own. |
| `AmpCodec.DecodeTextInPlace` | lib/ezxml/ezxml.c:158-218 | With the five predefined entities the in-place decoder computes the decoding function that the round trips are about. |
| `AmpCodec.DecAmpEncode` | lib/ezxml/ezxml.c:667-688 | The decoder turns an encoded text back character by character; only a vertical tab or form feed in an attribute becomes a blank. |
| `AmpCodec.ContentRoundTrip` | lib/ezxml/ezxml.c:667-688 | Decoding encoded character data gives back every text, whatever it holds, although line ends are normalised and replacements are scanned again. |
| `AmpCodec.AttributeRoundTrip` | lib/ezxml/ezxml.c:667-688 | An attribute value comes back if and only if it holds no vertical tab and no form feed (section 3.3.3 of XML 1.0). |
| `AmpCodec.EscapeXml` | lib/trx/string.c:120-194 | The loop over the escape table writes one after the other the escapes that fit, and the ordinary characters; with room enough that is the whole escaped text. Once ordinary characters have run over the end, the unsigned room left wraps and everything is written. |
| `AmpCodec.EscapeBehind` | lib/trx/string.c:143-187 | For any buffer: of a last character, an ordinary one is always written, an escape with one character to spare or behind the end of the buffer. |
| `AmpCodec.EscapeWritten` | lib/trx/string.c:129-184 | What is written for each character: five names, two hexadecimal digits below 32, &#127;, and &#fff above. |
| `AmpCodec.EscapeRoundTrip` | lib/trx/string.c:120-194 | Attribute text written by the logger is recovered by the host's XML decoder if and only if it holds no character from 10 to 31, written in hexadecimal and read back as decimal, and none above 127, negative in a signed char. |
| `XmlParser.ParseStr` | lib/ezxml/ezxml.c:470-600 | The parser with its updated insertion point gives the specified result, tree or error, on every input without a document type declaration. What the result is for written documents, XmlForms says. |
| `XmlParser.Parser.ReadMarkup` | lib/ezxml/ezxml.c:487-584 | One piece of markup moves the reading position and the state as specified, a tag that closes itself included, or ends with the specified error; comments, processing instructions and document type declarations are skipped or refused by loops of their own. |
| `XmlParser.Parser.ReadAttributes` | lib/ezxml/ezxml.c:501-532 | The attribute loop collects the specified names and decoded values, or reports a missing quote. |
| `XmlParser.Parser.Open` | lib/ezxml/ezxml.c:221-230 | The new tag is at once in the document tree, as the last child of the tag that was current, at the offset of the text read so far; it is the current one, one level down, and the tags above are untouched. |
| `XmlParser.Parser.AddContent` | lib/ezxml/ezxml.c:233-254 | Decoded character data is added to the text of the current tag, and nothing else changes. |
| `XmlParser.Parser.Close` | lib/ezxml/ezxml.c:257-264 | Only the name of the current tag closes it, and another name changes nothing; closing goes one level up, leaves the tags above alone and changes nothing in the document tree, because the tag was in it since it was opened. |
| `XmlParser.WriteTag` | lib/ezxml/ezxml.c:693-741 | The printer appends the printed form of a tag: each first attribute of a name, the text cut at the offsets of the children, and the children. |
| `XmlParser.WriteKids` | lib/ezxml/ezxml.c:693-741 | A run of children is printed with the text between their offsets, never past the end of the text. |
| `XmlForms.ReadAttrs` | lib/ezxml/ezxml.c:501-532 | Attributes as they may be written, with any blanks, around '=' too, either kind of quote, references in the value, or no value at all, are read with their names and decoded values. |
| `XmlForms.ReadNode` | lib/ezxml/ezxml.c:487-584 | In every state of the parser, a tag with its content, one that closes itself, a comment, a CDATA section and a processing instruction are read as what they mean: a next child with its attributes, text and children, characters added to the text, or nothing. |
| `XmlForms.ReadNodes` | lib/ezxml/ezxml.c:487-597 | Any run of them inside a tag, with text between them, leaves the tag with all their text and children, each at the offset of the text in front of it. |
| `XmlForms.DocumentIsRead` | lib/ezxml/ezxml.c:470-600 | Every document in these forms, with comments and processing instructions around its root, is parsed to the tree it means. |
| `XmlForms.Utf16IsRead` | lib/ezxml/ezxml.c:478-479 | So is its UTF-16 form, in either byte order. |
| `XmlForms.WrongEnd` | lib/ezxml/ezxml.c:553-558 | An end tag with another name than the current tag's is refused, whatever comes behind its blanks. |
| `XmlForms.SlashAlone` | lib/ezxml/ezxml.c:534-539 | A '/' that no '>' follows is refused. |
| `XmlForms.QuoteMissing` | lib/ezxml/ezxml.c:515-522 | A value without its second quote is refused, behind any attributes. |
| `XmlForms.SecondRoot` | lib/ezxml/ezxml.c:491-493 | A tag behind the end of the root is refused. |
| `XmlForms.Unended` | lib/ezxml/ezxml.c:560-568 | A comment or a CDATA section without its end is refused. |
| `XmlForms.CommentRefused` | lib/ezxml/ezxml.c:560-563 | Two dashes in a comment that are not its end are refused. |
| `XmlForms.InstructionUnended` | lib/ezxml/ezxml.c:578-583 | So is a processing instruction without its end. |
| `XmlForms.TagCut` | lib/ezxml/ezxml.c:543-551 | A text that ends inside a tag, behind any attributes, is refused: as an unclosed tag if its last character is a '>' and as a missing '>' if not. |
| `XmlForms.Unfinished` | lib/ezxml/ezxml.c:597-599 | A text that ends inside a tag's content, or before any tag, is refused. |
| `XmlForms.UnknownMarkup` | lib/ezxml/ezxml.c:584-584 | A '<' in front of anything else is refused. |
| `XmlRoundTrip.PrintIsForm` | lib/ezxml/ezxml.c:693-741 | What is printed for a tree is a written form with exactly that tree's names, attributes, text and children. |
| `XmlRoundTrip.AttrBehind` | lib/ezxml/ezxml.c:706-714 | For any attributes, an attribute behind others is written if and only if none of them has its name. |
| `XmlRoundTrip.KidsPrinted` | lib/ezxml/ezxml.c:693-741 | Two children with any offsets, in the wrong order or behind the text too: what is written of the text in front of, between and behind them. |
| `XmlRoundTrip.ParsePrint` | lib/ezxml/ezxml.c:470-600 | For every tree with names, distinct attributes, offsets within the text in nondecreasing order, no NUL, and no vertical tab or form feed in attribute values: parsing what is printed gives the same tree, with text, child order and offsets. |
| `XmlRoundTrip.ParseUtf16` | lib/ezxml/ezxml.c:478-479 | So does parsing the UTF-16 form of what is printed, in either byte order. |
| `StableOrder.InsertAllSorts` | lib/trx/list.c:477-532 | Inserting elements one by one behind everything they do not precede gives a sorted rearrangement in which ties keep their order of arrival, for every total preorder. |
| `TagTree.Child` | lib/ezxml/ezxml.c:60-65 | Following the sibling chain finds the first child of the name in document order, or nothing exactly when there is none, even if superseded first children are still in the chain. |
| `TagTree.ChildrenNamed` | lib/ezxml/ezxml.c:60-65 | That child and the chain behind it list exactly the children of the name, in document order. |
| `TagTree.SiblingLookup` | lib/ezxml/ezxml.c:60-65 | A chain that holds the first child of every name, in offset order, gives the same first child for every name as the whole child list. |
| `TagTree.LinkOrdered` | lib/ezxml/ezxml.c:858-867 | The new child is linked behind all children at or before its offset, and the chain holds one child more. |
| `TagTree.LinkNext` | lib/ezxml/ezxml.c:871-875 | A later child of a known name is linked so that every child still points to the next one of its name. |
| `TagTree.LinkSibling` | lib/ezxml/ezxml.c:876-883 | A new first child of its name takes the place of the old one, and lookup by name stays right for every name. |
| `TagTree.Thread` | lib/ezxml/ezxml.c:869-883 | Whatever its place, the new child keeps the chains of equal names and of first children right. |
| `TagTree.Insert` | lib/ezxml/ezxml.c:849-888 | All three chains stay right at once, for any offset, and the child list is the old one with the new child behind every child at or before its offset and in front of every one behind. |
| `TagTree.InsertInto` | lib/ezxml/ezxml.c:849-888 | Insertion into one tag keeps the chains and children of all others. |
| `TagTree.InOrderIsStable` | lib/ezxml/ezxml.c:849-888 | Document order after any run is by offset, then by arrival, with every insertion and every earlier child once. |
| `TagTree.AskedExactly` | lib/ezxml/ezxml.c:849-888 | What a tag asks for in a run: each of its old children with its offset, each insertion into it with the offset given, and nothing else. |
| `TagTree.InsertRun` | lib/ezxml/ezxml.c:849-888 | After any run of insertions into the tags of a document, with children or without, the chains of all tags are right and each child list is the document order of its old children and its part of the run, tag by tag; a tag may get children after it has become one. |
| `LinkedList.List.Delete` | lib/trx/list.c:136-157 | The node leaves the list; the links of all others mirror each other, and head, tail and count agree. |
| `LinkedList.List.InsertAfter` | lib/trx/list.c:162-195 | The new node stands behind the given one, or alone in an empty list, and the links mirror each other. |
| `LinkedList.List.InsertBefore` | lib/trx/list.c:198-226 | The new node stands in front of the given one, and the links mirror each other. |
| `LinkedList.List.Reverse` | lib/trx/list.c:237-252 | The list holds the same nodes in reverse order, with links that mirror each other. |
| `LinkedList.List.InsertSorted` | lib/trx/list.c:477-506 | The node is put in front of the first element that has to come after it, or at the end, for any comparison. |
| `LinkedList.List.InsertionSort` | lib/trx/list.c:509-532 | The list ends up with its own nodes, linked both ways, in the order of inserting their data one by one. |
| `LinkedList.InsertionSortIsStable` | lib/trx/list.c:509-532 | For every comparison with the sign of a total preorder that order is sorted, loses nothing and is stable. |
| `QuickSort.Partition` | lib/trx/list.c:378-401 | Although the pivot is read again from a slot that swaps can change: the scans stay in bounds, the result q satisfies p <= q < r, nothing outside p..r moves, nothing is lost, and every element up to q is at most every one behind it. |
| `QuickSort.SplitKept` | lib/trx/list.c:364-374 | Sorting both sides of such a split sorts the whole, and rearranges nothing else. |
| `QuickSort.Sort` | lib/trx/list.c:364-374 | The recursion ends and leaves a sorted rearrangement of the slots p..r. |
| `QuickSort.MapToArray` | lib/trx/list.c:313-327 | The array holds the nodes of the list in order, also for the empty list. |
| `QuickSort.MapFromArray` | lib/trx/list.c:330-341 | Forward links follow the array and end in null; every back link is null, because prev is never advanced. |
| `QuickSort.ListQuickSort` | lib/trx/list.c:351-360 | A nonempty list ends up with the same nodes in sorted order along its forward links; it is a correct doubly linked list if and only if it has one node. |
| `Decimal.SnprintfE` | src/suns_output.c:1443-1483 | The characters written and the value returned are the specified ones, including the branch that truncates the exponent. |
| `Decimal.Fraction` | src/suns_output.c:1579-1613 | The loops that move the point write the sign, the digits with the point inside, or zeros in front of them. |
| `Decimal.SnprintfBase` | src/suns_output.c:1544-1627 | The characters written and the value returned are the specified ones in all branches. |
| `Decimal.SnprintfSf` | src/suns_output.c:1494-1542 | The same for a signed or unsigned number, with 0 printed as 0. |
| `Decimal.FixedLength` | src/suns_output.c:1567-1572 | For a nonzero number and exponent, fixed notation never takes more than maxdigits + 3 characters. |
| `DecimalForms.NotationChosen` | src/suns_output.c:1550-1572 | When a number is refused, printed as it is, with its point moved, or in scientific notation, by its length and exponent. |
| `DecimalForms.PointShape` | src/suns_output.c:1579-1613 | With a negative exponent there are exactly that many digits behind the point, digits in front of it, and no needless leading zero. |
| `DecimalForms.ZeroShape` | src/suns_output.c:1615-1623 | With another one the number is followed by as many zeros. |
| `DecimalForms.PowerShape` | src/suns_output.c:1443-1483 | Scientific notation has the point behind the first character, and the exponent as far as it fits; when it is refused. |
| `DecimalForms.Printed` | src/suns_output.c:1443-1627 | Seven numbers, one for each form and sign, character by character; of a negative number in scientific notation the point stands behind the sign. |
| `Decimal.DecomposeDecimal` | lib/trx/string.c:289-423 | On every string that does not make its loop stand still, the state machine returns the specified exponent and the specified base, cut to the caller's buffer, or -1. |
| `DecimalForms.DecomposeIsReading` | lib/trx/string.c:289-423 | On every string the state machine reads what a reader without states reads: a sign, digits, a point and digits, an exponent; it says which strings are refused and which make the loop stand still. |
| `DecimalForms.IntegerRead` | lib/trx/string.c:289-423 | The exponent is its digits with its sign, up to the first other character. |
| `Decimal.ReadGrown` | src/suns_output.c:1615-1623 | A number printed with zeros behind it is read back with its exact value. |
| `Decimal.ReadShifted` | src/suns_output.c:1579-1613 | A number printed with its point moved is read back with its exact value. |
| `Decimal.ReadScientific` | src/suns_output.c:1443-1483 | The scientific form is read back with the exact value if and only if the exponent does not just fill the room handed to snprintf. |
| `Decimal.ReadBack` | src/suns_output.c:1494-1627 | For every integer, exponent, digit limit and buffer size, what is printed and fits the reader's buffer is read back as a base and exponent of exactly the same value, if and only if the exponent was not cut. |
| `Decimal.RoomyBuffer` | src/suns_output.c:1468-1480 | A buffer with room for the terminator never cuts the exponent. |
| `Decimal.CutExample` | src/suns_output.c:1472-1478 | 10^20 printed into 6 characters reads back as 10^2, and no error is returned. |
| `ByteBuffer.Buffer.CopyTo` | lib/trx/buffer.c:213-237 | Takes exactly min(n, size - queued) bytes, compacting if that is needed, and appends them to the queue. |
| `ByteBuffer.Buffer.CopyFrom` | lib/trx/buffer.c:190-209 | Moves the oldest min(queued, n) bytes out in order, and touches nothing else of the destination. |
| `ByteBuffer.Buffer.PartCopyFrom` | lib/trx/buffer.c:190-209 | With an offset the bytes come from behind it, as many as fit in len - offset, but the queue moves on by the number copied only: bytes in front of the offset are not discarded. |
| `ByteBuffer.Buffer.Compact` | lib/trx/buffer.c:144-161 | Moves the data to the front and keeps the queue; afterwards no space is wasted, also on the early return. |
| `ByteBuffer.Buffer.Resize` | lib/trx/buffer.c:73-96 | Keeps the queue in a storage area of the new size. |
| `ByteBuffer.Buffer.Eat` | lib/trx/buffer.h:93-97 | Drops the oldest min(n, queued) bytes. |
| `ByteBuffer.Buffer.Poke` | lib/trx/buffer.h:78-78 | Appends one byte. |
| `ByteBuffer.Buffer.Reset` | lib/trx/buffer.h:85-85 | Empties the queue and makes the whole area free. |
| `ByteBuffer.BufferToBuffer` | lib/trx/buffer.c:296-317 | What leaves one queue enters the other, and nothing moves when the destination is full up to its end, even if its front is free; a count above what the source holds copies the storage behind it, and leaves the source invalid if and only if more was copied than it held. |
| `ByteBuffer.Conservation` | lib/trx/buffer.c:73-237 | Over any run of the operations, the bytes removed followed by the bytes held are the bytes accepted, in order. |
| `ByteBuffer.Drive` | lib/trx/buffer.c:73-237 | Any run on the buffer with its moving positions is the same run on a bounded queue. |
| `SunsValue.BigEndian` | src/suns_model.c:409-484 | A number of any width is recovered from its big-endian bytes. |
| `SunsValue.ByteAt` | src/suns_model.c:409-484 | Byte i of k is n / 256^(k-1-i) mod 256: the most significant comes first. |
| `SunsValue.NumberIsSum` | src/suns_model.c:552-635 | The number in a field of any width is the sum of its bytes, each times the power of 256 of its place. |
| `SunsValue.NumberBytes` | src/suns_model.c:423-459 | The bytes of every number, with the width and the order of the bytes for each type. |
| `SunsValue.StringBytes` | src/suns_model.c:461-470 | The bytes of a string are its characters, and zeros up to the end of the field. |
| `SunsValue.NumberRead` | src/suns_model.c:560-615 | The number in the bytes of a field, for each type. |
| `SunsValue.StringField` | src/suns_model.c:461-470 | A string copied into a field and read up to the first NUL comes back, cut at the length of the field. |
| `SunsValue.DecodeEncode` | src/suns_model.c:409-635 | Every value with a binary form is decoded from its encoding; a string longer than its field loses its end, nothing else changes. |
| `SunsValue.ValueToBuf` | src/suns_model.c:409-484 | For each type of two, four and eight bytes, the bytes of the number are written at their place, the most significant first; a string is written with zeros behind it; nothing around it changes. IPv6 writes nothing and returns 0, other types without a binary form return -2. |
| `SunsValue.ValueToBuffer` | src/suns_model.c:489-518 | The value's bytes are appended if there is room, and nothing otherwise; IPv6 takes up its eight bytes, which are left as they are, and the bytes in front stay. |
| `SunsValue.RegisterList` | src/suns_lang.y:537-551 | The growing buffer holds the bytes of all values in order, with eight arbitrary bytes for each IPv6 value, except that values of more than 128 bytes are dropped. |
| `SunsValue.RegistersNext` | src/suns_lang.y:537-551 | A value behind others adds its bytes if they are at most 128, and nothing otherwise. |
| `SunsModel.FillBlock` | src/suns_model.c:1614-1647 | A point with a positive offset keeps it, any other one starts where the point before it ends, odd strings rounded up, and the block ends with its last point. |
| `SunsModel.FillOffsets` | src/suns_model.c:1609-1666 | All blocks are placed in this way, and the lengths of the model and of its fixed part are the 16-bit sums; without given offsets, each point starts at the sum of the register sizes before it. |
| `SunsModel.RegsCover` | src/suns_model.c:1629-1643 | The registers of a block always hold its bytes, and leave none over if and only if all strings are even. |
| `SunsDecode.BufToValue` | src/suns_model.c:552-635 | The value of a point comes from its own bytes only, with its type and index; the number of two and four byte types is stated on the bytes. |
| `SunsDecode.MarkedShort` | src/suns_model.c:521-547 | int16 and sunssf are marked not implemented if and only if the bytes are 80 00; uint16, enum16 and bitfield16 if and only if they are FF FF; accumulators, strings and pads never. |
| `SunsDecode.MarkedLong` | src/suns_model.c:521-547 | The same for the types of four bytes: 80 00 00 00, FF FF FF FF, no IPv4 address, and every float32 that is no number. |
| `SunsDecode.MarkedWide` | src/suns_model.c:521-547 | The same for those of eight bytes. |
| `SunsDecode.DecodeRecord` | src/suns_model.c:1697-1738 | One record is decoded point by point until the bytes run out. |
| `SunsDecode.DecodeDpBlock` | src/suns_model.c:1675-1741 | A block appends its records, numbered from 1, and returns the bytes it used, never more than it was given. |
| `SunsDataset.DecodeBlocks` | src/suns_model.c:1584-1598 | All blocks are decoded one behind the other, and the test for an overrun never succeeds. |
| `SunsDataset.DecodeData` | src/suns_model.c:1487-1604 | The dataset is null exactly for an unknown did; otherwise its values are a function of the declared length alone, with exponents filled in up to the first bad reference. |
| `SunsLayout.RecordAt` | src/suns_model.c:1696-1738 | Point k of record i is decoded i whole records behind the start, with index i + 1. |
| `SunsLayout.BodyShape` | src/suns_model.c:1584-1598 | Where only the last block repeats and the device length covers the fixed part, the dataset is the fixed points followed by whole records. |
| `SunsLayout.LayoutAgrees` | src/suns_model.c:1609-1741 | With even strings, and only the last block repeating, point k of record i comes from register base + i * block length + offset of k, and the number of records is floor((length - base) / block length), as README:319-333 says, for every length that covers the fixed part. |
| `SunsLayout.FixedLayoutAgrees` | src/suns_model.c:1609-1741 | Under the same conditions every point of a fixed block comes from the register that the layout gives it. |
| `SunsRoundTrip.RunBack` | src/suns_model.c:409-635 | A run of values, decoded by points of their types, comes back in order. |
| `SunsRoundTrip.EncodeDecode` | src/suns_model.c:1675-1741 | A data block of did, length, fixed values and any number of records has the declared length, and decodes to the same values in order, with the records numbered from 1. |
| `ScaleFactors.SearchModel` | src/suns_model.c:1852-1871 | Finds the first point of the name over all blocks, and the block it is in. |
| `ScaleFactors.CheckScaleFactors` | src/suns_model.c:1985-2032 | Returns 0 if and only if every point of the ten types of src/suns_model.c:889-898 that has a name leads to a first point of that name in the model, and none from outside the repeating block to one inside. |
| `ScaleFactors.CheckMeans` | src/suns_model.c:1985-2032 | The check as it is used elsewhere is the same statement about the ten types and the first points. |
| `ScaleFactors.ResolveScaleFactors` | src/suns_model.c:1892-1931 | Exponents are filled in, in place, up to the first reference to something that is no scale factor; -1 exactly if there is one. Each value up to there of one of the ten types has the exponent of the first value its name leads to, and nothing else changed. |
| `ScaleFactors.ExponentTaken` | src/suns_model.c:1892-1931 | A value whose name leads to a scale factor takes its exponent if its type is one of the ten, and stays as it is if not. |
| `ScaleFactors.FieldExponent` | src/suns_model.c:1892-1931 | On the bytes of a scale factor's field: 80 00 is exponent 0, all others are two's complement numbers. |
| `ScaleFactors.BadMeans` | src/suns_model.c:1892-1931 | Resolving stops at a value if and only if it has one of the ten types and its name first leads to a value that is no scale factor. |
| `ScaleFactors.UInt32Unscaled` | src/suns_model.c:886-899 | uint32 is not one of them: with the same scale factor -2, 1234 of type int32 takes the exponent, of type uint32 it keeps 0. |
| `ScaleFactors.UInt32Unchecked` | src/suns_model.c:1985-2032 | A uint32 point whose scale factor is in no block passes the static check. |
| `SunsScaling.DatasetOpens` | src/suns_model.c:1487-1604 | Where only the last block repeats and the body covers the fixed part, a dataset begins with one value for each fixed point and, if there is a record, for each point of the model, all with index 1. |
| `SunsScaling.CheckedReferences` | src/suns_model.c:1985-2032 | Soundness of the check, for models in which only the last block repeats: in every dataset decoded from a body that covers the fixed part, for any number of records including none, every name that a numeric value refers to is found, and found in the first record. |
| `SunsScaling.ResolverSucceeds` | src/suns_model.c:1892-1931 | For such a model and such a body the resolver succeeds if and only if the first point of every name referred to is a scale factor. |
| `SunsFront.RepeatInFront` | src/suns_model.c:1649-1655 | A block that repeats in front is only reported: a model that passes the check, and a body that covers the fixed part, in which a reference names nothing in the dataset. |
| `SunsFront.ShortDevice` | src/suns_model.c:1584-1598 | Nor does the check help when the device ends inside the fixed part: two fixed points, a body for the first only, and its reference names nothing in the dataset. |
| `SunsFront.CutBehind` | src/suns_model.c:1584-1598 | That is not all: a repeating block without any reference in front leaves a device's remaining bytes to the blocks behind it, and their references may find nothing, in a model that the check accepts. |
| `SunsShown.ShownIsDecoded` | src/suns_model.c:1675-1741 | For every model, wherever its blocks repeat, and every body: the names and types of the dataset are those of the points that fit into its length, whatever the bytes. |
| `SunsShown.FoundIsExact` | src/suns_model.c:1892-1931 | For every model and every body, all references find a value if and only if the points shown at that length find each other. |
| `SunsShown.ResolverIsExact` | src/suns_model.c:1892-1931 | For every model and every body, the resolver succeeds if and only if each name referred to is first borne by a scale factor, or by nothing, among the points shown at that length. |
| `SunsFront.DevicesAreExact` | src/suns_model.c:1584-1598 | For every model in which a block repeats, with even strings up to the first of them: no device that covers the fixed part leaves any reference open, if and only if finitely many cases leave none: each remainder of less than a record, with no record where that covers the fixed part, and with the least number that does. |
| `SunsFront.FrontSettles` | src/suns_model.c:1985-2032 | The check is sound for the references up to the first repeating block, at every length that covers the fixed part, if every name referred to there is borne there, or behind it by a point that takes no bytes. |
| `SunsFront.LateReference` | src/suns_model.c:1584-1598 | Otherwise the least number of records that covers the fixed part, with nothing behind them, leaves one of these references open. |
| `SunsFront.FrontIsExact` | src/suns_model.c:1985-2032 | So for a checked model with even strings there, where that length is one of a device, these references are found in the dataset of every device that covers the fixed part if and only if all their names are borne there or without bytes. |
| `SunsRecords.RecordExponent` | src/suns_model.c:1892-1931 | Where value and scale factor are in the repeating block, the scale factor found from record i is the record's own if and only if i is the first, and the exponent taken is the own one if and only if both are equal. |
| `SunsRecords.OwnExponents` | src/suns_model.c:1892-1931 | All records of a dataset get their own exponents if and only if all hold the same one. |
| `SunsRecords.SecondRecordWrong` | src/suns_model.c:1892-1931 | Two records with exponents 1 and 2: the value of the second is given exponent 1. |
| `DatasetIndex.Device.GetDidIndex` | src/suns_model.c:2152-2203 | With the datasets numbered so far, the shortcut and the full search both return the number of the new one, and number the first of its did 1 when the second arrives. |
| `DatasetIndex.Renumbered` | src/suns_model.c:2165-2197 | When a did comes again, its only dataset so far gets number 1, the new one the next number, and no other number changes. |
| `DatasetIndex.FirstOfDid` | src/suns_model.c:2199-2202 | A new did gets 0, and no other number changes. |
| `DatasetIndex.AddAll` | src/suns_app.c:734-739 | After any sequence of datasets, a did that came once has 0, and one that came more often has 1, 2, 3, ... in order of arrival. |
| `DatasetIndex.CountIsNumber` | src/suns_model.c:2152-2203 | The count by which datasets are numbered is how often the did has come. |
| `DeviceWalk.BytesOfWords` | src/suns_app.c:541-552 | Bytes packed into registers by the server and swapped by the client are the same bytes. |
| `DeviceWalk.WordAt` | src/suns_app.c:376-389 | The first of two bytes is the high one of its register. |
| `DeviceWalk.SwapRegisters` | src/suns_app.c:541-552 | The buffer holds the registers in modbus byte order. |
| `DeviceWalk.ReadRetry` | src/suns_app.c:582-598 | A read that no more than retries - 1 failures in a row can disturb succeeds exactly when the address is legal, within that many requests. |
| `DeviceWalk.ReadRegisters` | src/suns_app.c:918-954 | A block of any length is assembled from reads within the limit, each with retries; it fails exactly if an address is illegal. |
| `DeviceWalk.FindBase` | src/suns_app.c:570-614 | The result is the first of the four search registers that holds the signature, and 0 if none does. |
| `DeviceWalk.BaseIs` | src/suns_app.c:570-614 | The four places, in the order 40001, 1, 50001, 0x40001, that are searched for 0x5375 0x6E53. |
| `DeviceWalk.WalkIs` | src/suns_app.c:628-749 | In any memory: the blocks of a walk stand one behind the other, each as long as its second register says, none with did 0 or as the marker, and it stops at FFFF 0000, at a did of 0, or where the memory ends. |
| `DeviceWalk.AnsweredMeans` | src/suns_app.c:584-598 | A failure schedule is bearable where one of the next retries requests is answered. |
| `DeviceWalk.ReadDevice` | src/suns_app.c:556-765 | The client visits exactly the blocks that the map holds behind the signature, with their bytes, and returns 0 exactly when it reaches the end marker and the first block is a common model it knows. |
| `DeviceWalk.CommonShows` | src/suns_app.c:696-714 | The common model in front shows in the bytes that are handed on: the first two of the first block are 0 and 1. |
| `DeviceWalk.ServerMap` | src/suns_app.c:337-396 | The register map starts with the signature, the data blocks in order and the end marker. |
| `DeviceWalk.WalkVisits` | src/suns_app.c:628-749 | A walk over well-formed blocks visits each of them once, in order, and stops at the marker. |
| `DeviceWalk.ServeAndRead` | src/suns_app.c:321-396 | From end to end, for every read limit from 1 to 125 and every bearable failure schedule: the client gets the server's blocks byte for byte, in order, and returns 0 exactly when the first is a known common model. |
| `SunsSystem.BlockWellFormed` | src/suns_lang.y:537-551 | An encoded data block has the did and the length in its first two registers, as the server and the client need it. |
| `SunsSystem.FileToDatasets` | src/suns_app.c:556-765 | Values encoded into data blocks, served, found and read over a link with failures, decoded and numbered: one dataset for each block, in order, under its did, with the encoded values; all their exponents are resolved if the model passes the check and refers to scale factors only, otherwise those up to the first bad reference; 0 is returned exactly when the first block is the common model. |
| `Rfc3339.ParseTm` | lib/trx/date.c:150-432 | On every string the loop accepts, sets the fields and refuses as the state machine does. |
| `Rfc3339.ReadFraction` | lib/trx/date.c:277-350 | Behind a fraction, Z and a '+' offset are read and a '-' offset is refused. |
| `Rfc3339.ParseText` | lib/trx/date.c:150-432 | Every date-time of section 5.6 of RFC 3339 is accepted with exactly its fields if and only if it has no fraction, or one of at most 124 digits and no '-' offset; otherwise it is refused. |
| `Rfc3339Fields.ParseIsReadDate` | lib/trx/date.c:150-432 | On every string, in or outside the grammar, the state machine reads what a reader of fields without states reads: how long each field may be, what may be left out at the end, and what is refused. |

## Left out

- Entities.NormalizeNewlines: a carriage return at the very end of a text makes the C loop read past the terminator; the model stops there.
- EntityNames.NameIsExact: a name that itself holds a reference to an earlier entity whose name starts with '#' is excluded; the check may then refuse the value that would bring the name back.
- EntityTable.DeclareEntities: declarations come as pairs of name and literal; finding them in the text of the document type declaration, and parameter entities, are left out.
- Entities.DecodeInPlace: the '*' and '%' modes are left out.
- XmlDocument.PiEnd: for '<?>' the C code passes the length -1 on and overwrites the '?' and the next blank with NUL, so that the text '<?> <a></a>' ends as one without a root tag; the model skips the instruction and reads the tag.
- XmlParser.ParseStr: a document type declaration is reported as not modelled; parameter entities, ATTLIST defaults, the '*' mode, the list of processing instructions and the partial tree that comes with an error are left out.
- Utf8.EmitIsRfc3629: a character reference with a number above 2^36 or below 0 is not given a meaning.
- TagTree.Insert: nothing is claimed about how many superseded children the sibling chain holds.
- QuickSort.ListQuickSort: the empty list is excluded, as the C code then reads array[-1].
- Decimal.ReadBack: int overflow of the exponent near its limits is not modelled; the size of buf is not enforced, the characters written are. The missing terminator of the scientific form without exponent is no part of the text.
- Decimal.DecomposeDecimal: a sign anywhere but at the start or in the exponent makes the C loop stand still; such strings are excluded.
- ByteBuffer.Buffer.PartCopyFrom: an offset beyond len, where the unsigned difference wraps, and a copy beyond the end of the storage, are excluded.
- ByteBuffer.BufferToBuffer: a count that reaches beyond the end of the source's storage is excluded.
- ByteBuffer.Buffer.Resize: failure of realloc, and a size smaller than the data, are left out.
- SunsDataset.DecodeData: the blocks have the lengths of their points. The C decoder ignores given offsets, except that they change the block length by which it counts records; such models are laid out (SunsModel.FillOffsets) but not decoded here.
- SunsLayout.BodyShape: a model with a repeating block that is not the last, which src/suns_model.c:1649-1655 only reports, and a device length that ends inside the fixed part, are not covered here, nor in SunsLayout.LayoutAgrees, SunsLayout.FixedLayoutAgrees and SunsScaling.DatasetOpens; SunsShown.ShownIsDecoded covers both, for names and types.
- SunsScaling.CheckedReferences: false without these two conditions, for the inputs of SunsFront.RepeatInFront, SunsFront.CutBehind and SunsFront.ShortDevice; SunsScaling.ResolverSucceeds is stated under them too; SunsShown.FoundIsExact and SunsShown.ResolverIsExact decide every model at every length, and SunsFront.DevicesAreExact all lengths at once.
- SunsFront.DevicesAreExact: strings of odd length up to the first repeating block are excluded, as its records then leave more and more bytes behind; SunsShown.FoundIsExact decides each length of such a model.
- SunsDecode.DecodeDpBlock: a repeating block without registers, on which the C code divides by zero, is excluded.
- SunsRoundTrip.EncodeDecode: IPv6 and types without a binary form are excluded, because the encoder writes nothing for them.
- DeviceWalk.ReadDevice: a block of more than 1024 registers, for which the client has no room, is excluded. The C code decodes and numbers each block as soon as it is read; here SunsSystem.FileToDatasets does so afterwards, which gives the same datasets because reading does not depend on them.
- DeviceWalk.Link.ReadRegisters: libmodbus is replaced by a register memory and a schedule that says which requests get no answer.
- Rfc3339.ParseText: the fraction is kept as its digits; the rounding to microseconds through a float is left out. Strings outside the grammar, such as fields with one digit too many, which the code also accepts, are covered by Rfc3339Fields.ParseIsReadDate.
- Memory: allocation, ownership and reuse of strings, the list context `current`, and the NULL sentinel of the node array are left out.
- Floating point values are bit patterns.
- libmodbus sockets, the command line, SQLite, the model search path, the flex and bison grammar apart from register_list, and all output formats other than scaled numbers and escaped attributes are left out: plumbing.
- list_append, list_prepend, list_shuffle, list_split_new, ezxml_cut, buffer_printf and buffer_change_size are left out: they keep none of the invariants above.
