# Configuration, packets and parameters of the server

A Dafny model of three parts of the game server's common library, with proofs of what they are for:

1. **tinyxml2**, which reads the server's configuration: the in-place string decoder, the recursive parser over one shared
   character buffer, the linked document with its ownership books, deep copies, the pool allocator and the printer.
2. **The packet stream**: little-endian encoding, the 28-byte header, the bounded byte buffer, connections that send and
   reassemble packages, and the manager that serves them from epoll events.
3. **The URI codec** of the HTTP server.

`dafny verify dfyconfig.toml` verifies the project.

## How it is built

Code that works in place is modelled in place: character buffers, link fields, free lists, byte buffers and connection maps are
arrays and fields that methods update, and each method is proved against a function on values. What the source promises is then
proved about those functions. What the functions themselves rest on (blanks, names, entities, layout, header fields, answers, outcomes
of events) is stated a second time by literal characters and bytes.

| file | what it models |
|---|---|
| XmlUtil, XmlText, Texts | characters, references, UTF-8, decoding, escaping and collapsing, as functions on texts |
| StrPairs | the class StrPair and its pointer-walking passes over the shared buffer |
| XmlSyntax | parsing and printing as functions: the definition that the two classes below are proved against |
| XmlParser, ParsedTrees, ParseErrors | the parser over its buffer; which texts it reads, and what every parsed tree satisfies; which error the others end in |
| XmlPrinter, PrintLayout, RoundTrip, SaveAndLoad | the printer; what a print looks like; parsing undoes printing; printer, parser and reading the tree together |
| DomShape, Dom, DomTrees | link fields as a value, the pointer updates, the books of unlinked, live and untracked nodes |
| DomClone, DomParse | deep copies; parsing as the document sees it |
| MemPools | DynArray and the free-list pool |
| DataUtil, NetPackage, ByteBuffers | encoding, the header, the buffer |
| NetStream | the stream as a value: receiving, fragmentation, one direction between two ends |
| Net, Wires | connections, manager and kernel; two ends talking to each other |
| HttpUri | splitting, parsing and building URIs |

Texts are sequences of characters below 256, one per byte; characters from 128 on are bytes of UTF-8 sequences, as in the source.
A pointer into a buffer is an index. A C++ object owned by a pool is a Dafny object in the set of live nodes, and freeing it takes it
out of that set. Sockets are numbers that a `Kernel` object hands out; what the outside does (which events come, what arrives, how
much a write takes, how accept ends) is a parameter, so that every contract holds for all of it.

A *normal* document (`RoundTrip.NormalDocument`) has valid names, distinct attribute names, strings without NUL and carriage return,
no empty, blank or adjacent plain texts, bodies that do not hold their own terminator, declarations in front, and a depth under the
limit of 100; with entity processing switched off, values without quotes and texts without less-than signs; with collapsing, texts
that are collapsed.

## Findings

Where the code does not do what its documentation, a standard or its own checks expect: the exact condition, and an input.

| member | source | finding |
|---|---|---|
| `XmlText.InPlaceIsIdeal`, `XmlText.StaleExample` | cpp_try/common/tinyxml2/tinyxml2.cpp:341-345 | An ampersand that starts no known entity is skipped without being written. Once an earlier entity has made the write pointer fall behind, a stale byte shows instead: `&lt;&` reads as `<l`. It is right exactly if the byte under the write pointer is an ampersand each time. |
| `RoundTrip.DocumentRoundTrip`, `RoundTrip.PaddedDocument`, `RoundTrip.PrettyExample` | cpp_try/common/tinyxml2/tinyxml2.cpp:2566-2571 | Pretty layout, the default, changes texts: an element is indented even where a text has stopped the line breaks, so that `<a>t<b/></a>` is read back with the text `t` and four blanks. A normal document survives exactly if the layout is compact, white space is collapsed, or no layout is written next to a plain text: inside an element, none has an element directly behind it; at the top, none has an element directly before it, nor markup directly behind it unless only texts came before. |
| `Dom.XMLDocument.InsertAfterChild`, `DomTrees.InsertWhereItIs` | cpp_try/common/tinyxml2/tinyxml2.cpp:924-932 | Inserting the last child behind the child it already follows dereferences null, because it is unlinked first. That is the only case. |
| `Dom.XMLDocument.CountIsRight`, `DomParse.LoadFile`, `DomParse.LoadAfterFailureExample` | cpp_try/common/tinyxml2/tinyxml2.cpp:1024-1030 | After a parse error ParseDeep deletes nodes without counting them as tracked. Parse clears the pools behind an error, LoadFile does not: the untracked counts stay too high, and the assertions at the end of a later Clear fail although no error has occurred since. The counts are right exactly if nothing has been lost; a failed LoadFile loses something exactly if the file is not blank, a failed Parse of a text starts from zero. |
| `ParsedTrees.TagsMatch`, `ParsedTrees.WholeTextIsRead`, `ParsedTrees.EndTagExample` | cpp_try/common/tinyxml2/tinyxml2.cpp:1066-1072 | An end tag at the top that nothing opened ends the document without an error, and what follows is ignored: `</b>x` is read as an empty document. The whole text has been read exactly if nodes and blanks spell it. |
| `XmlUtil.ReferenceMeaning`, `XmlUtil.MalformedExample` | cpp_try/common/tinyxml2/tinyxml2.cpp:484-530 | Digits are scanned from the semicolon leftwards to the nearest `x` or `#`, so that malformed references such as `&#x1x2;` are accepted. Longer references wrap modulo 2^32. |
| `XmlText.DecodeUndoesEscape` | cpp_try/common/tinyxml2/tinyxml2.cpp:2494-2546 | The printer does not escape carriage returns, so a string survives printing and parsing exactly if it has none; a carriage return alone comes back as a line feed. |
| `NetStream.NegativeExactly`, `NetStream.NegativeStream`, `NetStream.NegativeExample`, `Net.DerailsExactly`, `Net.DerailExample`, `Net.NetConnectionManager.SelectSocketLinux` | cpp_try/common/Net/NetConnection.cpp:101 | A negative body size passes the check of a received header, and a copy of that many bytes follows, which is undefined. It happens exactly if a connection receives, behind whole packages, 28 bytes of which the first is the sign and the last is at least 0x80. `Wires.DeliverAt` proves that no peer of this library sends them. |
| `Net.NetConnection.Send` | cpp_try/common/Net/NetConnection.cpp:73-77 | The frame is assembled in an array of 1024 bytes without a check: exactly bodies of more than 996 bytes overrun it, although receivers take up to 1024. |
| `DataUtil.ReadString`, `DataUtil.UncheckedExample` | cpp_try/common/Util/DataUtil.cpp:139-147 | The length in front of a string is taken unchecked and compared as an unsigned number: reading stays inside the array exactly if that many bytes are there or a zero comes before the end. |
| `Net.NetConnectionManager.SelectSocketLinux`, `Net.DeafExample` | cpp_try/common/Net/NetConnectionManager.cpp:340-368 | One accept that fails, or one accepted socket that cannot be prepared, closes the listener like an error event does, and nothing opens it again. |
| `HttpUri.SurvivesExactly` | cpp_try/common/Http/HttpServer.cpp:144-189 | Nothing is percent-encoded: parameters survive exactly if keys hold neither `&` nor `=`, values no `&`, and the path no `?`. |

## Model

| member | source | states |
|---|---|---|
| `SaveAndLoad.SaveThenLoad` | cpp_try/common/tinyxml2/tinyxml2.cpp:2285-2393 | Printing any normal document with the printer, in either layout, parsing the buffer with the parser and then reading every string of the tree with GetStr gives the same byte order mark, no error, and the children with the layout that was written next to their texts: the same children exactly if the layout is compact, white space is collapsed, or no layout stands next to a text. |
| `RoundTrip.DocumentRoundTrip` | cpp_try/common/tinyxml2/tinyxml2.cpp:2380-2393 | For every normal document, either layout and every configuration: what the parse of its print is, and that it is the document itself exactly if the layout is compact, white space is collapsed, or no layout stands next to a text. |
| `RoundTrip.PaddedDocument` | cpp_try/common/tinyxml2/tinyxml2.cpp:2561-2579 | The texts of a printed document are all left alone exactly if: inside elements no plain text has an element directly behind it; at the top none has an element before it, nor markup behind it once other markup has been printed. |
| `RoundTrip.AroundRoundTrip` | cpp_try/common/tinyxml2/tinyxml2.cpp:2561-2579 | A text that is printed with layout around it is read back with that layout, or without it when white space is collapsed. |
| `RoundTrip.PrettyExample` | cpp_try/common/tinyxml2/tinyxml2.cpp:2566-2571 | The document that is printed as an element holding a text and then an indented empty element, and its text is read back with the indentation. |
| `RoundTrip.ContentRoundTrip` | cpp_try/common/tinyxml2/tinyxml2.cpp:988-1100 | A printed list of siblings in either layout, with layout before it and followed by any text that may follow it, is read back sibling by sibling in order, each text with the layout next to it, and reading then goes on with that text. |
| `RoundTrip.NodeRoundTrip` | cpp_try/common/tinyxml2/tinyxml2.cpp:656-723 | Every printed node but plain text, in either layout and at every depth under the limit, is read back as itself but for the layout next to texts inside it, and nothing behind it is touched. |
| `RoundTrip.HeadRoundTrip` | cpp_try/common/tinyxml2/tinyxml2.cpp:1815-1923 | A printed tag is read back with its name, its attributes in order and the way it is closed. |
| `RoundTrip.AttrsRoundTrip` | cpp_try/common/tinyxml2/tinyxml2.cpp:1815-1872 | Printed attributes with distinct names are read back in order behind those already read. |
| `RoundTrip.AttributeRoundTrip` | cpp_try/common/tinyxml2/tinyxml2.cpp:1356-1381 | One printed attribute is read back with its name and value. |
| `RoundTrip.TextRoundTrip` | cpp_try/common/tinyxml2/tinyxml2.cpp:1147-1171 | Printed text is identified as text and read back, collapsed if that is asked for, up to the next markup. |
| `RoundTrip.CollapseIs` | cpp_try/common/tinyxml2/tinyxml2.cpp:238-264 | Collapsing, by the text: blanks in front of a word and behind the last go, and one space stays between two words; the blanks are the six characters with the codes 9 to 13 and 32. |
| `RoundTrip.BlanksIgnored` | cpp_try/common/tinyxml2/tinyxml2.cpp:656-680 | Blanks in front of markup, or at the end, change nothing about what is read. |
| `RoundTrip.EndTagEnds` | cpp_try/common/tinyxml2/tinyxml2.cpp:1062-1072 | A closing tag ends the list it stands in and is handed back with its name. |
| `ParsedTrees.TagsMatch` | cpp_try/common/tinyxml2/tinyxml2.cpp:988-1100 | Parsing yields a document exactly if its text, behind blanks and the three bytes of the mark, is not empty and is spelled by a grammar of literal texts: tags with names, attributes in quotes of either kind and blanks between them, markup between its delimiters, each element closed in its own tag or by an end tag of the same name, declarations first, fewer than a hundred levels; and then only blanks follow or an end tag that nothing opened. |
| `ParsedTrees.WholeTextIsRead` | cpp_try/common/tinyxml2/tinyxml2.cpp:1062-1072 | The nodes reach to the end of the text exactly if the text is spelled by nodes and blanks; they stop before it, without an error, exactly if the text is spelled by nodes and an end tag that nothing opened. |
| `ParsedTrees.EndTagExample` | cpp_try/common/tinyxml2/tinyxml2.cpp:1066-1072 | A text that is read as an empty document, although more follows its end tag. |
| `ParsedTrees.SpelledIsParsed` | cpp_try/common/tinyxml2/tinyxml2.cpp:656-723 | Every node that the grammar spells is what the parser reads there, and it stops where the grammar does. |
| `ParsedTrees.AllSpelledIsParsed` | cpp_try/common/tinyxml2/tinyxml2.cpp:988-1100 | So is every list of siblings, declarations in their place. |
| `ParsedTrees.RestIsUnique` | cpp_try/common/tinyxml2/tinyxml2.cpp:656-723 | A text spells a node in one way at most. |
| `ParsedTrees.TagAtIs` | cpp_try/common/tinyxml2/tinyxml2.cpp:1815-1923 | The tags that the parser reads are exactly those of the grammar, with the same name, attributes, kind and rest. |
| `ParsedTrees.AttrsComplete` | cpp_try/common/tinyxml2/tinyxml2.cpp:1815-1872 | Attributes that are spelled, with different names, are read in order up to the end of the tag. |
| `ParsedTrees.RunsAreSkipped` | cpp_try/common/tinyxml2/tinyxml2.h:553-573 | Spaces, tabs, line feeds, vertical tabs, form feeds and carriage returns, in any number and order, change nothing in front of markup, in front of a document, or before and behind the attributes of a tag. |
| `ParsedTrees.OthersAreText` | cpp_try/common/tinyxml2/tinyxml2.cpp:656-723 | Any other character but a less-than sign begins a text that holds it. |
| `ParsedTrees.DepthExactly` | cpp_try/common/tinyxml2/tinyxml2.cpp:2396-2402 | Elements nested 98 deep are read, and from 99 on the error is that of the depth. |
| `ParseErrors.NothingFails` | cpp_try/common/tinyxml2/tinyxml2.cpp:2285-2313 | A text of blanks alone is an empty document. |
| `ParseErrors.CommentFails` | cpp_try/common/tinyxml2/tinyxml2.cpp:1212-1224 | A comment that is never closed. |
| `ParseErrors.CDataFails` | cpp_try/common/tinyxml2/tinyxml2.cpp:1147-1160 | A CDATA section that is never closed. |
| `ParseErrors.DeclarationFails` | cpp_try/common/tinyxml2/tinyxml2.cpp:1258-1271 | A declaration that is never closed. |
| `ParseErrors.UnknownFails` | cpp_try/common/tinyxml2/tinyxml2.cpp:1303-1317 | An unknown that is never closed. |
| `ParseErrors.LateDeclarationFails` | cpp_try/common/tinyxml2/tinyxml2.cpp:1040-1056 | A declaration behind an element. |
| `ParseErrors.TextFails` | cpp_try/common/tinyxml2/tinyxml2.cpp:1147-1171 | A text that nothing follows, and one with a less-than sign alone behind it. |
| `ParseErrors.MismatchFails` | cpp_try/common/tinyxml2/tinyxml2.cpp:1062-1095 | An end tag of another name. |
| `ParseErrors.UnclosedElementFails` | cpp_try/common/tinyxml2/tinyxml2.cpp:1062-1095 | An element that nothing closes; at the very end of the text the error is another one than behind blanks. |
| `ParseErrors.TwiceFails` | cpp_try/common/tinyxml2/tinyxml2.cpp:1828-1850 | Two attributes of the same name. |
| `ParseErrors.BadTagFails` | cpp_try/common/tinyxml2/tinyxml2.cpp:1815-1872 | A less-than sign in front of no name, and a tag that goes on with no attribute. |
| `ParsedTrees.DocumentIsParsed` | cpp_try/common/tinyxml2/tinyxml2.cpp:988-1100 | In every parsed document all names are names, attribute names are pairwise distinct, no element with children lies beyond the depth limit, declarations come first and only at the top, and no two plain texts are neighbours. |
| `ParsedTrees.ContentIsSpelled` | cpp_try/common/tinyxml2/tinyxml2.cpp:988-1100 | The list that one level of the parser returns is spelled by the text it has consumed. |
| `ParsedTrees.ElementIsSpelled` | cpp_try/common/tinyxml2/tinyxml2.cpp:1898-1923 | The element that the parser returns is spelled, with its own end tag, by the text it has consumed. |
| `ParsedTrees.AttrsAreParsed` | cpp_try/common/tinyxml2/tinyxml2.cpp:1815-1872 | The attributes of a tag have valid names that differ pairwise, in source order. |
| `XmlParser.Document.Parse` | cpp_try/common/tinyxml2/tinyxml2.cpp:2285-2313 | For every text, NULs included, the parser stops with the error that the definition of parsing gives, or with a tree whose strings lie in pairwise disjoint closed ranges of the buffer and show that document; the depth counter is zero again. |
| `XmlParser.Document.ParseBuffer` | cpp_try/common/tinyxml2/tinyxml2.cpp:2380-2393 | The same over a filled buffer, byte order mark included. |
| `XmlParser.Document.NodeParseDeep` | cpp_try/common/tinyxml2/tinyxml2.cpp:988-1100 | One level: the depth counter is restored on every exit and never passes the limit, nothing before the read position is written, and children, end tag and position are those of the definition, on every error path too. |
| `XmlParser.Document.NodeStep` | cpp_try/common/tinyxml2/tinyxml2.cpp:1010-1100 | Every round of that loop consumes at least one byte and keeps what the strings read so far stand for. |
| `XmlParser.Document.ParseChild` | cpp_try/common/tinyxml2/tinyxml2.cpp:1010-1097 | Identify and the ParseDeep of any node agree with the definition, and the pairs they make lie apart from all earlier ones. |
| `XmlParser.Document.ElementParseDeep` | cpp_try/common/tinyxml2/tinyxml2.cpp:1898-1923 | An element with its children: the end tag that a child has read arrives, unflushed, in the pair the caller supplied. |
| `XmlParser.Document.ElementChild` | cpp_try/common/tinyxml2/tinyxml2.cpp:1062-1097 | The closing tag goes to the caller, and names of start and end tag are flushed and compared without changing any text still to be read. |
| `XmlParser.Document.ParseHead` | cpp_try/common/tinyxml2/tinyxml2.cpp:1898-1915 | A tag up to its end, with its name and attributes. |
| `XmlParser.Document.NameAndAttributes` | cpp_try/common/tinyxml2/tinyxml2.cpp:1912-1917 | The name of a tag and then its attributes; the name is still unflushed. |
| `XmlParser.Document.ParseAttributes` | cpp_try/common/tinyxml2/tinyxml2.cpp:1815-1872 | The attribute loop: names are flushed one by one and compared with all before; a second attribute of the same name is an error. |
| `XmlParser.Document.AddAttribute` | cpp_try/common/tinyxml2/tinyxml2.cpp:1822-1845 | One attribute is accepted exactly if it parses and its name is new. |
| `XmlParser.Document.ParseBody` | cpp_try/common/tinyxml2/tinyxml2.cpp:1212-1317 | Comments, declarations, unknowns and CDATA sections run to the first terminator; without one the error is theirs. |
| `XmlParser.Document.ParseText` | cpp_try/common/tinyxml2/tinyxml2.cpp:1147-1171 | Text runs to the next markup, which stays unread; a text that nothing follows is an error. |
| `XmlParser.Document.ReadBOM` | cpp_try/common/tinyxml2/tinyxml2.cpp:385-400 | The byte order mark is skipped exactly if it is there, and remembered. |
| `XmlParser.ParseAttributeDeep` | cpp_try/common/tinyxml2/tinyxml2.cpp:1356-1381 | Name, equals sign and quoted value, with their two disjoint ranges. |
| `XmlParser.IdentifyNode` | cpp_try/common/tinyxml2/tinyxml2.cpp:656-723 | The kind of the next node and where its body starts; text starts at the blanks before it. |
| `XmlParser.FlushName` | cpp_try/common/tinyxml2/tinyxml2.cpp:1835-1836 | Decoding a name while parsing goes on changes nothing that lies before or behind it. |
| `XmlParser.ReadPair` | cpp_try/common/tinyxml2/tinyxml2.cpp:267-365 | GetStr on any string of a parsed document, flushed before or not, gives what decoding a private copy would have given, and changes what no other string stands for. |
| `XmlParser.ReadPairs` | cpp_try/common/tinyxml2/tinyxml2.cpp:267-273 | So strings may be asked for in any order and any number of times. |
| `XmlParser.OthersKept` | cpp_try/common/tinyxml2/tinyxml2.cpp:267-365 | A write inside the closed range of one pair leaves every other pair of the document as it was. |
| `StrPairs.StrPair.GetStr` | cpp_try/common/tinyxml2/tinyxml2.cpp:267-365 | GetStr returns the decoded string, decodes only once, and writes nothing outside the closed range of the pair. |
| `StrPairs.Decode` | cpp_try/common/tinyxml2/tinyxml2.cpp:275-357 | The in-place pass with its two pointers leaves what the left-to-right definition of decoding says, terminates, and touches nothing outside. |
| `StrPairs.DecodeOne` | cpp_try/common/tinyxml2/tinyxml2.cpp:283-354 | One round of that pass: the write pointer never passes the read pointer. |
| `StrPairs.StrPair.CollapseWhitespace` | cpp_try/common/tinyxml2/tinyxml2.cpp:238-264 | In place, the text becomes its words joined by single spaces; nothing outside the text changes. |
| `StrPairs.StrPair.TransferTo` | cpp_try/common/tinyxml2/tinyxml2.cpp:144-166 | The string moves to the other pair with all that is still owed to it, and the source is empty; transferring to itself does nothing. |
| `StrPairs.StrPair.ParseText` | cpp_try/common/tinyxml2/tinyxml2.cpp:193-215 | The pair takes the text before the first terminator, and the result stands behind it. |
| `StrPairs.StrPair.ParseName` | cpp_try/common/tinyxml2/tinyxml2.cpp:218-235 | The pair takes the longest name, or nothing when none starts there. |
| `StrPairs.StrPair.Set` | cpp_try/common/tinyxml2/tinyxml2.h:154-163 | The pair stands for the range, decoded by the flags, before any byte has been decoded. |
| `StrPairs.StrPair.SetStr` | cpp_try/common/tinyxml2/tinyxml2.cpp:180-190 | The pair owns a copy that is never decoded. |
| `StrPairs.FindEntity` | cpp_try/common/tinyxml2/tinyxml2.cpp:327-341 | The table search finds the entity that starts there, if one does. |
| `StrPairs.GetCharacterReference` | cpp_try/common/tinyxml2/tinyxml2.cpp:456-549 | The two digit loops over the buffer compute the reference as defined, bytes and new position. |
| `StrPairs.StringEqual` | cpp_try/common/tinyxml2/tinyxml2.h:593-599 | Two C strings compare equal exactly if they are the same text. |
| `XmlText.EntitiesDecode` | cpp_try/common/tinyxml2/tinyxml2.cpp:128-135 | Each of the five names, in front of any text, stands for its character, and decoding goes on behind it. |
| `XmlText.OtherAmpersand` | cpp_try/common/tinyxml2/tinyxml2.cpp:327-346 | An ampersand in front of none of them and of no number sign stands for itself, left to right. |
| `XmlText.ReferencesDecode` | cpp_try/common/tinyxml2/tinyxml2.cpp:306-325 | A numeric reference of at most 8 hexadecimal or 9 decimal digits stands for the UTF-8 bytes of its number. |
| `XmlText.LineEndsDecode` | cpp_try/common/tinyxml2/tinyxml2.cpp:286-305 | Carriage returns, line feeds and pairs of both in either order become one line feed. |
| `XmlText.OthersDecode` | cpp_try/common/tinyxml2/tinyxml2.cpp:347-351 | Every other character stands for itself. |
| `XmlText.PrintedForms` | cpp_try/common/tinyxml2/tinyxml2.cpp:2494-2546 | The printed text of each of the five characters in attribute values and in element text. |
| `XmlText.PrintedForm` | cpp_try/common/tinyxml2/tinyxml2.cpp:2494-2546 | All other characters are printed as they are. |
| `XmlText.InPlaceIsIdeal` | cpp_try/common/tinyxml2/tinyxml2.cpp:327-346 | The in-place pass is the left-to-right decoder exactly if the write pointer stands on an ampersand whenever an unknown entity is met. |
| `XmlText.KnownEntitiesDecode` | cpp_try/common/tinyxml2/tinyxml2.cpp:327-346 | In particular it is for every text in which each ampersand starts a numeric reference or one of the five entities. |
| `XmlText.StaleExample` | cpp_try/common/tinyxml2/tinyxml2.cpp:341-345 | A text on which it is not: an entity directly before a lone ampersand; the byte that shows is the second one of the entity. |
| `XmlText.EscapeHides` | cpp_try/common/tinyxml2/tinyxml2.cpp:2494-2546 | Printed text holds no raw less-than and no raw greater-than sign, a printed attribute value no raw quote of either kind, and no NUL comes in. |
| `XmlText.DecodeUndoesEscape` | cpp_try/common/tinyxml2/tinyxml2.cpp:2494-2546 | Decoding what the printer wrote for a string gives the string with normalised line ends, and so the string itself exactly if it has no carriage return. |
| `XmlText.DecodeUndoesNothing` | cpp_try/common/tinyxml2/tinyxml2.cpp:283-305 | Without entities decoding only normalises line ends, and changes nothing exactly if there is no carriage return. |
| `XmlText.CollapseIdempotent` | cpp_try/common/tinyxml2/tinyxml2.cpp:238-264 | Collapsing twice is collapsing once, and leaves no blank at either end. |
| `XmlText.CollapseTailIsCollapse` | cpp_try/common/tinyxml2/tinyxml2.cpp:238-264 | The character-wise loop computes words joined by single spaces. |
| `XmlText.NormalizeIsIdentity` | cpp_try/common/tinyxml2/tinyxml2.cpp:286-305 | Line end processing changes nothing exactly if there is no carriage return. |
| `XmlUtil.ReferenceMeaning` | cpp_try/common/tinyxml2/tinyxml2.cpp:456-549 | For every text behind "&#": it is taken for a reference exactly if a semicolon follows and everything between the last stop character before that and the semicolon is a digit; the code is the positional value modulo 2^32, and that value itself up to 8 hexadecimal or 9 decimal digits. |
| `XmlUtil.MalformedExample` | cpp_try/common/tinyxml2/tinyxml2.cpp:482-508 | A malformed reference that is accepted, because only its tail is looked at. |
| `XmlUtil.CharacterRefValue` | cpp_try/common/tinyxml2/tinyxml2.cpp:456-549 | A well-formed reference of at most 8 hexadecimal or 9 decimal digits yields the UTF-8 bytes of its value and consumes its own text. |
| `XmlUtil.WeighIsPositional` | cpp_try/common/tinyxml2/tinyxml2.cpp:484-508 | The right-to-left scan agrees with the positional value modulo 2^32 for references of every length. |
| `XmlUtil.WeighIsExact` | cpp_try/common/tinyxml2/tinyxml2.cpp:484-508 | As long as no 32-bit step wraps the scan is the positional value. |
| `XmlUtil.ShortOutput` | cpp_try/common/tinyxml2/tinyxml2.cpp:540-545 | The bytes written for a reference of any length are no more than the bytes it occupied. |
| `XmlUtil.Utf8RoundTrip` | cpp_try/common/tinyxml2/tinyxml2.cpp:403-453 | Every code below 0x200000 decodes back through an independent decoder that refuses overlong forms, and its encoding is the only one that does. |
| `XmlUtil.ConvertUTF32ToUTF8` | cpp_try/common/tinyxml2/tinyxml2.cpp:403-453 | The backward filling with fall-through writes those bytes, and none behind them. |
| `XmlUtil.Utf8Examples` | cpp_try/common/tinyxml2/tinyxml2.cpp:403-453 | One code of each length, and one beyond. |
| `XmlUtil.DigitsAre` | cpp_try/common/tinyxml2/tinyxml2.cpp:484-530 | Which number each digit stands for. |
| `XmlUtil.NoOtherDigit` | cpp_try/common/tinyxml2/tinyxml2.cpp:484-530 | And that no other character is one. |
| `XmlUtil.PositionalStep` | cpp_try/common/tinyxml2/tinyxml2.cpp:484-530 | Another digit adds to sixteen times, or ten times, the number before it. |
| `XmlUtil.BlankIs` | cpp_try/common/tinyxml2/tinyxml2.h:571-573 | The blanks, one by one. |
| `XmlUtil.NameCharIs` | cpp_try/common/tinyxml2/tinyxml2.h:575-591 | The characters that names begin with and go on with, one by one. |
| `XmlUtil.SkipWhiteSpace` | cpp_try/common/tinyxml2/tinyxml2.h:553-567 | The position of the first character that is no blank, at most the terminating NUL. |
| `XmlPrinter.Printer.AcceptDocument` | cpp_try/common/tinyxml2/tinyxml2.cpp:2778-2835 | Visiting a whole document leaves exactly its defined print in the buffer. |
| `XmlPrinter.Printer.Accept` | cpp_try/common/tinyxml2/tinyxml2.cpp:2788-2835 | Visiting one node appends its layout and its print, and leaves depth, stack and text state as the next node needs them. |
| `XmlPrinter.Printer.OpenElement` | cpp_try/common/tinyxml2/tinyxml2.cpp:2561-2579 | What an open tag adds, with the pending end of the previous one, newline and indentation. |
| `XmlPrinter.Printer.CloseElement` | cpp_try/common/tinyxml2/tinyxml2.cpp:2633-2658 | What a closing tag adds: the short form exactly if nothing was written inside. |
| `XmlPrinter.Printer.PushAttribute` | cpp_try/common/tinyxml2/tinyxml2.cpp:2582-2590 | What an attribute adds. |
| `XmlPrinter.Printer.PushText` | cpp_try/common/tinyxml2/tinyxml2.cpp:2671-2683 | What text or a CDATA section adds, and that indentation stops in this element. |
| `XmlPrinter.Printer.PushComment` | cpp_try/common/tinyxml2/tinyxml2.cpp:2733-2745 | What a comment adds. |
| `XmlPrinter.Printer.PushDeclaration` | cpp_try/common/tinyxml2/tinyxml2.cpp:2748-2760 | What a declaration adds. |
| `XmlPrinter.Printer.PushUnknown` | cpp_try/common/tinyxml2/tinyxml2.cpp:2763-2775 | What an unknown adds. |
| `XmlPrinter.Printer.PushHeader` | cpp_try/common/tinyxml2/tinyxml2.cpp:2549-2558 | Byte order mark and XML declaration, each if asked for. |
| `XmlPrinter.Printer.PrintString` | cpp_try/common/tinyxml2/tinyxml2.cpp:2494-2546 | Copying run by run with an entity in between appends the escaped string. |
| `XmlPrinter.NodeTail` | cpp_try/common/tinyxml2/tinyxml2.cpp:2788-2835 | The print of a node does not depend on what follows it. |
| `PrintLayout.PrettyLines` | cpp_try/common/tinyxml2/tinyxml2.cpp:2486-2491 | The pretty print of a document in which no element mixes texts with other nodes: each tag, comment, declaration and unknown on its own line behind exactly four blanks for each element around it, an element with texts alone on one line, an empty line behind each element that is in no other. |
| `PrintLayout.LinesExample` | cpp_try/common/tinyxml2/tinyxml2.cpp:2486-2491 | Three elements, one in the other, as they are printed. |
| `PrintLayout.CompactPrint` | cpp_try/common/tinyxml2/tinyxml2.cpp:2561-2579 | The compact print of any document, with nothing between the nodes. |
| `PrintLayout.AttrsPrinted` | cpp_try/common/tinyxml2/tinyxml2.cpp:2582-2590 | Attributes are printed in order, each behind a blank and with its value in quotation marks; values and texts are escaped exactly when entities are processed. |
| `PrintLayout.QuoteExample` | cpp_try/common/tinyxml2/tinyxml2.cpp:2494-2546 | A quotation mark and an ampersand in a value and in a text, with and without entity processing, as they are printed. |
| `Dom.Unlink` | cpp_try/common/tinyxml2/tinyxml2.cpp:804-825 | The pointer updates of unlinking a child, wherever it stands, are the defined change of the links of all nodes, and a forest stays one. |
| `Dom.XMLDocument.InsertEndChild` | cpp_try/common/tinyxml2/tinyxml2.cpp:841-868 | A node of this document, wherever it hangs, becomes the last child, and the other children stay in order; one of another document is refused and nothing changes. |
| `Dom.XMLDocument.InsertFirstChild` | cpp_try/common/tinyxml2/tinyxml2.cpp:871-899 | A node of this document, wherever it hangs, becomes the first child, and the other children stay in order; one of another document is refused. |
| `Dom.XMLDocument.InsertAfterChild` | cpp_try/common/tinyxml2/tinyxml2.cpp:902-935 | A node becomes the child directly behind another one, and the other children stay in order; the exact condition under which the code dereferences null instead; and when it refuses. |
| `Dom.XMLDocument.InsertChildPreamble` | cpp_try/common/tinyxml2/tinyxml2.cpp:1117-1129 | Before it is linked in, a node leaves its parent, or the list of those that hang nowhere and the untracked count. |
| `Dom.XMLDocument.MarkInUse` | cpp_try/common/tinyxml2/tinyxml2.cpp:2034-2044 | Exactly this node leaves the list, by swapping with the last one. |
| `Dom.XMLDocument.CreateUnlinkedNode` | cpp_try/common/tinyxml2/tinyxml2.h:1922-1933 | A new node hangs nowhere, stands in the list once, and is counted in its pool as allocated and untracked. |
| `Dom.XMLDocument.DeleteChild` | cpp_try/common/tinyxml2/tinyxml2.cpp:828-838 | The child and all that is below it are freed, each once, and all other links stay. |
| `Dom.XMLDocument.DeleteChildren` | cpp_try/common/tinyxml2/tinyxml2.cpp:794-801 | Nothing is left below the node, and the rest of the forest is as it was. |
| `Dom.XMLDocument.DeleteUnlinked` | cpp_try/common/tinyxml2/tinyxml2.cpp:1102-1115 | The static DeleteNode on a node that hangs nowhere: it is taken from the list and freed with all that is below it. |
| `Dom.XMLDocument.DeleteNode` | cpp_try/common/tinyxml2/tinyxml2.cpp:2149-2164 | Deleting any node of the document keeps the books in order. |
| `Dom.XMLDocument.DropNode` | cpp_try/common/tinyxml2/tinyxml2.cpp:1102-1115 | The same deletion as ParseDeep calls it after an error: its pool goes on counting the node as untracked. |
| `Dom.XMLDocument.CountIsRight` | cpp_try/common/tinyxml2/tinyxml2.cpp:2068-2077 | The untracked counts are the numbers of unlinked nodes exactly if parsing has lost none. |
| `Dom.XMLDocument.Clear` | cpp_try/common/tinyxml2/tinyxml2.cpp:2047-2078 | Every node but the document is freed exactly once, no node is allocated any more, and the untracked count of each pool is what parsing has lost. |
| `Dom.XMLDocument.ClearPools` | cpp_try/common/tinyxml2/tinyxml2.cpp:2303-2310 | Clearing the pools behind a failed parse makes all counts right again. |
| `Dom.SwapRemoved` | cpp_try/common/tinyxml2/tinyxml2.h:281-289 | Removing from the list keeps it without repetitions. |
| `DomShape.UnlinkedIsForest` | cpp_try/common/tinyxml2/tinyxml2.cpp:804-825 | Unlinking a child keeps the forest. |
| `DomShape.InsertedIsForest` | cpp_try/common/tinyxml2/tinyxml2.cpp:841-935 | Linking in a root that is not above the new parent keeps the forest. |
| `DomShape.MovedKids` | cpp_try/common/tinyxml2/tinyxml2.cpp:841-935 | Moving a node changes the list of children of its old and its new parent as sequences, and no other. |
| `DomShape.MovedPlaces` | cpp_try/common/tinyxml2/tinyxml2.cpp:841-935 | A moved node stands at its new place among the children of its parent, where the others are as before. |
| `DomShape.MovedIsForest` | cpp_try/common/tinyxml2/tinyxml2.cpp:841-935 | Moving a node anywhere but below itself keeps the forest. |
| `DomShape.NothingBehind` | cpp_try/common/tinyxml2/tinyxml2.cpp:924-932 | When taking a node out leaves nothing behind another one. |
| `DomShape.DeletedIsSubtree` | cpp_try/common/tinyxml2/tinyxml2.cpp:828-838 | A node is freed with a child exactly if the child is above it or is it. |
| `DomTrees.AppendRoot` | cpp_try/common/tinyxml2/tinyxml2.cpp:841-868 | A node that hangs nowhere becomes the last child of a root, and no other list of children changes. |
| `DomTrees.InsertWhereItIs` | cpp_try/common/tinyxml2/tinyxml2.cpp:902-935 | Two children that reach the null dereference. |
| `DomClone.DeepCopy` | cpp_try/common/tinyxml2/tinyxml2.cpp:2081-2091 | The target is cleared and then says what the source says, child by child and along every path of child numbers, in fresh nodes of its own; the source is untouched; copying to itself does nothing. |
| `DomClone.DeepClone` | cpp_try/common/tinyxml2/tinyxml2.cpp:781-791 | A clone of any node but a document is a fresh root of the target that says the same. |
| `DomClone.CloneChildren` | cpp_try/common/tinyxml2/tinyxml2.cpp:781-791 | The loop over the children makes their clones, in order. |
| `DomClone.ShallowClone` | cpp_try/common/tinyxml2/tinyxml2.cpp:1927-1937 | The node itself, attributes in order, without children. |
| `DomClone.CopyAttributes` | cpp_try/common/tinyxml2/tinyxml2.cpp:1927-1937 | Setting the attributes one by one on a new element gives the same list. |
| `DomTrees.TreeStays` | cpp_try/common/tinyxml2/tinyxml2.cpp:781-791 | What a node says depends on nothing outside the nodes below it. |
| `DomTrees.SamePaths` | cpp_try/common/tinyxml2/tinyxml2.cpp:781-791 | Nodes whose trees are equal have, along every path of child numbers, nodes that say the same or none. |
| `DomParse.ParseLevel` | cpp_try/common/tinyxml2/tinyxml2.cpp:988-1100 | ParseDeep on the links: the children linked below the node are those of the definition, in order; nothing new hangs nowhere; all other nodes are linked as before; and exactly an error makes the untracked count wrong. |
| `DomParse.ReadElement` | cpp_try/common/tinyxml2/tinyxml2.cpp:1062-1097 | An element made, filled, compared with its end tag and kept or deleted; the node of a closing tag is counted as tracked and deleted. |
| `DomParse.ReadLeaf` | cpp_try/common/tinyxml2/tinyxml2.cpp:1010-1061 | A node of another kind, with the very text that was read, is kept beside the tree, or deleted after an error. |
| `DomParse.WellLocated` | cpp_try/common/tinyxml2/tinyxml2.cpp:1040-1056 | The test on the first and the last child says whether a declaration may stand here. |
| `DomParse.Parse` | cpp_try/common/tinyxml2/tinyxml2.cpp:2285-2313 | After Parse the links of the document show exactly the parsed nodes, names, attributes, texts and all, or after an error nothing; in both cases every node has a parent or stands in the list, and after an error all counts are zero. |
| `DomParse.NodesOfTrees` | cpp_try/common/tinyxml2/tinyxml2.cpp:988-1100 | From the trees of any nodes the nodes themselves can be had back, so nothing they say is lost. |
| `DomParse.TreeShows` | cpp_try/common/tinyxml2/tinyxml2.cpp:988-1100 | A node whose tree is that of a parsed node is that node by its own fields and those of its children. |
| `DomParse.LoadFile` | cpp_try/common/tinyxml2/tinyxml2.cpp:2209-2252 | After LoadFile of a readable file the links of the document show the parsed nodes; after a parse error the untracked counts are too high, exactly if the file was not blank. |
| `DomParse.LoadAfterFailure` | cpp_try/common/tinyxml2/tinyxml2.cpp:2209-2252 | A successful LoadFile behind a failed one leaves the untracked counts wrong. |
| `DomParse.LoadAfterFailureExample` | cpp_try/common/tinyxml2/tinyxml2.cpp:2209-2252 | Two texts for which that happens. |
| `DomParse.TextAloneFails` | cpp_try/common/tinyxml2/tinyxml2.cpp:1147-1171 | A text without markup is an error. |
| `MemPools.MemPool.Alloc` | cpp_try/common/tinyxml2/tinyxml2.h:374-398 | A cell that nobody uses, from the front of the free list or from a new block of 4096 bytes; idle and live cells stay a partition of all cells, and the counts and the highest count follow. |
| `MemPools.MemPool.Free` | cpp_try/common/tinyxml2/tinyxml2.h:400-411 | The cell goes to the front of the free list; null is ignored. |
| `MemPools.MemPool.Refill` | cpp_try/common/tinyxml2/tinyxml2.h:376-388 | A new block is linked into a free list without cycles. |
| `MemPools.MemPool.Use` | cpp_try/common/tinyxml2/tinyxml2.h:346-457 | What the owner of a cell writes into it does not touch the pool. |
| `MemPools.MemPool.Clear` | cpp_try/common/tinyxml2/tinyxml2.h:354-365 | Every block is released once, the last one first, and all counts are zero. |
| `MemPools.MemPool.SetTracked` | cpp_try/common/tinyxml2/tinyxml2.h:418-420 | One cell less is untracked, and nothing else changes. |
| `MemPools.CellsAreApart` | cpp_try/common/tinyxml2/tinyxml2.h:424-433 | The cells of a block do not overlap and lie inside it. |
| `MemPools.DynArray.Push` | cpp_try/common/tinyxml2/tinyxml2.h:225-230 | Appends, growing the storage when it is full. |
| `MemPools.DynArray.PushArr` | cpp_try/common/tinyxml2/tinyxml2.h:232-239 | Room for more elements behind the old ones. |
| `MemPools.DynArray.Pop` | cpp_try/common/tinyxml2/tinyxml2.h:241-245 | Takes the last element. |
| `MemPools.DynArray.PopArr` | cpp_try/common/tinyxml2/tinyxml2.h:247-250 | Takes the last elements. |
| `MemPools.DynArray.SwapRemove` | cpp_try/common/tinyxml2/tinyxml2.h:281-285 | The last element takes the place of the removed one. |
| `MemPools.DynArray.EnsureCapacity` | cpp_try/common/tinyxml2/tinyxml2.h:302-314 | Growing keeps the contents. |
| `MemPools.SwapRemoveIsRemoval` | cpp_try/common/tinyxml2/tinyxml2.h:281-285 | That removes one occurrence and nothing else. |
| `Wires.RunFromStart` | cpp_try/common/Net/NetConnection.cpp:65-142 | For two processes with new connections and every script of sends of up to 996 bytes, partial writes and deliveries cut anywhere: what each end has been handed is a prefix, in order and intact, of what the other end has accepted for sending, the bytes in between are exactly the frames of the rest, both connections stay alive, and the state is the one the script defines. |
| `Wires.Run` | cpp_try/common/Net/NetConnection.cpp:65-142 | The same for any two new connections that their managers hold. |
| `Wires.DeliverAt` | cpp_try/common/Net/NetConnectionManager.cpp:380-431 | Bytes that a connection of this kind has sent never break the receiver: no refused header, no negative size, no full buffer; every complete package is handed on and logins are answered. |
| `Wires.FlushAt` | cpp_try/common/Net/NetConnection.cpp:124-142 | What the socket takes leaves the send buffer and is on its way, in order. |
| `Wires.SubmitAt` | cpp_try/common/Net/NetConnection.cpp:65-80 | Send of at most 996 bytes queues the whole frame or nothing, and says which. |
| `Wires.RepliesKeepIntact` | cpp_try/common/Net/NetServer.cpp:126-150 | The answers of the handler keep the other direction intact. |
| `NetStream.FragmentationIsIrrelevant` | cpp_try/common/Net/NetConnectionManager.cpp:394-415 | However a stream is cut into reads, the packages handed on are those of the whole stream, and while it is in order the rest is its unfinished end. |
| `NetStream.ReceiveInTwo` | cpp_try/common/Net/NetConnectionManager.cpp:401-415 | Draining after a first piece and then after a second is draining once. |
| `NetStream.FirstOfFrame` | cpp_try/common/Net/NetConnection.cpp:94-122 | The frame of a package in front of anything is read back as that package. |
| `NetStream.FrontIsFrame` | cpp_try/common/Net/NetConnection.cpp:94-122 | A package that is found at the front is exactly its frame. |
| `NetStream.NothingIsLost` | cpp_try/common/Net/NetConnectionManager.cpp:401-415 | What has been handed on and what is left make up what had arrived. |
| `NetStream.NegativeExactly` | cpp_try/common/Net/NetConnection.cpp:94-110 | A header with a negative body size passes the check, exactly if its sign is right and the top bit of its last byte is set. |
| `NetStream.NegativeExample` | cpp_try/common/Net/NetConnection.cpp:101 | The header with body size -1 does. |
| `NetStream.NegativeStream` | cpp_try/common/Net/NetConnectionManager.cpp:401-415 | Draining a stream meets one exactly if it stands there behind whole packages. |
| `NetStream.LeftoverIsSmall` | cpp_try/common/Net/NetConnectionManager.cpp:394-400 | A drained buffer has at most 1051 bytes, so that a read of 1024 always finds room. |
| `NetStream.PrefixOfFrames` | cpp_try/common/Net/NetConnection.cpp:94-122 | Whatever prefix of serialised packages has arrived, draining hands on the packages complete in it and never anything else. |
| `NetStream.DeliveredIsPrefix` | cpp_try/common/Net/NetConnection.cpp:65-142 | End to end in one direction, for every interleaving of steps. |
| `NetStream.QuietMeansDelivered` | cpp_try/common/Net/NetConnection.cpp:65-142 | Once buffer and channel are empty, everything accepted has been delivered. |
| `NetStream.RunKeepsIntact` | cpp_try/common/Net/NetConnection.cpp:65-142 | Every run keeps the link intact. |
| `NetStream.ReadKeepsIntact` | cpp_try/common/Net/NetConnectionManager.cpp:380-431 | A read hands on the next packages owed; there is room for it, and it ends between packages. |
| `NetStream.SendKeepsIntact` | cpp_try/common/Net/NetConnection.cpp:65-87 | A refused Send adds nothing, an accepted one its frame. |
| `NetStream.PackageIs` | cpp_try/common/Net/NetConnection.cpp:65-71 | The header of what is sent holds the sign, the caller's identifier and command, the number of bytes, and zeros. |
| `NetStream.FrontIs` | cpp_try/common/Net/NetConnection.cpp:94-110 | By the bytes: when a buffer holds less than a package, when its header is wrong, and when its size is negative. |
| `NetStream.ReceiveTakesApart` | cpp_try/common/Net/NetConnectionManager.cpp:401-415 | A buffer can be taken apart into whole packages and a rest in one way, and draining does it. |
| `NetStream.LimitsAre` | cpp_try/common/Net/NetDefine.h:62-65 | The sizes of header, body, buffer and scratch array. |
| `Net.NetConnection.Send` | cpp_try/common/Net/NetConnection.cpp:65-80 | All of the frame of a package is queued, or nothing, and EPOLLOUT is asked for exactly if something waits; a body of more than 996 bytes overruns the scratch array, and no other does. |
| `Net.NetConnection.CheckRecvPackage` | cpp_try/common/Net/NetConnection.cpp:94-110 | The cached header says what the front of the buffer holds, and is read once per package. |
| `Net.NetConnection.TakeRecvPackage` | cpp_try/common/Net/NetConnection.cpp:112-122 | The package at the front is taken out, whole, and the header forgotten; the copy is undefined exactly if the size is negative. |
| `Net.NetConnection.DoSend` | cpp_try/common/Net/NetConnection.cpp:124-142 | The buffer loses exactly what the socket took, and an error is reported. |
| `Net.NetConnection.AddSendData` | cpp_try/common/Net/NetConnection.cpp:82-87 | All of the bytes are queued, or none. |
| `Net.NetConnection.AddRecvData` | cpp_try/common/Net/NetConnection.cpp:89-92 | All of the bytes are received, or none, and a cached header stays the right one. |
| `Net.OnRecvData` | cpp_try/common/Net/NetServer.cpp:126-150 | The handler takes exactly one package and answers a login if there is room; it is undefined exactly if the size is negative. |
| `Net.NetConnectionManager.SelectSocketLinux` | cpp_try/common/Net/NetConnectionManager.cpp:332-371 | For every batch of events: it is undefined exactly if some connection is then handed a negative body size. Otherwise a connection with an event is closed exactly if the event has an error, the peer has closed, recv has failed, a wrong header stands behind whole packages, or send fails while something waits; if not, it keeps what stands behind whole packages and queues an answer of 36 bytes to each login for which there is room, less what the socket takes. Every other connection is untouched; new ones are exactly the accepted sockets, and empty; the listener is gone exactly if it failed or accept did. |
| `Net.DerailsExactly` | cpp_try/common/Net/NetConnectionManager.cpp:394-415 | An event does that exactly if the bytes then in the buffer hold, behind whole packages, a header with the right sign and a negative size. |
| `Net.ServesIs` | cpp_try/common/Net/NetConnectionManager.cpp:342-360 | What an event does to a connection, by the bytes: when it is closed, and what it keeps and queues otherwise. |
| `Net.ReadCodeIs` | cpp_try/common/Net/NetConnectionManager.cpp:380-431 | The code of a read, the packages handed on and the rest, by the bytes. |
| `Net.AnswersAre` | cpp_try/common/Net/NetServer.cpp:126-150 | As many logins are answered as there is room for, each with the same 36 bytes. |
| `Net.ReplyIs` | cpp_try/common/Net/NetServer.cpp:144-148 | Those bytes. |
| `Net.DerailExample` | cpp_try/common/Net/NetConnectionManager.cpp:332-371 | A new server, one connection and 28 bytes that reach it. |
| `Net.ServeRun` | cpp_try/common/Net/NetConnectionManager.cpp:160-181 | From Init through any script of batches to Release: every socket the kernel has handed out, the listener and all that accept has yielded, has been closed exactly as often as it was handed out, and nothing is open; the run stops early exactly at a batch that is undefined. |
| `Net.DeafExample` | cpp_try/common/Net/NetListener.cpp:88-98 | One failed accept closes the listening socket. |
| `Net.EachIsServed` | cpp_try/common/Net/NetConnectionManager.cpp:340-366 | In a batch each connection is served by its own event as if there were no others. |
| `Net.NetConnectionManager.ServeBatch` | cpp_try/common/Net/NetConnectionManager.cpp:332-371 | All events are served in order, and then the sockets that failed are closed. |
| `Net.NetConnectionManager.ServeEvents` | cpp_try/common/Net/NetConnectionManager.cpp:340-361 | The loop over the events frees no connection and closes nothing; it collects exactly the sockets whose event failed, and goes no further where an event is undefined. |
| `Net.NetConnectionManager.ServeEvent` | cpp_try/common/Net/NetConnectionManager.cpp:342-360 | Errors first, then reading, then writing, until one fails; undefined exactly if the read is. |
| `Net.NetConnectionManager.CloseAll` | cpp_try/common/Net/NetConnectionManager.cpp:363-368 | Exactly the collected sockets are closed, and what the other connections hold stays. |
| `Net.NetConnectionManager.OnSocketRead` | cpp_try/common/Net/NetConnectionManager.cpp:380-431 | A read of the listener accepts; a read of a connection adds the bytes and hands on every complete package; the code is 1 when the peer has closed, 2 when recv has failed, 4 for a wrong header; all other connections are untouched. |
| `Net.NetConnectionManager.OnSocketWrite` | cpp_try/common/Net/NetConnectionManager.cpp:433-441 | What the socket takes leaves the send buffer of this connection only. |
| `Net.NetConnectionManager.OnSocketClose` | cpp_try/common/Net/NetConnectionManager.cpp:443-465 | The connection of a socket is freed and the socket closed once; a listener is stopped; an unknown socket is nothing to close. |
| `Net.NetConnectionManager.Drain` | cpp_try/common/Net/NetConnectionManager.cpp:399-415 | The loop ends, having handed on every complete package, with the code of what stopped it. |
| `Net.NetConnectionManager.AddConnection` | cpp_try/common/Net/NetConnectionManager.cpp:192-218 | The new connection is kept under its socket, is empty, is watched without EPOLLOUT, and shares nothing with the others. |
| `Net.NetConnectionManager.OnAccept` | cpp_try/common/Net/NetListener.cpp:88-124 | An accepted socket becomes a connection, or is closed again when it cannot be prepared; the code says which call failed. |
| `Net.NetConnectionManager.UpdateConnectionSend` | cpp_try/common/Net/NetConnectionManager.cpp:233-247 | EPOLLOUT is asked for exactly if the connection has something to send. |
| `Net.NetConnectionManager.Init` | cpp_try/common/Net/NetConnectionManager.cpp:160-175 | The listener is open and watched. |
| `Net.NetConnectionManager.Release` | cpp_try/common/Net/NetConnectionManager.cpp:177-181 | Every socket ever handed out has then been closed, as often as it was handed out, and every connection freed. |
| `ByteBuffers.ByteBuffer.AddData` | cpp_try/common/Util/ByteBuffer.cpp:30-40 | All of the bytes are appended, or none when there is no room. |
| `ByteBuffers.ByteBuffer.GetData` | cpp_try/common/Util/ByteBuffer.cpp:42-46 | Copies a stretch of the contents and changes nothing else; with a negative length, which the assertion lets through, the copy is undefined. |
| `ByteBuffers.ByteBuffer.RemoveData` | cpp_try/common/Util/ByteBuffer.cpp:48-57 | Drops the first bytes by moving the rest over itself. |
| `NetPackage.UnpackUndoesPack` | cpp_try/common/Net/NetPackageHeader.cpp:42-72 | Every header comes back from its 28 bytes, two's complement fields included. |
| `NetPackage.PackUndoesUnpack` | cpp_try/common/Net/NetPackageHeader.cpp:42-72 | Every block of 28 bytes comes back from the header read from it. |
| `NetPackage.HeaderLayout` | cpp_try/common/Net/NetPackageHeader.cpp:58-72 | At which of the 28 bytes each field stands, and in which order its bytes. |
| `NetPackage.NetPackageHeader.Pack` | cpp_try/common/Net/NetPackageHeader.cpp:58-72 | Writes those 28 bytes at any offset and no other byte. |
| `NetPackage.NetPackageHeader.Unpack` | cpp_try/common/Net/NetPackageHeader.cpp:42-56 | Reads them from any offset. |
| `NetPackage.NetPackageHeader.Reset` | cpp_try/common/Net/NetPackageHeader.cpp:23-35 | The header is that of a new one. |
| `DataUtil.DecodeEncode` | cpp_try/common/Util/DataUtil.cpp:18-80 | A signed integer of any width comes back from its little-endian bytes. |
| `DataUtil.EncodeDecode` | cpp_try/common/Util/DataUtil.cpp:18-80 | And its bytes from the integer. |
| `DataUtil.DecodeIs` | cpp_try/common/Util/DataUtil.cpp:18-80 | Two, four and eight bytes as sums of their values, two's complement. |
| `DataUtil.WriteUInt64` | cpp_try/common/Util/DataUtil.cpp:18-29 | Eight little-endian bytes at the index, and no other byte. |
| `DataUtil.ReadUInt64` | cpp_try/common/Util/DataUtil.cpp:31-44 | The number those bytes stand for. |
| `DataUtil.WriteUInt32` | cpp_try/common/Util/DataUtil.cpp:46-53 | Four little-endian bytes at the index, and no other byte. |
| `DataUtil.ReadUInt32` | cpp_try/common/Util/DataUtil.cpp:55-64 | The number those bytes stand for. |
| `DataUtil.WriteUInt16` | cpp_try/common/Util/DataUtil.cpp:66-71 | Two little-endian bytes at the index, and no other byte. |
| `DataUtil.ReadUInt16` | cpp_try/common/Util/DataUtil.cpp:73-80 | The number those bytes stand for. |
| `DataUtil.WriteString` | cpp_try/common/Util/DataUtil.cpp:112-137 | The bytes of the string in either form, and no other byte. |
| `DataUtil.ReadString` | cpp_try/common/Util/DataUtil.cpp:139-147 | The C string within the length, and the index behind the length; reading stays inside the array exactly if the length does or a zero comes before the end. |
| `DataUtil.UncheckedExample` | cpp_try/common/Util/DataUtil.cpp:139-147 | Five bytes with the length -1 in front, which are read past their end. |
| `DataUtil.StringRoundTrip` | cpp_try/common/Util/DataUtil.cpp:112-147 | Reading back gives the string up to its first zero, cut to the width if there is one. |
| `DataUtil.StringSurvives` | cpp_try/common/Util/DataUtil.cpp:112-147 | So with a length in front exactly the strings without zeros survive. |
| `HttpUri.Split` | cpp_try/common/Util/StringUtil.cpp:27-48 | Appends the pieces between separators; the last piece is always appended, empty or not, and an empty text has none. |
| `HttpUri.JoinUndoesSplit` | cpp_try/common/Util/StringUtil.cpp:27-48 | No piece holds the separator, and joining the pieces with it gives the text back. |
| `HttpUri.SplitUndoesJoin` | cpp_try/common/Util/StringUtil.cpp:27-48 | Pieces without the separator come back, unless there is only one empty piece. |
| `HttpUri.GetHttpParams` | cpp_try/common/Http/HttpServer.cpp:144-167 | Path and parameters as defined from the pieces; a later pair of the same key wins. |
| `HttpUri.GetHttpURI` | cpp_try/common/Http/HttpServer.cpp:169-189 | The path and, if there are parameters, the pairs in the order of the map. |
| `HttpUri.ParamsRoundTrip` | cpp_try/common/Http/HttpServer.cpp:144-189 | Clean parameters and a path without a question mark come back, in whatever order they are written. |
| `HttpUri.SurvivesExactly` | cpp_try/common/Http/HttpServer.cpp:144-189 | And no others do: they come back exactly if keys hold neither separator nor equals sign, values no separator, and the path no question mark. |
| `HttpUri.UriIs` | cpp_try/common/Http/HttpServer.cpp:144-167 | Reading a URI, by the text: without a question mark it is all path; behind the first one each piece between ampersands sets a parameter, at its first equals sign, or to itself when it has none; later pieces win. |
| `HttpUri.BuiltIs` | cpp_try/common/Http/HttpServer.cpp:169-189 | Building one, by the text. |
| `HttpUri.UriExample` | cpp_try/common/Http/HttpServer.cpp:144-167 | A query with a key twice, a piece without an equals sign and a value with one. |

## Left out

- The terminating NUL of the printer's buffer, and printing to a FILE.
- XmlPrinter.Printer.PrintString: the loop that writes at most 2^31-1 characters at a time is one write here, and the table of flagged characters is a predicate.
- XmlParser.Document.Parse: returns nodes as values whose strings are StrPairs in the buffer; how nodes are made, linked and deleted while parsing is proved in DomParse, from the same definition of parsing. Line numbers and the text of error messages are not modelled.
- DomParse.ParseLevel: the strings of a node are known when it is made; that they stay undecoded in the buffer is XmlParser's part.
- Dom.XMLDocument.InsertAfterChild: the model stops at the null dereference. Nodes of a list operation must be live, and the added node neither the parent nor above it, as the source assumes.
- Dom.XMLDocument.CreateUnlinkedNode: nodes are objects and not yet cells of MemPools.MemPool, and the attribute pool is not counted.
- DomClone.CopyAttributes: attributes are a list of values on the node; user data of documents is not copied because it is not modelled.
- StrPairs.StrPair.SetStr: flags given by the caller, SetInternedStr and static memory are left out.
- StrPairs.StringEqual: the limit on the number of characters is left out; where the source uses it, the parser model compares a prefix.
- StrPairs.StrPair.ParseText: lines are not counted.
- XmlUtil.SkipWhiteSpace: lines are not counted.
- StrPairs.StrPair.GetStr: bytes combined with a bitwise or are added, which is the same for disjoint bits.
- Net.NetConnection.Send: the model stops where the scratch array would be overrun; what the source does then is undefined.
- Net.NetConnectionManager.OnSocketRead: the model stops at a copy of negative length, where the source is undefined. Reads bring 1 to 1024 bytes, as recv does.
- Net.NetConnectionManager.OnAccept: the listener is part of the manager here, and setting it up is the outside's part.
- Net.NetConnectionManager.Release: a map is walked in any order.
- Net.OnRecvData: reading and printing the login token is left out, because it may run through what earlier packages left in a static array; DataUtil.ReadString says when such a read stays inside. The package is returned to say which one was handled.
- Net.NetConnectionManager.ServeEvents: one event per socket in a batch, as epoll_wait reports them; the limit of ten events does not matter.
- DataUtil.ReadString: what lies behind the array is not modelled, and the index behind a huge length is not wrapped.
- HttpUri.GetHttpURI: the order in which the map is walked is a parameter.
- Numeric conversions, attribute and text queries, SetValue, XMLHandle, visitors other than the printer, and file input and output of tinyxml2.
- Socket options, the wake-up bridge, the Windows branch, addresses of peers, threads.
- ReadFloat, WriteFloat, ReadDouble and WriteDouble, which copy raw memory.
- The libevent HTTP server, Lua and MySQL wrappers, queues and time, which are thin or only easy.
