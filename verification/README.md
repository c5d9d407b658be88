# Verified models of the native components under `native/mars`

This project models the self-contained native components that the Mars library
carries with it, and proves what they promise. Every component has one or more
Dafny files; `dafny verify dfyconfig.toml` verifies all of them.

| component | files | main results |
|---|---|---|
| tinyxml2 parser and printer | `xml`, `xmllexical`, `xmlwritten`, `xmlparser`, `xmlprinter`, `xmlroundtrip` | a document in any layout is read as what is written in it, markup that breaks off is refused with its error, and a printed document parses back to itself; the parser that decodes names in the buffer it is still reading delivers the tree of the grammar, in whatever order its strings are read |
| tinyxml2 strings | `text`, `xmlreferences`, `references` | text is decoded in place without overtaking its reader; what line ends, entities and references are read as, and exactly when an ampersand stays |
| tinyxml2 tree and pools | `siblings`, `mempool` | sibling lists stay well linked under every operation; free and live items are exactly those of the blocks over every run |
| HTTP/1.x | `http`, `httptext`, `httpcuts`, `httpstreams`, `httplines`, `httpfields`, `httpmessages`, `httpbodies`, `httpints`, `httpcode`, `httpparser` | exactly when the result depends on how a stream is cut and on what stands in memory behind it; messages and chunked streams, announced in whatever spelling, survive every fragmentation, as long as the lengths survive their casts |
| growable buffer | `autobuffer` | contents as a sequence under writing, reading and moving |
| long-link packets, Adler-32 | `packer`, `adler32` | packets are recovered from a stream, and every outcome is told from the bytes; the fast checksum is the defined one |
| boost rational | `numbers`, `rational` | exact arithmetic in normal form; comparison by continued fractions |
| rapidjson pool | `pool`, `allocator`, `poolruns` | blocks never overlap, resizing keeps contents, and over whole runs a block stays its owner's |
| rapidjson encodings | `utf8`, `utf16` | decoding accepts exactly RFC 3629, and streams survive in both directions |
| boost tokenizers | `tokens`, `escapedlist` | nothing is lost, lists are read back, and exactly what is refused |
| shuffle, rate limiter | `shuffle`, `ratelimit` | one pick vector for each permutation; the verdict is the count in the window |

`bytes`, `options`, `sequences` and `strings` hold what several of them share.

How the models are built: where the source computes by expressions or
recursion there are functions; where it walks a buffer, overwrites an array or
updates an object there are methods and classes. Each method is proved equal
to a specification function or states its effect outright, and what the source
promises is proved about these. Unsigned wrap-around, truncating division and
casts are written out where the code meets them. Masks and shifts of the UTF
codecs and of Adler-32 appear as quotients and remainders by powers of two.

Where code and documentation disagree, the model follows the code:

- `native/mars/comm/tinyxml2.cc:1425-1429` says duplicate attributes are not
  detected; line 1421 refuses them (`XmlWritten.DuplicateAttribute`).
- An ampersand that starts no entity is meant to stay, but lines 303-307 of the
  same file, marked as an open question there, skip it without writing it, so
  that what stands at the write position stays instead (`XmlText.DecodeIsMeaning`
  says when that is the ampersand; `XmlText.LoneAmpersandLost` is a text for
  which it is not).
- `adler32_combine` returns 65521 for a half that is 0, on two empty inputs
  for example (`Adler32.EmptyPartsDiffer`); `Adler32.CombineIsConcat` says
  exactly when it does, and what it returns can be combined again.
- The HTTP parser's result depends on the cut in three places
  (`HttpCode.CodeCutBeforeBlankLine`, `HttpCode.CodeCutAfterHeader`,
  `HttpCode.CodeCutInTrailer`).
- The HTTP parser searches for the end of a trailer behind the last chunk's size
  line, but as far as the whole buffer is long (lines 886-893 of `http.cc`), so
  it reads what stands in memory behind the contents: bytes that `Move` has left
  there, or others. And it casts the length of its buffer to `int`, so from
  2 GiB on it misses what is there. `httpcuts`, `httpstreams`, `httpmessages` and
  `httpbodies` are about a parser that looks at all of its contents and at
  nothing else; `HttpInts.ShortRecv` says exactly where the code does otherwise
  below 2 GiB, and `httpcode` has the results for the code, among them what
  happens beyond (`HttpCode.CodeBlockRoundTrip`, `HttpCode.CodeFrameRead`,
  `HttpCode.LongMessageInTwo`).
- `char_separator::reset` does not clear the flag that `operator()` sets
  (`CharSeparators.TokenizeTwice`).
- The rate limiter lets `count + 1` calls into a window of its span: for every
  count and span some do (`RateLimiting.LimitIsOverrun`), never more
  (`RateLimiting.NoMoreThanOneTooMany`), and a window stays within `count`
  exactly as `RateLimiting.WindowAfterCall` says.

Nothing here was executed; all claims are those of the verifier.

## Model

| member | source | states |
|---|---|---|
| XmlWritten.WrittenDocumentRead | native/mars/comm/tinyxml2.cc:1777-1866 | whatever is written as a document is read as what it means, without an error: whitespace in front of markup, in tags and in front of closing tags, either kind of quotes, elements closed in either way, a byte order mark, text in front |
| XmlWritten.ListRead | native/mars/comm/tinyxml2.cc:827-909 | written siblings are read in order, and reading goes on behind them, whatever follows |
| XmlWritten.NodeRead | native/mars/comm/tinyxml2.cc:558-622 | what is written as a node, whitespace in front of it included, is read as that node and no more; an element with the closing tag its children met |
| XmlWritten.ContentRead | native/mars/comm/tinyxml2.cc:1468-1492 | what stands behind the end of an opening tag is read as children and closing tag |
| XmlWritten.LeafRead | native/mars/comm/tinyxml2.cc:931-1068 | CDATA, comments, declarations and unknowns are told apart by how they start and read up to their own end, line ends folded and entities left alone |
| XmlWritten.TextRead | native/mars/comm/tinyxml2.cc:931-954 | text is read up to the next markup with the whitespace around it |
| XmlWritten.AttributeRead | native/mars/comm/tinyxml2.cc:1098-1124 | an attribute is read with whitespace around the equal sign and in either kind of quotes |
| XmlWritten.AttributesRead | native/mars/comm/tinyxml2.cc:1401-1453 | attributes with different names are read in order |
| XmlWritten.TagRead | native/mars/comm/tinyxml2.cc:1468-1492 | name, attributes and the end of an opening tag are read, whether the tag closes itself or not |
| XmlWritten.SlashedElement | native/mars/comm/tinyxml2.cc:1468-1492 | a tag with a slash in front is read with its attributes; it closes an element exactly if it does not close itself |
| XmlWritten.ClosingTag | native/mars/comm/tinyxml2.cc:827-880 | a closing tag in a list of siblings ends the list and is handed to the parent by name, with the rest behind it |
| XmlWritten.ClosingNameDecides | native/mars/comm/tinyxml2.cc:862-898 | an element is accepted exactly if the closing tag its list meets has its name; otherwise the whole parse fails as mismatched |
| XmlWritten.StrayClosingTagEndsDocument | native/mars/comm/tinyxml2.cc:827-909 | a closing tag outside every element ends the document without an error, and whatever follows it is ignored |
| XmlWritten.NothingIsNoDocument | native/mars/comm/tinyxml2.cc:1855-1864 | whitespace, or a byte order mark behind it and nothing more, is refused as empty |
| XmlWritten.BrokenInDocument | native/mars/comm/tinyxml2.cc:1777-1866 | markup that cannot be read makes a document fail with its error behind any siblings |
| XmlWritten.BrokenInElement | native/mars/comm/tinyxml2.cc:827-909 | and it cannot be read in an element, however deep |
| XmlWritten.UnclosedElement | native/mars/comm/tinyxml2.cc:827-909 | such markup is: an element whose children meet the end of the text |
| XmlWritten.UnclosedAtEnd | native/mars/comm/tinyxml2.cc:1468-1492 | an opening tag at the very end, which is taken for mismatched |
| XmlWritten.UnendedLeaf | native/mars/comm/tinyxml2.cc:931-1068 | a declaration, comment, CDATA or unknown that does not end, each with its own error |
| XmlWritten.UnendedText | native/mars/comm/tinyxml2.cc:931-954 | text that goes on to the end of the document, or ends in a single angle bracket |
| XmlWritten.NamelessTag | native/mars/comm/tinyxml2.cc:1468-1492 | a tag without a name |
| XmlWritten.BrokenTag | native/mars/comm/tinyxml2.cc:1468-1492 | a tag whose attributes break off |
| XmlWritten.UnendedTag | native/mars/comm/tinyxml2.cc:1401-1453 | as they do where nothing follows, or neither an attribute nor the end of the tag |
| XmlWritten.NoEqualSign | native/mars/comm/tinyxml2.cc:1098-1124 | at a name without an equal sign |
| XmlWritten.NoQuotedValue | native/mars/comm/tinyxml2.cc:1098-1124 | at a value without quotes, or without a closing one |
| XmlWritten.DuplicateAttribute | native/mars/comm/tinyxml2.cc:1421-1431 | and at a repeated name, wherever the first one stands, although the comment there says duplicates are not detected |
| XmlWritten.LateDeclarationRefused | native/mars/comm/tinyxml2.cc:863-872 | a declaration behind another node makes the document fail |
| XmlWritten.NestedDeclarationRefused | native/mars/comm/tinyxml2.cc:863-872 | and so does one in an element of a document that has a node already |
| XmlRoundTrip.DocumentRoundTrip | native/mars/comm/tinyxml2.cc:1777-1866 | parsing the compact printout of any printable document gives the same document, without an error |
| XmlLexical.DecodeEscaped | native/mars/comm/tinyxml2.cc:239-326 | decoding inverts escaping for every text without CR, wherever it stands and whatever follows |
| XmlLexical.ValueOfEscaped | native/mars/comm/tinyxml2.cc:1916-1962 | the value of an escaped text without CR and NUL is the text |
| XmlLexical.ValueOfUntouched | native/mars/comm/tinyxml2.cc:239-326 | text is read as it stands if it holds no CR, where line ends are folded, and no ampersand, where entities are replaced; where they are not, it may |
| XmlLexical.LinesFolded | native/mars/comm/tinyxml2.cc:252-273 | lines with CR LF, LF, CR or LF CR between them are read as the lines with LF between them, in text and values as well as in CDATA, comments, declarations and unknowns |
| XmlLexical.PredefinedEntities | native/mars/comm/tinyxml2.cc:123-128 | the five entities and what they stand for |
| XmlLexical.EntityFound | native/mars/comm/tinyxml2.cc:287-307 | an entity's text is recognised as that entity and no other |
| XmlLexical.EscapedIsFree | native/mars/comm/tinyxml2.cc:1916-1962 | no escaped character other than the ampersand occurs in what is printed |
| XmlLexical.NameAlphabet | native/mars/comm/tinyxml2.h:548-561 | what a name may start with and go on with: letters, underscore, colon and every byte above ASCII, then also digits, dot and hyphen |
| XmlLexical.NameRoundTrip | native/mars/comm/tinyxml2.cc:194-210 | a name is read up to the first character that cannot be in one |
| XmlLexical.TextRoundTrip | native/mars/comm/tinyxml2.cc:176-192 | text is read up to the first end tag, for end tags that do not overlap themselves |
| XmlReferences.TextMeans | native/mars/comm/tinyxml2.cc:239-326 | text put together of ordinary characters, line ends, entities, numeric references and ampersands in front of something that is no numeric reference is read as what these mean, up to the first NUL a reference denotes |
| XmlReferences.KeptAmpersand | native/mars/comm/tinyxml2.cc:387-474 | such an ampersand stays, and at the end of a text one in front of # is dropped |
| XmlParser.MarkName | native/mars/comm/tinyxml2.cc:194-210 | the loop marks exactly what the grammar calls a name |
| XmlParser.MarkText | native/mars/comm/tinyxml2.cc:176-192 | the loop marks the text up to the first end tag, for decoding with these flags |
| XmlParser.ReadAttribute | native/mars/comm/tinyxml2.cc:1098-1124 | walking the buffer from name to closing quote marks two disjoint spans, one behind the other, that denote the attribute of the grammar |
| XmlParser.FindAttribute | native/mars/comm/tinyxml2.cc:1224-1231 | comparing names in the buffer, which decodes those it meets, finds the name exactly if an attribute denotes it; what any string denotes stays |
| XmlParser.StringEqual | native/mars/comm/tinyxml2.h:563-574 | comparing two C strings of the buffer character by character decides equality |
| XmlParser.ReadAttributes | native/mars/comm/tinyxml2.cc:1401-1453 | the loop reads the whole attribute list and the end of the tag, or stops with the grammar's error; names decoded on the way leave every other span and all text still to be read intact |
| XmlParser.ReadNode | native/mars/comm/tinyxml2.cc:558-622 | what is read at an index of the buffer denotes the node of the grammar, its spans lie disjoint and in order between that index and the text still to be read, and nothing before it is written |
| XmlParser.ReadElement | native/mars/comm/tinyxml2.cc:1468-1492 | likewise for an element with its attributes and children, and the span of the closing tag they met |
| XmlParser.TagsDiffer | native/mars/comm/tinyxml2.cc:884-898 | reading the two names in the buffer decides whether an element lacks its closing tag or met that of another |
| XmlParser.ReadList | native/mars/comm/tinyxml2.cc:827-909 | the loop over siblings, which hands a closing tag up and compares names in the buffer, gives the grammar's result on every input, all spans of all siblings disjoint and in order |
| XmlParser.ReadDocument | native/mars/comm/tinyxml2.cc:1777-1866 | every text is refused as the grammar says, or its copy becomes a buffer of disjoint spans that together denote the document of the grammar |
| XmlParser.Read | native/mars/comm/tinyxml2.cc:239-326 | reading one string of such a buffer in place yields what it denotes and leaves every other string of the buffer what it is, decoded or not |
| XmlParser.ReadTree | native/mars/comm/tinyxml2.cc:650-655 | reading every string of a tree gives the node it denotes |
| XmlParser.ParseAndRead | native/mars/comm/tinyxml2.cc:1777-1866 | whatever strings are read after parsing, in any order and any number of times, the tree read in the end is that of the grammar |
| XmlPrinting.XMLPrinter.PrintString | native/mars/comm/tinyxml2.cc:1916-1962 | runs of ordinary characters and entities together print the escaped text |
| XmlPrinting.XMLPrinter.OpenElement | native/mars/comm/tinyxml2.cc:1974-1989 | seals a tag still open, prints the new one and pushes its name |
| XmlPrinting.XMLPrinter.CloseElement | native/mars/comm/tinyxml2.cc:2028-2049 | prints the short form exactly if nothing came since the tag was opened, else the closing tag of the name on top, and pops it |
| XmlPrinting.XMLPrinter.PushAttributes | native/mars/comm/tinyxml2.cc:1991-1996 | prints the attributes in order, values escaped |
| XmlPrinting.XMLPrinter.PushLeaf | native/mars/comm/tinyxml2.cc:2059-2134 | seals a tag still open and prints text, CDATA, a comment, a declaration or an unknown |
| XmlPrinting.XMLPrinter.Accept | native/mars/comm/tinyxml2.cc:1528-1538 | visiting a tree prints its printout and leaves the stack of open names as it was |
| XmlPrinting.PrintDocument | native/mars/comm/tinyxml2.cc:1806-1813 | a fresh printer prints exactly the printout of the document |
| XmlPrinting.PrintedElement | native/mars/comm/tinyxml2.cc:1974-2049 | an element is printed as a tag that closes itself exactly if nothing is in it, and else as tag, children and closing tag |
| XmlPrinting.PrintedAttribute | native/mars/comm/tinyxml2.cc:1991-1996 | an attribute is printed behind a blank, its value in double quotes |
| XmlPrinting.PrintedInOrder | native/mars/comm/tinyxml2.cc:1528-1538 | attributes and siblings are printed one after the other |
| XmlPrinting.EscapedExactly | native/mars/comm/tinyxml2.cc:1916-1962 | text is printed as it stands exactly if it holds no ampersand, angle bracket or, in values, quote |
| XmlText.ConvertUTF32ToUTF8 | native/mars/comm/tinyxml2.cc:344-385 | filling the bytes from the last to the first gives the encoding of every code, and nothing from 0x200000 on |
| XmlText.GetCharacterRef | native/mars/comm/tinyxml2.cc:387-474 | scanning the digits backwards with a 32-bit multiplier gives the reference as specified, and never reads past the terminator |
| XmlText.ScanBackIsSum | native/mars/comm/tinyxml2.cc:411-466 | the backward scan adds up every digit times its power of the base, of which 32 bits are kept |
| XmlText.SumIsNumeral | native/mars/comm/tinyxml2.cc:411-466 | which is the value of the numeral as long as that fits 32 bits |
| XmlText.NumericReference | native/mars/comm/tinyxml2.cc:387-474 | "&#", anything and a semicolon are a numeric reference exactly if nothing but digits stand behind the last x or #; it becomes the bytes of the code point these add up to and takes up exactly its text |
| XmlText.UnendedReference | native/mars/comm/tinyxml2.cc:387-474 | without a semicolon there is none |
| XmlText.DigitsInOrder | native/mars/comm/tinyxml2.cc:411-466 | decimal digits, hexadecimal ones of either case, and no other character has a value |
| XmlText.DecodeIsMeaning | native/mars/comm/tinyxml2.cc:239-326 | decoding in place gives the documented meaning of newlines, entities and references exactly if every ampersand that starts nothing is met where an ampersand still stands at the write position |
| XmlText.LoneAmpersandLost | native/mars/comm/tinyxml2.cc:303-307 | a concrete text for which it does not: the ampersand comes back as a leftover letter |
| XmlText.DecodeInPlace | native/mars/comm/tinyxml2.cc:239-316 | the loop writes the decoded text over what it has read, never past its reader, and touches nothing outside of the span and its terminator |
| XmlText.DecodeStep | native/mars/comm/tinyxml2.cc:239-316 | one round reads and writes one unit; what is written is no longer than what was read |
| XmlText.FindEntity | native/mars/comm/tinyxml2.cc:287-302 | the loop over the table finds the first entity that matches |
| XmlText.CollapseInPlace | native/mars/comm/tinyxml2.cc:212-237 | collapsing in place leaves the collapsed text as the C string and touches nothing outside of the old one |
| XmlText.CollapseJoinsWords | native/mars/comm/tinyxml2.cc:212-237 | the collapsed text is the words joined by single spaces |
| XmlText.ValueCollapsed | native/mars/comm/tinyxml2.cc:239-326 | with whitespace collapsed a string is the words, joined by single spaces, of what it is without |
| XmlText.StrPair.GetStr | native/mars/comm/tinyxml2.cc:239-326 | a call, the first or a later one, leaves the value of the span as a C string inside of the span and writes nowhere else; a later one writes nothing |
| CharacterReferences.CodeLayout | native/mars/comm/tinyxml2.cc:344-385 | the number of bytes for every code, none from 0x200000 on, and that they hold it six bits a byte |
| CharacterReferences.ReferenceIsUtf8 | native/mars/comm/tinyxml2.cc:344-385 | a character reference is written as the UTF-8 of RFC 3629 exactly if it names a scalar value, and then it means that value |
| XmlSiblings.XMLNode.Unlink | native/mars/comm/tinyxml2.cc:673-691 | all lists stay well linked in both directions; the child is in none of them, has no parent, and all other children keep their order |
| XmlSiblings.XMLNode.InsertChildPreamble | native/mars/comm/tinyxml2.cc:920-928 | takes a node out of the list it is in, if any |
| XmlSiblings.XMLNode.InsertEndChild | native/mars/comm/tinyxml2.cc:701-726 | a node of another document is refused without any change; otherwise all lists stay well linked, the node is removed where it was and appended here |
| XmlSiblings.XMLNode.InsertFirstChild | native/mars/comm/tinyxml2.cc:728-754 | likewise, in front |
| XmlSiblings.XMLNode.InsertAfterChild | native/mars/comm/tinyxml2.cc:756-781 | likewise, behind the given child, where `InsertAfterIsSafe` says that this is safe; a child of another parent is refused without any change |
| XmlSiblings.TakenOutIsValid | native/mars/comm/tinyxml2.cc:673-691 | the assignments of `Unlink` keep every list of the document well linked |
| XmlSiblings.PutInIsValid | native/mars/comm/tinyxml2.cc:701-781 | the assignments of an insertion keep every list of the document well linked |
| XmlSiblings.TakenOutIsRemoved | native/mars/comm/tinyxml2.cc:673-691 | and take the child out of its own list only |
| XmlSiblings.MovedIsAdded | native/mars/comm/tinyxml2.cc:701-781 | removing and inserting together put the node in exactly one list, at the place asked for |
| XmlSiblings.InsertAfterIsSafe | native/mars/comm/tinyxml2.cc:771-780 | behind a child that is not the last one, the assignments dereference no null and leave every list well linked exactly if a node is not inserted after itself nor the last child after the one before it |
| XmlSiblings.StillInside | native/mars/comm/tinyxml2.cc:771-780 | a node with another behind it still has one after the inserted node was unlinked, unless that was the last child |
| XmlSiblings.AfterLast | native/mars/comm/tinyxml2.cc:771-774 | inserting behind the last child is appending |
| XmlSiblings.InsertionKeepsForest | native/mars/comm/tinyxml2.cc:701-781 | an insertion keeps the nodes a forest exactly if the inserted node is neither the target nor one of its ancestors |
| XmlSiblings.RemovalKeepsForest | native/mars/comm/tinyxml2.cc:673-691 | a removal always does |
| XmlSiblings.AddedIsReparented | native/mars/comm/tinyxml2.cc:701-781 | the insertions change one parent only |
| MemPools.MemPool.Alloc | native/mars/comm/tinyxml2.h:349-373 | is the step of the abstract pool that takes the first free item, or the first of a new block: the item was not live, and free and live items stay disjoint and together exactly the items of the blocks |
| MemPools.MemPool.Free | native/mars/comm/tinyxml2.h:375-385 | is the step that puts a live item at the front of the free list; a null pointer changes nothing |
| MemPools.MemPool.NewBlock | native/mars/comm/tinyxml2.h:350-363 | the items of a new block are linked in order and end in null |
| MemPools.LastGivenIsTakenFirst | native/mars/comm/tinyxml2.h:349-385 | what is given back is handed out next, and then the pool is as before |
| MemPools.MemPool.Clear | native/mars/comm/tinyxml2.h:329-340 | drops all blocks and resets the counters |
| MemPools.MemPool.WriteLive | native/mars/comm/tinyxml2.h:418-425 | whatever is written into a live item, which shares its memory with the link, the pool stays sound |
| MemPools.StepIsSound | native/mars/comm/tinyxml2.h:349-385 | every step of the abstract pool keeps free and live items disjoint, together exactly the items of the blocks and as many as these hold |
| MemPools.RunIsSound | native/mars/comm/tinyxml2.h:349-385 | so does every run of such steps |
| MemPools.NeverTwice | native/mars/comm/tinyxml2.h:349-373 | after every run, the next allocation yields an item that is not live |
| HttpText.StrnStrIsFirst | native/mars/comm/http.cc:46-71 | the bounded search finds an index exactly if it is that of the first occurrence and no NUL comes before its end |
| HttpText.FoundIsStable | native/mars/comm/http.cc:46-71 | what has been found is found at the same place when more bytes follow |
| HttpText.NotYetFound | native/mars/comm/http.cc:46-71 | an occurrence that has not arrived completely is not found |
| HttpInts.SoughtIsFound | native/mars/comm/http.cc:46-71 | with the length cast to `int`, what an unbounded search finds is found exactly if it lies within what the cast leaves |
| HttpInts.SoughtBehind | native/mars/comm/http.cc:886-893 | with other memory behind the contents, a line end in the contents is found as it stands, and one that is found else does not lie in them |
| HttpText.SplitMerge | native/mars/comm/strutil.h:138-159 | splitting inverts merging of nonempty tokens that do not hold the delimiter |
| HttpText.TokensAreTokens | native/mars/comm/strutil.h:102-124 | no token is empty or holds a delimiter, and nothing but delimiters is lost |
| HttpText.StrtoullRoundTrip | native/mars/comm/http.cc:429-438 | a printed number is read back, in base 10 and 16, whatever follows that is no digit |
| HttpText.StrtolRoundTrip | native/mars/comm/http.cc:237-286 | every 32-bit status code survives printing and reading |
| HttpText.TrimOfTrimmed | native/mars/comm/strutil.cc:68-115 | trimming leaves trimmed text alone and removes the blank the printer puts in front |
| HttpText.TrimGaps | native/mars/comm/strutil.cc:68-115 | trimming drops the whitespace on either side and nothing else |
| HttpText.TokensApart | native/mars/comm/strutil.h:102-124 | a delimiter between two texts only separates their tokens |
| HttpText.SpelledNumber | native/mars/comm/http.cc:429-438 | digits of either case, with whitespace and zeros in front and anything else behind, are read as the number they spell, or as the largest if that is beyond 64 bits |
| HttpText.SignedNumber | native/mars/comm/http.cc:429-438 | with a sign or "0x" in front too; a minus wraps round |
| HttpParsers.StringStrnStr | native/mars/comm/http.cc:46-71 | the comparing loop finds the first occurrence in what the length, cast to `int`, lets it see of the memory it is pointed at |
| HttpParsers.ParserHeaders | native/mars/comm/http.cc:84-110 | the loop over header lines sets the fields in order |
| HttpParsers.Tokenizer.NextToken | native/mars/comm/strutil.h:102-124 | yields the next token and leaves the rest, or reports that there is none |
| HttpParsers.SplitToken | native/mars/comm/strutil.cc:169-177 | collects all tokens in order |
| HttpLines.RequestRoundTrip | native/mars/comm/http.cc:148-196 | a request line survives printing and reading exactly if its method and version are known ones and its URL is one nonempty word without CRLF |
| HttpLines.StatusRoundTrip | native/mars/comm/http.cc:237-286 | a status line survives, read into a fresh parser, exactly if its version is a known one and its reason is at most one word without CRLF |
| HttpLines.TokensOfLine | native/mars/comm/http.cc:160-172 | a line without CRLF is tokenised up to its CRLF |
| HttpLines.RequestDecided | native/mars/comm/http.cc:148-196 | every request line: it is taken exactly if it has three words, a known method first and a known version third, and then means these |
| HttpLines.StatusDecided | native/mars/comm/http.cc:237-286 | every status line: it is taken exactly if it has two words and a known version first; the code is the number in the second, the reason the third if it is the last |
| HttpLines.RefusedRequest | native/mars/comm/http.cc:148-196 | what a refused request line leaves behind |
| HttpLines.RefusedStatus | native/mars/comm/http.cc:237-286 | what a refused status line leaves behind |
| HttpMessages.FirstLineDecided | native/mars/comm/http.cc:745-802 | every complete first line: an error exactly if it is neither a response with known words nor a request with such; else it is taken off the buffer, and with it a blank line right behind, which leaves no header to read |
| HttpCode.CodeFirstLineRefused | native/mars/comm/http.cc:745-802 | a first line that is no known one is refused as soon as it is there |
| HttpFields.FieldsRoundTrip | native/mars/comm/http.cc:84-110 | reading the text of a header map gives the map, fields in the same order |
| HttpFields.BlankLineEnds | native/mars/comm/http.cc:519-525 | the first blank line of a message is the one behind its last field, whatever the body holds |
| HttpFields.PutKeepsSorted | native/mars/comm/http.cc:365-367 | setting a field keeps the names ascending without regard to case, and so different |
| HttpFields.GetAfterPut | native/mars/comm/http.cc:365-386 | a field reads back as set, and every field of another name is as before |
| HttpFields.PutKeepsGood | native/mars/comm/http.cc:357-367 | setting a readable field leaves a header that can be read back |
| HttpFields.LessIsTransitive | native/mars/comm/http.cc:42-44 | the order of names is transitive, and names that differ only in case stand at the same place in it |
| HttpFields.LessIsAsymmetric | native/mars/comm/http.cc:42-44 | the order of names is strict |
| HttpFields.SameNoCaseIsAlike | native/mars/comm/http.cc:42-44 | names are the same exactly if they have the same length and differ in the case of letters at most |
| HttpFields.GetIsAlike | native/mars/comm/http.cc:369-386 | a field is found under its name in any case |
| HttpFields.PutIsUpdate | native/mars/comm/http.cc:357-367 | setting a field replaces the value under the name, whose spelling stays, or adds one field; all others stay |
| HttpFields.SaidInAnyCase | native/mars/comm/http.cc:388-396 | chunks and the end with the connection are announced by name and value in any case |
| HttpFields.LengthInAnyCase | native/mars/comm/http.cc:429-438 | the length is what is spelled under its name in any case |
| HttpFields.NoLengthSaid | native/mars/comm/http.cc:429-438 | and 0 if nothing is |
| HttpFields.WrittenFieldRead | native/mars/comm/http.cc:84-110 | a header line with whitespace around name and value sets the trimmed name to the trimmed value, unless nothing at all follows the colon |
| HttpFields.BareLineRead | native/mars/comm/http.cc:84-110 | a line without a colon is name and value; one of colons sets nothing |
| HttpFields.WrittenFieldsRead | native/mars/comm/http.cc:84-110 | header lines with whitespace in them are read in order |
| HttpInts.IntPassProgresses | native/mars/comm/http.cc:744-956 | every pass of the loop that goes round again, whatever stands behind the contents, lowers the status rank, or keeps it and shortens the buffer; so every call ends |
| HttpInts.ShortRecv | native/mars/comm/http.cc:710-960 | below 2 GiB, for every state, data and memory behind it, a call does what reading the contents alone without casts would do, except that a trailer whose end has not arrived may be taken for complete; then the message ends and the buffer is empty |
| HttpInts.EndsOpen | native/mars/comm/http.cc:886-904 | that happens only where the last chunk has arrived and the end of its trailer has not |
| HttpCode.RecvKeepsConsistent | native/mars/comm/http.cc:710-960 | what the cut theorem asks of a state holds of every state calls lead to |
| HttpParsers.Parser.FirstLinePass | native/mars/comm/http.cc:745-802 | one pass over the first line: waiting, error with what was stored before it, or the line taken off the buffer |
| HttpParsers.Parser.FieldsPass | native/mars/comm/http.cc:804-839 | one pass over the header |
| HttpParsers.Parser.ChunkPass | native/mars/comm/http.cc:841-904 | one pass over a chunk or the last chunk |
| HttpParsers.Parser.LastChunkPass | native/mars/comm/http.cc:885-904 | the end of the trailer is searched for in the block and the memory behind it, as far as the length of the contents |
| HttpParsers.Parser.BodyPass | native/mars/comm/http.cc:905-944 | one pass over a body of known or open length |
| HttpParsers.Parser.Recv | native/mars/comm/http.cc:710-960 | one call leaves all fields, the contents and the bytes behind them as specified, given what stood in the block and stands behind it |
| HttpCode.CodeCutIndependence | native/mars/comm/http.cc:710-960 | for every state, every cut and whatever stands behind the contents at each call: two calls do what one with all their bytes does exactly if the cut is in none of the corners, the first call does not end early and the last one does so just if the single one does |
| HttpCode.CodeCutInTrailer | native/mars/comm/http.cc:886-904 | a failing input for every chunked header: cut in its trailer, the message ends with the first piece and leaves other bytes in the buffer than in one piece |
| HttpCuts.SizedCut | native/mars/comm/http.cc:905-944 | a body of known length can be cut anywhere |
| HttpCuts.CloseDelimitedCut | native/mars/comm/http.cc:905-944 | a body that ends with the connection can be cut anywhere but at its start, as long as no more than 4 GiB arrive at once |
| HttpCode.CodeFragmentation | native/mars/comm/http.cc:710-960 | a stream below 2 GiB that is not refused, has fields and does not end with the connection can be cut anywhere, whatever stands behind the contents, exactly if at no point a trailer waits for its end |
| HttpCode.ExposedDiffers | native/mars/comm/http.cc:886-904 | wherever one waits, there is a run that ends there too early |
| HttpCode.MessageInPieces | native/mars/comm/http.cc:710-960 | a message without trailer in any pieces that keep the buffer below 2 GiB, whatever stands behind the contents: the parser reports the end exactly with the last piece and holds what was sent |
| HttpCode.CodePrefixesWait | native/mars/comm/http.cc:745-839 | no proper prefix of such a message ends it, and none is refused exactly if first line and header are within 8 KiB and 128 KiB |
| HttpCode.CodeLimitsAreNeeded | native/mars/comm/http.cc:745-839 | a message beyond these limits is refused if it is cut badly |
| HttpCode.CodeBlockRoundTrip | native/mars/comm/http.cc:666-687 | a message with a block body that the builder writes is read back in one piece exactly if the whole message is shorter than 2^31 bytes |
| HttpCode.LongMessage | native/mars/comm/http.cc:745-839 | a message from 2^31 bytes on in one piece is refused, unless its body alone has 4 GiB |
| HttpCode.LongMessageInTwo | native/mars/comm/http.cc:666-687 | with a body just below 2^31 bytes the same message is refused in one piece and read in two |
| HttpCode.CodeBlockInPieces | native/mars/comm/http.cc:666-687 | a block body below 2^31 bytes, whose length the builder writes right, arrives in any pieces that keep the buffer below 2 GiB, with the end reported exactly at the last byte |
| HttpCode.LengthSaid | native/mars/comm/http.cc:429-438 | a length announced in any spelling, with whitespace and zeros in front and anything but digits behind, is the length |
| HttpCode.CodeSizedInPieces | native/mars/comm/http.cc:905-944 | and a body of that length arrives in any pieces that keep the buffer below 2 GiB, with the end reported exactly at the last byte |
| HttpCode.CodeSizedThenMore | native/mars/comm/http.cc:905-944 | what follows such a body stays in the buffer |
| HttpCode.CodeNoBody | native/mars/comm/http.cc:905-944 | a message that announces no body, or one of length 0, ends with its header, and what follows stays in the buffer |
| HttpCode.CodeOverlongRefused | native/mars/comm/http.cc:905-944 | a length beyond 4 GiB is refused with the header |
| HttpCode.CodeClosed | native/mars/comm/http.cc:710-719 | a body that ends with the connection, announced in any spelling, is all that came once an empty call says so |
| HttpCode.CodeEmptyCall | native/mars/comm/http.cc:710-724 | an empty call ends such a body and changes nothing else |
| HttpBodies.SizedBodyReads | native/mars/comm/http.cc:905-944 | a body of the length its header says is complete with its last byte and not before, and never waits for a trailer |
| HttpCuts.PlainCases | native/mars/comm/http.cc:905-944 | every outcome of reading a body without chunks, by what its header announces, what has been taken and what stands in the buffer |
| HttpCode.CodeFrameRead | native/mars/comm/http.cc:845-884 | a chunk that has arrived is delivered and taken off the buffer exactly if its size line lies within what the cast length lets the search see; else the parser waits |
| HttpBodies.LastChunkRead | native/mars/comm/http.cc:885-904 | the last chunk, its zero in whatever spelling, with one line of trailer, is taken off once all of it has arrived |
| HttpBodies.FrameAwaited | native/mars/comm/http.cc:845-870 | a chunk cut anywhere, its size in whatever spelling, is waited for, and not as a trailer |
| HttpBodies.SizeSaid | native/mars/comm/http.cc:845-860 | a size line may spell its size in digits of either case, with whitespace and zeros in front and whitespace or an extension behind |
| HttpBodies.BuiltIsChunk | native/mars/comm/http.cc:536-550 | what the builder writes is a chunk exactly if the data is neither empty nor of 4 GiB or more |
| HttpCode.CodeChunksRead | native/mars/comm/http.cc:841-904 | a stream of nonempty chunks below 2 GiB is delivered as their concatenation and ends with the last chunk |
| HttpBodies.ChunksAwaited | native/mars/comm/http.cc:841-904 | and is waited for as long as a byte of it is missing, never for the end of a trailer |
| HttpCode.CodeChunksInPieces | native/mars/comm/http.cc:841-904 | a chunked message, announced and with sizes in any spelling, in any pieces that keep the buffer below 2 GiB, is delivered as the concatenation of its chunks, with the end reported exactly at the last byte |
| HttpCode.CodeBuiltChunksInPieces | native/mars/comm/http.cc:536-550 | and so is one of the builder |
| HttpCode.CodeBadChunkRefused | native/mars/comm/http.cc:856-877 | a chunk of more than 4 GiB, or without CRLF behind its data, is refused |
| HttpCode.CodeCutBeforeBlankLine | native/mars/comm/http.cc:786-802 | a message without fields is never seen to end if its blank line comes in a later piece |
| HttpCode.CodeCutAfterHeader | native/mars/comm/http.cc:914-942 | a body that ends with the connection is lost if the first piece ends with the header |
| HttpParsers.Builder.HeaderToBuffer | native/mars/comm/http.cc:644-664 | writes first line, fields and blank line at the position, or fails and writes nothing without fields |
| HttpParsers.Builder.HttpToBuffer | native/mars/comm/http.cc:666-687 | completes the header for the kind of body, and writes the message |
| HttpBodies.OutputDecided | native/mars/comm/http.cc:644-687 | what the builder writes for every kind of body: nothing exactly without a body and any field, or for an empty block; else the message, announced by its length or as chunks, all other fields as they were |
| HttpParsers.AppendChunk | native/mars/comm/http.cc:542-550 | header, data and tail together are one frame |
| AutoBuffers.AutoBuffer.FitSize | native/mars/comm/autobuffer.cc:282-310 | grows to a whole number of units exactly if needed; old contents stay and new space is zero |
| AutoBuffers.AutoBuffer.AllocWrite | native/mars/comm/autobuffer.cc:50-56 | reserves room behind the position, grown by whole units, and changes the length only if asked |
| AutoBuffers.AutoBuffer.WriteAt | native/mars/comm/autobuffer.cc:85-93 | the contents are the old ones with the data written over them, and so is the block, grown if needed |
| AutoBuffers.AutoBuffer.Write | native/mars/comm/autobuffer.cc:66-69 | likewise at the position, which moves behind the data |
| AutoBuffers.AutoBuffer.Seek | native/mars/comm/autobuffer.cc:176-200 | the position is the target cut to the contents |
| AutoBuffers.AutoBuffer.SetLength | native/mars/comm/autobuffer.cc:202-208 | length and position are set |
| AutoBuffers.AutoBuffer.Read | native/mars/comm/autobuffer.cc:115-119 | yields what follows the position, as far as there is any, and moves behind it |
| AutoBuffers.AutoBuffer.Move | native/mars/comm/autobuffer.cc:157-174 | opens a zeroed gap in front, or drops a prefix and leaves all bytes behind the rest as they were; the position stays at the same byte |
| AutoBuffers.AutoBuffer.Reset | native/mars/comm/autobuffer.cc:272-280 | empties the buffer |
| AutoBuffers.SplicedTwice | native/mars/comm/autobuffer.cc:85-93 | writing two pieces one behind the other is writing their concatenation |
| AutoBuffers.SplicedAt | native/mars/comm/autobuffer.cc:85-93 | what stands where after writing |
| AutoBuffers.AutoBuffer.GrownIsLeast | native/mars/comm/autobuffer.cc:282-310 | the grown block is the smallest number of whole units that holds the length, the old bytes in front and zeros behind |
| Rationals.NormalFormIsUnique | native/mars/boost/rational.hpp:522-527 | fractions in normal form are equal exactly if their parts are |
| Rationals.SumIsNormal | native/mars/boost/rational.hpp:278-311 | dividing only by the gcd of the combined numerator and the gcd of the denominators leaves a sum in normal form with the exact value |
| Rationals.CrossReduced | native/mars/boost/rational.hpp:332-345 | crosswise reduction leaves a product in normal form with the exact value, whatever the signs |
| Rationals.InnerGcdIsGcd | native/mars/boost/rational.hpp:232-234 | the recursive remainder computation yields the gcd up to its sign, for truncating remainders |
| Rationals.IsNormalizedDecides | native/mars/boost/rational.hpp:248-253 | the test accepts exactly the normal forms |
| Rationals.Rational.Normalize | native/mars/boost/rational.hpp:544-578 | refuses exactly a zero denominator; otherwise normal form and the same value |
| Rationals.Rational.Assign | native/mars/boost/rational.hpp:257-262 | the target keeps its value when the fraction is refused |
| Rationals.Rational.AddAssign | native/mars/boost/rational.hpp:278-311 | normal form and the exact sum, also when both operands are one object |
| Rationals.Rational.SubAssign | native/mars/boost/rational.hpp:313-330 | normal form and the exact difference |
| Rationals.Rational.MulAssign | native/mars/boost/rational.hpp:332-345 | normal form and the exact product |
| Rationals.Rational.DivAssign | native/mars/boost/rational.hpp:347-374 | refuses exactly a zero divisor; otherwise normal form and the exact quotient |
| Rationals.Rational.AddInteger | native/mars/boost/rational.hpp:185 | adds an integer; the denominator stays |
| Rationals.Rational.SubInteger | native/mars/boost/rational.hpp:186 | subtracts an integer; the denominator stays |
| Rationals.Rational.MulInteger | native/mars/boost/rational.hpp:377-387 | normal form and the exact product with an integer |
| Rationals.Rational.DivInteger | native/mars/boost/rational.hpp:389-410 | refuses exactly zero; otherwise normal form and the exact quotient by an integer |
| Rationals.Rational.LessThan | native/mars/boost/rational.hpp:413-495 | the continued-fraction loop ends and decides the order of the two fractions |
| Rationals.Rational.Equals | native/mars/boost/rational.hpp:522-527 | comparing the parts decides equality of the values |
| Rationals.Rational.LessThanInteger | native/mars/boost/rational.hpp:497-513 | decides the order of a fraction and an integer |
| Rationals.Rational.GreaterThanInteger | native/mars/boost/rational.hpp:515-519 | likewise, the other way round |
| Rationals.QuotientsDecide | native/mars/boost/rational.hpp:444-455 | different floor quotients decide the order |
| Rationals.RemaindersDecide | native/mars/boost/rational.hpp:457-495 | with equal ones the reciprocals of the remainders do, the other way round |
| Rationals.FloorCycle | native/mars/boost/rational.hpp:434-441 | adding the denominator back to a negative truncated remainder yields floor quotient and remainder |
| Numbers.Bezout | native/mars/boost/rational.hpp:290-311 | the gcd divides both numbers and is a combination of them |
| Numbers.GcdIsGreatest | native/mars/boost/rational.hpp:290-311 | a number divides both exactly if it divides their gcd |
| Adler32.Compute | native/mars/comm/adler32.c:90-154 | the function equals the byte-at-a-time definition of RFC 1950 for every input, start value and both reductions, exactly if the two agree on a start half that is not reduced; a null buffer gives 1 |
| Adler32.ReducedStartAgrees | native/mars/comm/adler32.c:90-154 | they agree for every reduced start value |
| Adler32.OneByte | native/mars/comm/adler32.c:94-104 | the branch for one byte |
| Adler32.FewBytes | native/mars/comm/adler32.c:107-117 | the branch for fewer than 16 bytes, with one subtraction for the first half |
| Adler32.ManyBytes | native/mars/comm/adler32.c:119-153 | blocks of NMAX bytes and the unrolled remainder |
| Adler32.Block | native/mars/comm/adler32.c:119-130 | one block: deferred sums that fit 32 bits, then one reduction |
| Adler32.FoldIsReducedRaw | native/mars/comm/adler32.c:119-153 | deferring every reduction to the end computes the definition |
| Adler32.LimitIsWorstCase | native/mars/comm/adler32.c:11-12 | the bounds on the deferred sums hold for every input and are reached by bytes of 255 |
| Adler32.NmaxIsTight | native/mars/comm/adler32.c:11-12 | NMAX is exactly the largest block that cannot overflow |
| Adler32.ModLadder | native/mars/comm/adler32.c:34-70 | the ladder of subtractions is the remainder for every 32-bit value |
| Adler32.Mod4Ladder | native/mars/comm/adler32.c:71-83 | the short ladder is the remainder exactly below 32 * BASE |
| Adler32.ChecksumConcat | native/mars/comm/adler32.c:90-154 | a checksum is a valid start value: checksumming can be resumed |
| Adler32.Combine | native/mars/comm/adler32.c:157-178 | no intermediate sum wraps, for checksums as these functions return them, and each half is the joined half with BASE in place of 0 |
| Adler32.JoinedIsConcat | native/mars/comm/adler32.c:157-178 | joining the reduced halves of two checksums gives those of the concatenation |
| Adler32.CombineIsConcat | native/mars/comm/adler32.c:157-178 | combining what stands for two checksums gives what stands for that of the concatenation, equal to it exactly if neither half joined from the arguments is zero |
| Adler32.EmptyPartsDiffer | native/mars/comm/adler32.c:157-178 | a failing input: two empty parts, whose zero half comes back as BASE |
| Adler32.AllPartsCombined | native/mars/comm/adler32.c:157-178 | results can be combined again: the checksums of any number of parts, combined one after the other, stand for that of the whole |
| Adler32.SingleByteDetected | native/mars/comm/adler32.c:90-154 | changing any one byte of an input of any length changes its checksum |
| LongLinkPacker.Pack | native/mars/comm/basepacker.cc:161-196 | writes exactly the packet at the position |
| LongLinkPacker.HashInTwoParts | native/mars/comm/basepacker.cc:183-188 | the hash taken over url and then payload is the hash of both in one pass |
| LongLinkPacker.TwoPartHash | native/mars/comm/basepacker.cc:183-188 | for every url and payload, without meeting an exceptional start value |
| LongLinkPacker.Unpack | native/mars/comm/basepacker.cc:198-240 | the checks in order; the payload is written on success only |
| LongLinkPacker.RoundTrip | native/mars/comm/basepacker.cc:161-240 | a packet is recovered from the front of a stream exactly if its total length is at most 1 MiB |
| LongLinkPacker.PrefixContinues | native/mars/comm/basepacker.cc:198-240 | a packet cut short asks for exactly what is missing: header, url or payload |
| LongLinkPacker.StreamRoundTrip | native/mars/comm/basepacker.cc:198-240 | any number of packets followed by a part of one: all are recovered in order and the part is left over |
| LongLinkPacker.CorruptionDetected | native/mars/comm/basepacker.cc:226-233 | changing one byte of url or payload is refused exactly if the packet carries a nonzero hash |
| LongLinkPacker.OutcomeInBytes | native/mars/comm/basepacker.cc:198-240 | every outcome, for every input, in terms of its bytes: among them that byte 0 must be the low byte of the sum of bytes 2, 3 and 7 |
| LongLinkPacker.DeliveredBytes | native/mars/comm/basepacker.cc:198-240 | what is delivered, for every input: the bytes between the lengths the header spells |
| LongLinkPacker.ChangedHeaderRefused | native/mars/comm/basepacker.cc:214-215 | changing byte 0, 2, 3 or 7 of anything accepted or waited for is refused |
| LongLinkPacker.PacketInBytes | native/mars/comm/basepacker.cc:161-196 | every byte of what is sent |
| LongLinkPacker.HashMatches | native/mars/comm/basepacker.cc:226-233 | the hash is that of url and payload together, and a hash of 0 is not checked |
| LongLinkPacker.WireRoundTrip | native/mars/comm/basepacker.cc:161-182 | a header survives being written to the wire in network order |
| PoolLayouts.BlocksAreDisjoint | native/mars/rapidjson/allocators.h:145-249 | different blocks share no byte, in whatever chunks they lie |
| PoolLayouts.MallocIsSafe | native/mars/rapidjson/allocators.h:176-188 | fails exactly for size 0 and without memory, and then changes nothing; otherwise a block of its own of at least the size, and every other block stays |
| PoolLayouts.MallocTakesFrom | native/mars/rapidjson/allocators.h:176-188 | takes from the head chunk if that has room, behind its last block, and else from a new chunk of the usual capacity or more |
| PoolLayouts.OnlyTheLastLooksLast | native/mars/rapidjson/allocators.h:205-206 | the comparison of the pointer holds exactly for the last block of the head chunk with the aligned size it has |
| PoolLayouts.ReallocIsSafe | native/mars/rapidjson/allocators.h:191-222 | fails exactly for size 0, and without memory when the block neither stays nor fits into the head chunk, and then changes nothing; it stays exactly if it does not grow or is the last with room behind it; otherwise the block has a place of its own; it has at least the new size, and every other block stays |
| PoolLayouts.ReallocNullIsSafe | native/mars/rapidjson/allocators.h:192-193 | of a null pointer: fails exactly for size 0 and without room and memory, and then changes nothing; otherwise a block of its own of at least the size, every other block stays and nothing is copied |
| PoolLayouts.ReallocAddsUp | native/mars/rapidjson/allocators.h:191-222 | adds to the reported size what a block grows by where it is, all of one that moves, and else nothing |
| PoolLayouts.RunIsValid | native/mars/rapidjson/allocators.h:145-249 | in every run of calls, at every point, blocks lie inside of one chunk each, chunks hold no more than their capacity and none overlap |
| PoolRuns.BlockSurvives | native/mars/rapidjson/allocators.h:145-249 | in every run without `Clear`, whatever is written elsewhere, a block stays one at its address and keeps its bytes until its owner writes to it |
| PoolRuns.HandedOutIsApart | native/mars/rapidjson/allocators.h:176-222 | what `Malloc` hands out in such a run, or `Realloc` of a null pointer or by moving a block, shares no byte with a block handed out before |
| PoolLayouts.MallocAddsUp | native/mars/rapidjson/allocators.h:158-188 | every successful allocation adds its aligned size to the reported size, and its chunk, if it needs one, to the capacity |
| PoolLayouts.TotalsInOrder | native/mars/rapidjson/allocators.h:158-173 | and the size never exceeds the capacity |
| PoolLayouts.StartsDiffer | native/mars/rapidjson/allocators.h:176-188 | no two blocks have the same address |
| PoolAllocators.MemoryPoolAllocator.Malloc | native/mars/rapidjson/allocators.h:176-188 | list of chunks and pointer are as specified |
| PoolAllocators.MemoryPoolAllocator.Realloc | native/mars/rapidjson/allocators.h:191-222 | list of chunks and pointer are as specified; a block that moves takes its contents along, and no byte of any block changes |
| PoolAllocators.MemoryPoolAllocator.AddChunk | native/mars/rapidjson/allocators.h:237-250 | a new head chunk in the memory the base allocator answered with, or no change |
| PoolAllocators.MemoryPoolAllocator.Clear | native/mars/rapidjson/allocators.h:145-153 | drops all chunks but the user's buffer, which becomes empty |
| PoolAllocators.MemoryPoolAllocator.Size | native/mars/rapidjson/allocators.h:168-173 | the sum of the reserved bytes of all chunks |
| PoolAllocators.MemoryPoolAllocator.Capacity | native/mars/rapidjson/allocators.h:158-163 | the sum of the capacities of all chunks |
| Utf8.Encode | native/mars/rapidjson/encodings.h:102-122 | puts the bytes of the code point |
| Utf8.EncodedIsWellFormed | native/mars/rapidjson/encodings.h:102-122 | what is put is a sequence of RFC 3629 exactly if the code point is no surrogate, and then it means the code point |
| Utf8.WellFormedIsEncoded | native/mars/rapidjson/encodings.h:146-176 | every sequence of RFC 3629 means a scalar value and is the only encoding of it |
| Utf8.Masks | native/mars/rapidjson/encodings.h:204-220 | the masks tell the ranges of tail bytes apart |
| Utf8.Decode | native/mars/rapidjson/encodings.h:146-176 | succeeds exactly on a sequence of RFC 3629 (or at the end of the stream, with 0), yields its code point and takes as many bytes as the first announces |
| Utf8.Validate | native/mars/rapidjson/encodings.h:179-201 | the same verdict as decoding, with the bytes copied |
| Utf8.StreamRoundTrip | native/mars/rapidjson/encodings.h:102-176 | decoding inverts encoding on every list of scalar values |
| Utf8.StreamIsCanonical | native/mars/rapidjson/encodings.h:102-176 | what is decoded are scalar values, and encoding them gives exactly the stream |
| Utf8.DecodeStream | native/mars/rapidjson/encodings.h:146-176 | call after call decodes exactly the streams that are well-formed throughout |
| Utf16.Encode | native/mars/rapidjson/encodings.h:276-289 | puts one unit or a surrogate pair |
| Utf16.EncodedIsWellFormed | native/mars/rapidjson/encodings.h:276-289 | what is put is well-formed and means the scalar value |
| Utf16.WellFormedIsEncoded | native/mars/rapidjson/encodings.h:307-322 | every well-formed sequence is the only encoding of a scalar value |
| Utf16.Decode | native/mars/rapidjson/encodings.h:307-322 | succeeds exactly on a well-formed sequence (or at the end of the stream, with 0) and yields its code point |
| Utf16.Validate | native/mars/rapidjson/encodings.h:325-338 | the same verdict, with the units copied |
| Utf16.StreamRoundTrip | native/mars/rapidjson/encodings.h:276-322 | decoding inverts encoding on every list of scalar values |
| Utf16.StreamIsCanonical | native/mars/rapidjson/encodings.h:276-322 | encoding what was decoded gives exactly the stream |
| Utf16.DecodeStream | native/mars/rapidjson/encodings.h:307-322 | call after call decodes exactly the streams that are well-formed throughout |
| Utf16.PutUnit | native/mars/rapidjson/encodings.h:366-406 | puts a unit in either byte order |
| Utf16.TakeUnit | native/mars/rapidjson/encodings.h:351-389 | takes a unit in either byte order |
| Utf16.ByteOrderRoundTrip | native/mars/rapidjson/encodings.h:351-406 | units survive being written as bytes in either order |
| Utf16.ByteStreamRoundTrip | native/mars/rapidjson/encodings.h:276-406 | and so do scalar values, in UTF-16LE and UTF-16BE |
| Utf16.TakeUnits | native/mars/rapidjson/encodings.h:351-389 | call after call takes the units of a byte stream, a last odd byte completed by zero |
| Utf16.PutUnits | native/mars/rapidjson/encodings.h:366-406 | call after call puts the bytes of a list of units |
| Utf16.DecodeByteStream | native/mars/rapidjson/encodings.h:307-389 | a byte stream decoded in the order it was encoded in gives back the scalar values |
| Utf16.Transcode | native/mars/rapidjson/encodings.h:658-666 | one code point is transcoded, or the failure of decoding is reported |
| Utf16.TranscodeStream | native/mars/rapidjson/encodings.h:658-666 | a stream is transcoded exactly if it is well-formed throughout |
| Utf16.TranscodingIsIdentity | native/mars/rapidjson/encodings.h:658-666 | from UTF-8 to UTF-16 and back is the identity on well-formed streams |
| Utf16.TranscodingBackIsIdentity | native/mars/rapidjson/encodings.h:658-666 | and from UTF-16 to UTF-8 and back |
| CharSeparators.CharSeparator.Next | native/mars/boost/token_functions.hpp:458-529 | one call in either mode yields token, next position and flag as specified |
| CharSeparators.KeepingProgress | native/mars/boost/token_functions.hpp:493-526 | every call that yields a token takes input or settles the flag, so the calls come to an end |
| CharSeparators.Run | native/mars/boost/token_functions.hpp:458-529 | in either mode one call after the other, until one yields nothing; if empty tokens are kept the last call leaves the flag set |
| CharSeparators.Tokenize | native/mars/boost/token_functions.hpp:458-529 | the calls of a fresh separator yield the fields between delimiters and the kept delimiters |
| CharSeparators.FreshRunSplits | native/mars/boost/token_functions.hpp:493-526 | a fresh separator that keeps empty tokens yields the fields between delimiters and the kept delimiters |
| CharSeparators.SplitIsLossless | native/mars/boost/token_functions.hpp:493-526 | that are 1 + dropped + 2 * kept tokens, from which the input can be put together again |
| CharSeparators.TokenizeTwice | native/mars/boost/token_functions.hpp:453-529 | a second run of the same separator, which `reset` does not change, loses its first field exactly if that is empty, whatever the first run read |
| CharSeparators.UsedRunLosesEmptyField | native/mars/boost/token_functions.hpp:493-526 | the tokens of a run that starts with the flag set |
| CharSeparators.DroppingRunSplits | native/mars/boost/token_functions.hpp:468-491 | dropping empty tokens yields exactly the others, in order |
| EscapedLists.EscapedListSeparator.Next | native/mars/boost/token_functions.hpp:162-199 | one call yields the next field, the end or the exception, and keeps whether a separator ended the field |
| EscapedLists.ScanWritten | native/mars/boost/token_functions.hpp:127-199 | a field written of plain, escaped and quoted characters in any mix is scanned as what they mean |
| EscapedLists.ListRead | native/mars/boost/token_functions.hpp:162-199 | a written list is read back, the last empty field included |
| EscapedLists.ListRoundTrip | native/mars/boost/token_functions.hpp:162-199 | a written list, in any dialect, is read back exactly if it is not one field of which nothing is written |
| EscapedLists.EveryFieldWritten | native/mars/boost/token_functions.hpp:127-199 | every field, whatever its characters, can be written |
| EscapedLists.BrokenListRefused | native/mars/boost/token_functions.hpp:127-149 | an escape character with nothing behind it, or with something that is no n, quote, separator or escape, makes the call throw |
| EscapedLists.FailsExactly | native/mars/boost/token_functions.hpp:127-199 | and nothing else does: reading throws exactly if the text is a written list up to such a place |
| Shuffling.RandomShuffle | native/mars/comm/shuffle.h:11-19 | the loop applies the swaps its random numbers pick |
| Shuffling.ShuffledIsPermutation | native/mars/comm/shuffle.h:11-19 | a shuffle only reorders |
| Shuffling.ShuffleIsInjective | native/mars/comm/shuffle.h:11-19 | different picks shuffle distinct elements differently |
| Shuffling.EveryPermutationOnce | native/mars/comm/shuffle.h:11-19 | every permutation of distinct elements comes from exactly one vector of picks |
| Shuffling.EveryPickOccurs | native/mars/comm/shuffle.h:15-17 | every vector of picks comes from some random numbers |
| RateLimiting.CommFrequencyLimit.Check | native/mars/comm/comm_frequency_limit.cc:34-59 | verdict and record as specified, the clock set back included |
| RateLimiting.CommFrequencyLimit.DelOlderTouchTime | native/mars/comm/comm_frequency_limit.cc:61-71 | drops the leading times that are out of the window |
| RateLimiting.RecordIsBounded | native/mars/comm/comm_frequency_limit.cc:34-59 | whatever the clock does, the record holds no more than count + 1 times |
| RateLimiting.RecordIsTail | native/mars/comm/comm_frequency_limit.cc:34-71 | while the clock does not run backwards, the record is the latest passed times, all those in the window included |
| RateLimiting.WindowDecides | native/mars/comm/comm_frequency_limit.cc:34-59 | and a call passes exactly if no more than count calls passed in the closed window before it |
| RateLimiting.NoMoreThanOneTooMany | native/mars/comm/comm_frequency_limit.cc:34-59 | so no closed window that ends at a call holds more than count + 1 passed calls |
| RateLimiting.WindowAfterCall | native/mars/comm/comm_frequency_limit.cc:34-59 | the window that ends at a passed call stays within count exactly if fewer than count passed calls were in it before |
| RateLimiting.LimitIsOverrun | native/mars/comm/comm_frequency_limit.cc:34-59 | for every count and span, count + 1 calls at one time all pass and lie in one window |
| RateLimiting.SetBackFails | native/mars/comm/comm_frequency_limit.cc:36-52 | a clock set back behind a full record makes the call fail |
| RateLimiting.SetBackRestarts | native/mars/comm/comm_frequency_limit.cc:36-52 | it moves every recorded time to just before now; the call passes exactly if the record is not full |
| RateLimiting.SetBackBlocks | native/mars/comm/comm_frequency_limit.cc:36-59 | and behind a full record calls fail for the span, counted from there |

## Left out

- XmlRoundTrip.DocumentRoundTrip: compact printing and whitespace-preserving parsing only; pretty-printed whitespace, the byte order mark on output, and values with CR (which parsing folds to LF) or NUL do not survive in the source either; nor do texts of whitespace only, texts next to each other, and text at the end of a document.
- XmlParser.ReadDocument: entities are processed and whitespace is kept, as by default; the strings kept for error reports, and the nodes and pools of a refused document, are not part of it. The nodes form a tree of values over the buffer; how they are linked is in `XmlSiblings`.
- XmlParser.ReadList: the closing tag is handed to the parent as the same `StrPair`, not moved into another one.
- XmlPrinting.XMLPrinter.OpenElement: compact mode only, without depth, first-element flag, indentation and line breaks; so are the pushes.
- XmlPrinting.XMLPrinter.CloseElement: compact mode only, likewise.
- XmlPrinting.XMLPrinter.PushLeaf: compact mode only, likewise.
- XmlReferences.TextMeans: not for text with an ampersand that starts neither an entity nor "&#"; `XmlText.DecodeIsMeaning` says exactly when that one stays.
- XmlText.GetCharacterRef: the sum of type `unsigned long` is unbounded, the 32-bit multiplier is not.
- XmlSiblings.XMLNode.InsertAfterChild: not for inserting a node after itself, or the last child after the one before it, which the source does not refuse; `XmlSiblings.InsertAfterIsSafe` shows that these, and only these, end in a node that is its own sibling or in a null dereference.
- XmlSiblings.XMLNode.InsertChildPreamble: without the pool's counter of untracked nodes.
- XmlSiblings.XMLNode.Unlink: the assignments are grouped into small methods; deleting nodes and the pools' tracking counter are not part of it.
- MemPools.MemPool.Alloc: `SetTracked`, which only lowers a counter, is not part of the class.
- tinyxml2: declarations other than the first node, number formatting, `DynArray`, shallow cloning and comparison, element search by name, files.
- HttpInts.IntPassProgresses: calls made after an error are not part of the model; in the source they do not return.
- HttpParsers.Parser.Recv: the overload on an `AutoBuffer`, `consumed_bytes`, `only_parse_header`, the 4 KiB copy of the header and a missing body receiver are not part of it. What stands in memory behind the block is a parameter; that reading it may fault is not modelled.
- HttpParsers.StringStrnStr: for a length that turned negative, `strnlen` looks for a NUL beyond the buffer before nothing is searched; that reading is not part of the model.
- HttpParsers.Tokenizer.NextToken: with one delimiter character, as the first lines use it.
- HttpParsers.SplitToken: with one delimiter character, likewise.
- HttpParsers.Builder.HttpToBuffer: providers that fail to deliver what they announce are not part of it.
- HttpCode.CodeCutIndependence: for buffers below 2 GiB, which is where the casts change nothing.
- HttpCode.MessageInPieces: for bodies that `HttpCode.CodeSizedInPieces` and `HttpCode.CodeChunksInPieces` describe, without trailers; what one does that is cut is in `HttpCode.CodeCutIndependence`.
- HttpCode.CodeBlockInPieces: the first line's URL or reason and all fields must be such as survive by themselves (`HttpLines.RequestRoundTrip`, `HttpLines.StatusRoundTrip`, `HttpFields.FieldsRoundTrip`), and the fields must not announce chunks.
- HTTP: cookies, ranges, keep-alive, URL parsing, body providers other than what they write.
- `strtoull`, `strtol`, `snprintf`, `strcasecmp`, `memcpy`, `memmove` and `integer::gcd` are modelled by what the C and C++ standards say of them.
- AutoBuffers.AutoBuffer.FitSize: a failing `realloc` is not part of it.
- AutoBuffers.AutoBuffer.Read: at the current position only; attaching and detaching raw memory and failing allocation are not part of the model.
- Adler32.Combine: for halves up to 65521, as these functions return them.
- LongLinkPacker.Unpack: the overload on a `PtrBuffer`, and the `SimplePack` family, are not part of it.
- Rationals.Rational.LessThan: components are unbounded integers; streams, absolute value and the gcd and lcm of rationals are not part of the model.
- PoolAllocators.MemoryPoolAllocator.Malloc: sizes are unbounded and alignment is that of 64-bit platforms; what the base allocator answers is a parameter that must be memory nobody uses.
- Utf8.Decode: the input stream gives zeros at its end, as `MemoryStream` does; byte order marks, UTF-32, ASCII and `AutoUTF` are not part of the model.
- CharSeparators.DroppingRunSplits: for disjoint sets of kept and dropped delimiters; otherwise a character in both is skipped or kept depending on where it stands.
- CharSeparators.CharSeparator.Next: for iterators that can be assigned from, not for input iterators.
- EscapedLists.EveryFieldWritten: for dialects with an escape character in which 'n' is an ordinary character; in others a newline or an 'n' may have no spelling.
- Shuffling.RandomShuffle: the random numbers are a parameter; that the remainder of a 64-bit number is not exactly uniform is not modelled.
- RateLimiting.WindowDecides: the time is a parameter.
- Logging, assertions, the Flutter and Swift layers, build scripts, sockets, files, threads, and the remaining headers of boost and rapidjson.
