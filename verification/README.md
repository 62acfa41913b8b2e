# Verified models of Mini-XML and the OS layer

This project models, in Dafny, the two libraries of the repository that hold real algorithms, and proves
properties of the models. Nothing here runs the C code: the C functions are restated in Dafny, branch by branch,
and the statements are proved about those restatements, for all inputs, runs and reachable states.

**Mini-XML (`testlib/aslxml`)**

- `CStrings`, `XmlTree`, `Entities`, `Utf8`: C strings and `strcmp`, tree values, the entity table with its binary
  search, and the UTF-8 codec. `Buffers` and `Readers` hold the growing buffer, the string sink and the two
  input readers as objects with mutable state.
- `Writer` and `Loader` say, as functions, what `mxml_write_node` emits and what `mxml_load_data` builds.
- `Markup` and `MarkupTree` are a grammar of XML text, stated apart from both: characters and references, values
  in either quotes or none, white space around the equals sign, `<b/>` and `<b />`, comments, CDATA sections,
  processing instructions, declarations, whole documents, and the tree that each denotes under each load callback.
  The loader builds that tree for every text so spelled (`MarkupTree.LoadDocument`), and `Accepted` proves the
  converse, tag by tag, for input without failed reads: what the loader accepts is spelled so, everything else is
  refused (of declarations, those that do not end are).
- `Documents` proves that what the writer emits is such text (`Spelling` has the characters), and `Columns` where it
  breaks lines, measured on the text; it also spells out what is written for names and attributes that the round trip
  leaves out. `RoundTrip` says what loading a saved document gives, with every load callback that goes by name and
  attributes and without one, and when that is the document. `Nesting` proves the loader's stack discipline for every
  input.
- `Forest` (values) and `NodeTree` (linked nodes) hold the node tree and `mxmlAdd`, `mxmlRemove`, `mxmlDelete`,
  `mxml_new`; `Walk` and `TreeSearch` the walks and the search; `IndexSort`, `IndexFind` and `Index` the index.
- `TreeValue` gives the tree value of linked nodes. `TreeWrite` writes linked nodes; `Reading` and `TreeLoad` are
  `mxml_get_entity`, `mxml_parse_element` and `mxml_load_data` as loops over an input, a buffer and linked nodes,
  each proved to do what the functions of `Writer` and `Loader` say. `SaveLoad` puts both ends together.
  `Attributes` is the attribute array.

**OS layer (`testproject/os`)**

- `Semaphore` is the semaphore as a protocol of atomic steps over any number of threads; `SemaphoreHistory` says what
  the moves of a run alone tell about it (which acquires succeeded, which timed out, who owns it); `SemaphoreData` has
  its critical sections as methods on the shared arrays.
- `Marks`, `Registry` and `RoundRobin` are the mark bitmaps, the registry of names and the table of remote calls.
- `HeapTable` is the descriptor table of the debug heap.

Imperative code is a class or a method with loops whose `ensures` equates the new state with a function of the old
one; what the source promises is then proved about those functions. Sorted rows of the entity table are copied from
`mxml-entity.c`; their order is proved, not assumed.

Where a natural claim is false of the code, the exact condition is proved instead:

- A saved document loads as itself if and only if the data in each element is of the kind the loader makes there
  (`RoundTrip.RoundTripIff`; `RoundTrip.LoadSaved` says what every other document loads as). As opaque data: no text
  nodes, no data that is empty or next to other data. As words: no opaque data, no white space in a word, white space
  between neighbouring words, white space alone only before a tag, and only if such nodes are not switched off. A root
  without an end tag (a processing instruction or declaration) must not end in data that would need a tag after it.
- `MXML_TEXT_CALLBACK` is documented to "treat all data as text". It is NULL, and without a load callback and a top
  node that is true only under a root without an end tag. Under any other root all data is dropped: a document comes
  back as its elements alone (`RoundTrip.DataLost`, with an example in `RoundTrip.WordLost`).
- Signalling only when the flag leaves 0 never loses a wake-up if and only if the maximum is at most 1
  (`Semaphore.LostWakeupIff`, with a losing run in `Semaphore.LostWakeup`).
- Searching an index for values alone is complete, whatever the value, if and only if the values do not fall along
  the index or it has at most two entries (`IndexFind.ValueCompleteIff`). So it is complete on all sorted indexes over
  a set of element names if and only if the set has at most one name (`IndexFind.ValueFindsAllIff`, with three
  entries of which one is missed in `IndexFind.ValueMissed`).
- The loader accepts some texts that are no XML: a root that is never closed (`MarkupTree.LoadUnclosed`), a tag that
  the end of the input cuts off right after its name (`Accepted.ElementIff`) or in a close tag (`Accepted.CloseCut`),
  tags without a name, and equals signs after an unquoted value. The grammar includes them where it can; the exact
  conditions are in `Accepted`.

The header of `mxmlIndexFind` speaks of the next matching node without that restriction, and a comment in
`mxml-index.c` says "exactly 0 or 1 matches" where there may be two; here as with `MXML_TEXT_CALLBACK` (`mxml.h:51`,
`mxml-file.c:2083-2094`) the model follows the code.

## Model

| member | source | states |
|---|---|---|
| CStrings.StrCmpTransitive | testlib/aslxml/mxml-index.c:519-534 | the order `strcmp` gives to names and values is transitive, strictly if either step is strict |
| CStrings.StrCmpAntisymmetric | testlib/aslxml/mxml-index.c:519-534 | comparing the other way round gives the opposite sign |
| CStrings.StrCmpZero | testlib/aslxml/mxml-index.c:519-534 | `strcmp` is 0 exactly for equal strings |
| Entities.Search | testlib/aslxml/mxml-entity.c:420-454 | the binary search returns the value of the row with that name, or -1, on every non-empty sorted table |
| Entities.ValueOfRow | testlib/aslxml/mxml-entity.c:149-454 | in a sorted table every row is the only one with its name, so looking its name up gives its value |
| Entities.LookUp | testlib/aslxml/mxml-entity.c:96-110 | looking a name up in the whole table of 257 rows |
| Entities.NameThenValue | testlib/aslxml/mxml-entity.c:67-86 | the value of the name chosen for an escaped character is that character |
| Utf8.EncodeIsUtf8 | testlib/aslxml/mxml-file.c:706-741 | what is stored for a character of up to 21 bits is its UTF-8 sequence: lead byte by length, continuation bytes, shortest form; and it is the only such sequence |
| Utf8.ShiftsAndMasks | testlib/aslxml/mxml-file.c:706-741 | the masks and shifts of the source compute the quotients and remainders used here |
| Utf8.DecodeEncode | testlib/aslxml/mxml-file.c:2450-2601 | decoding what was stored for a readable character (1 to 0x1FFFFF, no refused control character, not U+FEFF) returns it and consumes exactly its bytes |
| Utf8.EncodeDecode | testlib/aslxml/mxml-file.c:2450-2601 | a successful read consumed byte order marks followed by the one encoding of its result, so overlong forms are refused |
| Utf8.MarksSkipped | testlib/aslxml/mxml-file.c:2559-2564 | any number of byte order marks and then a character: the character is read |
| Utf8.ReadIff | testlib/aslxml/mxml-file.c:2450-2601 | a read succeeds exactly on byte order marks followed by the encoding of a readable character |
| Utf8.FailedRead | testlib/aslxml/mxml-file.c:2450-2601 | a failed read takes a complete sequence, or else one byte, or nothing at the end |
| Utf8.CharsMarked | testlib/aslxml/mxml-file.c:2559-2564 | byte order marks in front of text change none of its characters |
| Utf8.MarksBetween | testlib/aslxml/mxml-file.c:2559-2564 | nor do they between two texts |
| Utf8.CharsOfEncoded | testlib/aslxml/mxml-file.c:2450-2601 | reading a whole encoded string gives the characters back, whatever follows |
| Buffers.CharBuffer.Add | testlib/aslxml/mxml-file.c:670-744 | the encoding is appended, and a byte for the terminator is left across any number of growths |
| Buffers.CharBuffer.Grow | testlib/aslxml/mxml-file.c:682-704 | the buffer doubles below 1024 bytes, then grows by 1024, and keeps its contents |
| Buffers.StringSink.Putc | testlib/aslxml/mxml-file.c:2702-2717 | every byte is counted, only those that fit are stored, nothing past the end is touched |
| Readers.StringReader.Getc | testlib/aslxml/mxml-file.c:2450-2601 | one read gives what the decoder says and leaves the pointer where it says |
| Readers.FdReader.Read | testlib/aslxml/mxml-file.c:1085-1121 | a refill loses no byte and fails only at the end of the file |
| Readers.FdReader.Getc | testlib/aslxml/mxml-file.c:751-943 | one read depends on the bytes still to come only, not on how they are cut into chunks |
| Readers.SameGetc | testlib/aslxml/mxml-file.c:751-943 | file and string reader give the same character, and leave the same bytes unless it is EOF |
| Readers.SameSuccess | testlib/aslxml/mxml-file.c:751-943 | where a read from a string succeeds, one from a file does the same, on all bytes |
| Readers.FileMarksSkipped | testlib/aslxml/mxml-file.c:890-894 | byte order marks are skipped in files too |
| Readers.FileFailedRead | testlib/aslxml/mxml-file.c:833-937 | a failed read from a file also takes the byte that does not continue the sequence |
| Readers.ChunkIndependent | testlib/aslxml/mxml-file.c:751-943 | up to the first EOF, a file gives the same characters as the whole string |
| Attributes.AttrArray.Set | testlib/aslxml/mxml-attr.c:254-316 | the array after setting is the list with the value replaced, or the attribute appended |
| Attributes.AttrArray.Get | testlib/aslxml/mxml-attr.c:108-158 | the value of the first attribute of that name |
| Attributes.AttrArray.Delete | testlib/aslxml/mxml-attr.c:46-98 | the array after deleting is the list without the first attribute of that name |
| Attributes.AttrArray.CloseGap | testlib/aslxml/mxml-attr.c:85-91 | the attributes behind the gap move down by one, in order |
| Attributes.GetAfterSet | testlib/aslxml/mxml-attr.c:254-316 | setting refines the update of a map: the named attribute has the new value, every other one its old value |
| Attributes.SetKeepsOrder | testlib/aslxml/mxml-attr.c:254-316 | setting keeps the order of names and their distinctness; a new name goes last |
| Attributes.GetAfterDelete | testlib/aslxml/mxml-attr.c:46-98 | deleting refines removal from a map, when names are distinct |
| Attributes.DeleteKeepsOrder | testlib/aslxml/mxml-attr.c:46-98 | exactly one attribute goes and the others keep their order, or nothing changes |
| Spelling.EscapeText | testlib/aslxml/mxml-file.c:3068-3101 | escaped text is text, and its characters are those of the string with entities in place of four of them |
| Markup.ResolvePiece | testlib/aslxml/mxml-file.c:1400-1455 | a character as it is, an entity by name or a reference by number is read as the character it stands for |
| Markup.ReadQuotes | testlib/aslxml/mxml-file.c:2337-2359 | a value in single or double quotes, in any spelling, is read up to its end quote |
| Markup.ReadPlain | testlib/aslxml/mxml-file.c:2293-2385 | an unquoted name or value, in any spelling, is read up to the character that ends it |
| Spelling.ReadRaw | testlib/aslxml/mxml-file.c:1676-1696 | a comment, CDATA section or processing instruction is read back whole, up to its end mark |
| Markup.CommentRaw | testlib/aslxml/mxml-file.c:1676-1696 | exactly which texts can stand in a comment |
| Markup.CDataRaw | testlib/aslxml/mxml-file.c:1751-1757 | exactly which texts can stand in a CDATA section |
| Markup.InstructionRaw | testlib/aslxml/mxml-file.c:1819-1825 | exactly which texts can stand in a processing instruction |
| Markup.ReadDeclaredTag | testlib/aslxml/mxml-file.c:1893-1927 | a declaration in any spelling is read whole, as its first word and the rest |
| Markup.ReadAttribute | testlib/aslxml/mxml-file.c:2265-2398 | one attribute is read with its name and value, in either quotes or none and with any white space around the equals sign |
| Markup.ReadAttributes | testlib/aslxml/mxml-file.c:2182-2443 | attributes with different names, however they are spelled, are read in order |
| Markup.ReadElementTag | testlib/aslxml/mxml-file.c:2182-2443 | the tag of an element, however it is spelled, gives its name, its attributes and the way it ends |
| Markup.ReadCloseTag | testlib/aslxml/mxml-file.c:1981-2003 | a close tag gives its name, and everything up to its end is skipped |
| Markup.ElementRead | testlib/aslxml/mxml-file.c:2023-2096 | with `/>` the element is complete and nothing is opened, otherwise it is open, for every spelling of the tag |
| Markup.CloseRead | testlib/aslxml/mxml-file.c:1981-2022 | a close tag that names the innermost open element closes it |
| Markup.LoneRead | testlib/aslxml/mxml-file.c:1676-1980 | a comment, CDATA section, processing instruction or declaration becomes one element, open when it is a root of the last two kinds |
| MarkupTree.RunItem | testlib/aslxml/mxml-file.c:1462-2175 | whatever is open and in whatever mode, an item in any spelling is taken in as what it denotes |
| MarkupTree.LoadDocument | testlib/aslxml/mxml-file.c:1462-2175 | every document in every spelling loads as the tree it denotes, with every load callback that goes by name and attributes, or none |
| MarkupTree.LoadText | testlib/aslxml/mxml-file.c:1462-2175 | the same for a string whose characters spell the document |
| MarkupTree.RunCut | testlib/aslxml/mxml-file.c:2136-2162 | where the input ends inside one open element that is the document, and inside more it is refused |
| MarkupTree.LoadUnclosed | testlib/aslxml/mxml-file.c:2136-2162 | a root that is never closed loads with the children it has so far |
| Accepted.ReferenceIff | testlib/aslxml/mxml-file.c:1400-1455 | a reference is read exactly when it has at most 63 letters, digits and `#`, ends in a semicolon and stands for a character |
| Accepted.TailShape | testlib/aslxml/mxml-file.c:2182-2443 | whatever is accepted inside a tag is attributes with different names in some spelling, white space, and one of three ends |
| Accepted.ElementIff | testlib/aslxml/mxml-file.c:2023-2103 | a tag is accepted exactly when it is spelled as the tag of an element and is no second root; a bare name at the end of the input is taken for an element |
| Accepted.CloseIff | testlib/aslxml/mxml-file.c:1981-2022 | a close tag is accepted exactly when it spells the name of the innermost open element |
| Accepted.CloseCut | testlib/aslxml/mxml-file.c:2002-2006 | the end of the input may cut a close tag off |
| Accepted.SpecialIff | testlib/aslxml/mxml-file.c:1676-1892 | a comment, CDATA section or processing instruction is accepted exactly when it ends as it should and is no second root |
| Accepted.DeclarationRefused | testlib/aslxml/mxml-file.c:1893-1927 | a declaration without an end, or with something that is no reference, is refused |
| Accepted.SecondRootRefused | testlib/aslxml/mxml-file.c:2029-2038 | no tag at all is accepted after a complete root |
| Accepted.DataIff | testlib/aslxml/mxml-file.c:2107-2120 | an ampersand in data is refused exactly when no reference follows |
| Accepted.ReadFails | testlib/aslxml/mxml-file.c:1518-2128 | a failed read ends the document between tags and refuses a tag it falls into |
| Accepted.ValueFails | testlib/aslxml/mxml-file.c:2337-2385 | a failed read inside a value ends it like its end quote, and reading goes on |
| Documents.AttrsWritten | testlib/aslxml/mxml-file.c:2838-2866 | what is written for attributes, with any wrap margin, spells them |
| Documents.NodeWritten | testlib/aslxml/mxml-file.c:2799-3061 | what is written for a node, from any column with any wrap margin, is well-spelled XML text |
| Documents.SavedDocument | testlib/aslxml/mxml-file.c:2799-3061 | the saved text of a document spells a document |
| Documents.EmptyTag | testlib/aslxml/mxml-file.c:2056-2067 | an element that ends right after its name, with a slash, is complete |
| Columns.WidthIs | testlib/aslxml/mxml-file.c:2847-2850 | the width that decides about a line break is the length written exactly when no character of the value needs an entity |
| Columns.AttrsFilled | testlib/aslxml/mxml-file.c:2843-2883 | attributes fill each line up to the margin, measured on the text, and the column is that of the text |
| Columns.WordSeparated | testlib/aslxml/mxml-file.c:3012-3032 | before a word: nothing at the start of a line, a blank up to the margin, a newline past it |
| Columns.NodeColumnIs | testlib/aslxml/mxml-file.c:2799-3061 | the column counted is that of the text emitted, when names and data need no entities and have no newlines |
| Columns.ColumnCounts | testlib/aslxml/mxml-file.c:2799-3061 | for every node each byte counts as one column, whatever it is written as |
| Columns.SavedEnds | testlib/aslxml/mxml-file.c:455-459 | a saved document ends with a newline, added only when there is none |
| Columns.QuotedNameWritten | testlib/aslxml/mxml-file.c:2734-2775 | a name that starts with a quote is written up to the next such quote |
| Documents.PlainNames | testlib/aslxml/mxml-file.c:2724-2792 | ASCII letters and digits are among the names for which all this holds |
| RoundTrip.LoadSaved | testlib/aslxml/mxml-file.c:1462-2443 | for every document (elements, opaque and text nodes, comments, CDATA sections, processing instructions, declarations), wrap margin and load callback that goes by name and attributes, or none, what loading the saved text gives |
| RoundTrip.LoadMarked | testlib/aslxml/mxml-file.c:2560-2564 | byte order marks in front of a saved document change nothing |
| RoundTrip.ReloadedSame | testlib/aslxml/mxml-file.c:1518-1638 | when that is the document itself |
| RoundTrip.RoundTripIff | testlib/aslxml/mxml-file.c:1462-2443 | the exact condition for such a document to load as itself, whatever the wrap margin |
| RoundTrip.PlainRoundTrip | testlib/aslxml/mxml-file.c:1462-2443 | with MXML_OPAQUE_CALLBACK every document with ASCII alphanumeric names, distinct attributes that have values, and texts neither empty nor adjacent, loads as itself, whatever the wrap margin |
| RoundTrip.DataLost | testlib/aslxml/mxml-file.c:2078-2094 | with MXML_TEXT_CALLBACK, which is NULL, a document under an ordinary root element comes back as its elements alone |
| RoundTrip.WordLost | testlib/aslxml/mxml-file.c:2078-2094 | the shortest such document: one word in one element |
| Nesting.TagKeeps | testlib/aslxml/mxml-file.c:1641-2106 | a tag opens and closes elements exactly as the tag read says |
| Nesting.CloseKeeps | testlib/aslxml/mxml-file.c:1981-2022 | a close tag is accepted only when it names the innermost open element |
| Nesting.StepKeeps | testlib/aslxml/mxml-file.c:1518-2128 | one turn of the main loop keeps the stack discipline |
| Nesting.AlwaysNested | testlib/aslxml/mxml-file.c:1518-2128 | at every point of every run on every input, `parent` and its ancestors are the elements opened and not yet closed |
| Nesting.RunFrom | testlib/aslxml/mxml-file.c:1518-2128 | every turn consumes input, so the loader ends on every input |
| Nesting.AlwaysRooted | testlib/aslxml/mxml-file.c:1518-2128 | at every point of every run the tags read have one root: the outermost open element, or the one node in `first` |
| Nesting.ResultNested | testlib/aslxml/mxml-file.c:2136-2175 | when a tree is returned, the loop ended at the end of the input, and the tree is the one element still open there, or the root that was opened first and closed last around everything else read, or the single node read |
| Forest.DetachWf | testlib/aslxml/mxml-node.c:613-670 | removing keeps the forest well formed |
| Forest.AddWf | testlib/aslxml/mxml-node.c:49-173 | adding keeps the forest well formed, unless a node is added below itself |
| Forest.AddPlace | testlib/aslxml/mxml-node.c:82-173 | an added node stands next to the given child if that is a child of the parent, else first or last |
| Forest.RemoveUndoesAdd | testlib/aslxml/mxml-node.c:49-173 | removing a node just added gives what removing it at once would have given |
| Forest.NewChildFacts | testlib/aslxml/mxml-node.c:748-795 | a new node comes last under its parent, and nothing else moves |
| NodeTree.ListedBothWays | testlib/aslxml/mxml-node.c:49-173 | `child`..`next` and `last_child`..`prev` are the same list, forwards and backwards; every listed child names its owner; detached nodes have NULL pointers |
| NodeTree.Remove | testlib/aslxml/mxml-node.c:613-670 | all five pointers of all nodes are right for the forest without that edge; the node has no siblings and no parent any more |
| NodeTree.AddNode | testlib/aslxml/mxml-node.c:49-173 | all pointers are right for the forest after remove-then-insert, in every case of `where` and `child` |
| NodeTree.LinkIn | testlib/aslxml/mxml-node.c:82-173 | linking a parentless node in at the given place, all four ways of doing it |
| NodeTree.New | testlib/aslxml/mxml-node.c:748-795 | a fresh node with the given value, alone or as last child |
| NodeTree.Delete | testlib/aslxml/mxml-node.c:183-264 | terminates, frees each node of the subtree exactly once and nothing else, and leaves the other nodes with the right pointers |
| NodeTree.Retain | testlib/aslxml/mxml-node.c:734-741 | one more reference |
| NodeTree.Release | testlib/aslxml/mxml-node.c:710-725 | one reference less; with the last one exactly the node's subtree is deleted, otherwise nothing changes |
| Walk.WalkVisitsAll | testlib/aslxml/mxml-search.c:225-252 | iterating `mxmlWalkNext` with MXML_DESCEND from a node visits its subtree in document order, each node once, and ends there |
| Walk.PrevUndoesNext | testlib/aslxml/mxml-search.c:263-292 | `mxmlWalkPrev` undoes `mxmlWalkNext` strictly below top, and gives NULL, not top, at its first child |
| Walk.SubtreeSkipped | testlib/aslxml/mxml-search.c:225-252 | with MXML_NO_DESCEND the walk goes past the subtree of the node, to the entry after it in document order |
| Walk.BackToSibling | testlib/aslxml/mxml-search.c:263-292 | with MXML_NO_DESCEND the walk back goes to the child before, or from the first child to the parent |
| TreeSearch.WalkNext | testlib/aslxml/mxml-search.c:225-252 | the pointer walk gives the next node of the forest walk |
| TreeSearch.WalkPrev | testlib/aslxml/mxml-search.c:263-292 | the pointer walk gives the previous node of the forest walk |
| TreeSearch.FindElement | testlib/aslxml/mxml-search.c:44-115 | for every start, top, query and way of descending: of the nodes looked at in turn the first that has the name, attribute and value looked for, or NULL; NULL at once for a value without an attribute |
| TreeSearch.SeenInOrder | testlib/aslxml/mxml-search.c:44-115 | with MXML_DESCEND below top, the nodes looked at are the later ones in document order, so the first later match is found |
| TreeSearch.SeenChildren | testlib/aslxml/mxml-search.c:44-115 | with MXML_DESCEND_FIRST from a node with children, they are those children in order |
| TreeSearch.SeenSiblings | testlib/aslxml/mxml-search.c:44-115 | with MXML_NO_DESCEND the search looks at the later siblings in order |
| TreeSearch.SeenFromTop | testlib/aslxml/mxml-search.c:44-115 | with MXML_NO_DESCEND a search from `top` itself looks at nothing |
| TreeSearch.WantedElement | testlib/aslxml/mxml-search.c:78-102 | which elements the search stops at |
| IndexSort.Compare | testlib/aslxml/mxml-index.c:506-538 | the order of the keys of two nodes: element name, then attribute value |
| IndexSort.LeTransitive | testlib/aslxml/mxml-index.c:506-538 | that order is transitive |
| IndexSort.LeTotal | testlib/aslxml/mxml-index.c:506-538 | and total |
| IndexSort.Turn | testlib/aslxml/mxml-index.c:611-639 | one turn of the partition loop: both scans, and the swap; `nodes[left]` stays the pivot |
| IndexSort.Meet | testlib/aslxml/mxml-index.c:609-639 | when the scans meet, everything up to there is at most the pivot and everything after it more |
| IndexSort.Partition | testlib/aslxml/mxml-index.c:605-651 | afterwards the part is a permutation, split by the entry the two scans met at |
| IndexSort.Round | testlib/aslxml/mxml-index.c:603-659 | partitioning and sorting the left side extends the sorted front, which stays below the rest |
| IndexSort.SortRound | testlib/aslxml/mxml-index.c:603-659 | one turn of the outer loop |
| IndexSort.Sort | testlib/aslxml/mxml-index.c:588-660 | terminates; `nodes[left..right]` is a sorted permutation and nothing outside is touched |
| IndexFind.Search | testlib/aslxml/mxml-index.c:162-250 | whatever the modified binary search returns is a match |
| IndexFind.SortedFalls | testlib/aslxml/mxml-index.c:545-579 | sorting makes the comparison monotone along the index, unless a value alone is looked for over several names |
| IndexFind.SearchFirst | testlib/aslxml/mxml-index.c:162-250 | on a monotone index the search finds the first match of all, if there is one |
| IndexFind.FindLeaves | testlib/aslxml/mxml-index.c:106-276 | where every call leaves the cursor, and what the later calls of a search give |
| IndexFind.MiddleFirst | testlib/aslxml/mxml-index.c:171-212 | where the middle entry matches, the search gives the first of the matches around it |
| IndexFind.FindsAll | testlib/aslxml/mxml-index.c:106-276 | after a reset, repeated finds give every matching entry exactly once, in index order, then NULL for ever |
| IndexFind.ValueMissed | testlib/aslxml/mxml-index.c:162-250 | three entries under two names of which a search for a value alone misses one |
| IndexFind.ValueFindsAllIff | testlib/aslxml/mxml-index.c:106-276 | searching for a value alone is complete on all sorted indexes over a set of element names exactly when the set has at most one name |
| IndexFind.ValueCompleteIff | testlib/aslxml/mxml-index.c:106-276 | on one index, sorted or not, it is complete for every value exactly when the values do not fall along the index or there are at most two entries |
| Index.Index.constructor | testlib/aslxml/mxml-index.c:313-460 | the index holds exactly the nodes `mxmlFindElement` finds below top (with top itself when no name and no attribute is given), sorted |
| Index.Index.Collect | testlib/aslxml/mxml-index.c:349-384 | the loop gathers them in document order |
| Index.Index.Reset | testlib/aslxml/mxml-index.c:471-499 | the cursor is 0 and the first node is returned |
| Index.Index.Enum | testlib/aslxml/mxml-index.c:76-94 | the node at the cursor, which moves on |
| Index.Index.FindFirst | testlib/aslxml/mxml-index.c:162-250 | the loops of the binary search compute `Search` |
| Index.Index.Find | testlib/aslxml/mxml-index.c:106-276 | node returned and new cursor, in every case |
| Index.IndexAgrees | testlib/aslxml/mxml-index.c:106-460 | the nodes repeated finds give are exactly those a scan of the tree for the same keys finds |
| Index.IndexHolds | testlib/aslxml/mxml-index.c:313-384 | an index holds the elements below top with the name and attribute given, and top itself only when neither is given |
| TreeValue.LeafAdded | testlib/aslxml/mxml-node.c:748-795 | a new node under the innermost open element changes the tree built as the loader's function says |
| TreeValue.ElementOpened | testlib/aslxml/mxml-file.c:2078-2095 | descending into a new element opens it |
| TreeValue.ElementClosed | testlib/aslxml/mxml-file.c:2005-2006 | going up to the parent completes the innermost element |
| TreeWrite.WriteString | testlib/aslxml/mxml-file.c:3068-3101 | the escaped string is emitted |
| TreeWrite.WriteName | testlib/aslxml/mxml-file.c:2724-2792 | names are emitted raw, or quoted and escaped when they start with a quote |
| TreeWrite.WriteAttrs | testlib/aslxml/mxml-file.c:2843-2883 | attributes, each after a blank or, past the wrap margin, a newline; and the column reached |
| TreeWrite.WriteNode | testlib/aslxml/mxml-file.c:2799-3061 | the text emitted for linked nodes and the column reached are those of the tree they stand for |
| TreeWrite.WriteChildren | testlib/aslxml/mxml-file.c:2901-2905 | the loop over `child` and `next` writes every child once, in order |
| TreeWrite.SaveString | testlib/aslxml/mxml-file.c:436-475 | the full length is returned for every buffer size, and the buffer holds what fits before a NUL |
| TreeWrite.SaveAllocString | testlib/aslxml/mxml-file.c:275-319 | the whole text is returned however long it is, in one pass or two |
| Reading.ReadEntity | testlib/aslxml/mxml-file.c:1400-1455 | the loop over an entity name does what the loader's function says |
| Reading.ReadTagText | testlib/aslxml/mxml-file.c:1646-1674 | the text of a tag |
| Reading.ReadSpecialText | testlib/aslxml/mxml-file.c:1682-1690 | the rest of a comment, CDATA section or processing instruction |
| Reading.ReadDeclarationText | testlib/aslxml/mxml-file.c:1899-1913 | the rest of a declaration |
| Reading.ReadAttr | testlib/aslxml/mxml-file.c:2265-2398 | one attribute is read and set on the node, or the tag is refused |
| Reading.ReadElement | testlib/aslxml/mxml-file.c:2182-2443 | the attributes of a tag end up on the node, in order, and the character that ended the tag is returned |
| TreeLoad.Loading.AddValue | testlib/aslxml/mxml-file.c:1531-1608 | a value node is added under `parent`, and becomes `first` if there is none |
| TreeLoad.Loading.FlushText | testlib/aslxml/mxml-file.c:1520-1610 | text gathered becomes a node at a tag or at white space |
| TreeLoad.Loading.FlushSpace | testlib/aslxml/mxml-file.c:1612-1638 | lone white space before a tag |
| TreeLoad.Loading.Special | testlib/aslxml/mxml-file.c:1676-1892 | comments, CDATA sections, processing instructions |
| TreeLoad.Loading.Declaration | testlib/aslxml/mxml-file.c:1893-1980 | declarations |
| TreeLoad.Loading.CloseTag | testlib/aslxml/mxml-file.c:1981-2022 | close tags |
| TreeLoad.Loading.OpenTag | testlib/aslxml/mxml-file.c:2023-2103 | open tags |
| TreeLoad.Loading.Turn | testlib/aslxml/mxml-file.c:1518-2128 | one turn of the main loop on linked nodes does what one step of the loader's function does |
| TreeLoad.Loading.Conclude | testlib/aslxml/mxml-file.c:2136-2162 | the outermost open element if no other is open, or `first`; otherwise everything is deleted |
| TreeLoad.LoadString | testlib/aslxml/mxml-file.c:245-256 | the nodes built are a well-formed forest, the result is parentless and stands for the tree the loader's function gives, or is null exactly when that gives none |
| SaveLoad.SavedText | testlib/aslxml/mxml-file.c:436-475 | the text saved for a document is a NUL-free UTF-8 string that the string reader can read |
| SaveLoad.CopyThroughText | testlib/aslxml/mxml-file.c:245-319 | saving linked nodes and loading the text, with any load callback, builds new nodes; they stand for the same tree exactly when that is of the kind that comes back |
| Semaphore.Conservation | testproject/os/src/asemaphore_compact.c:593-861 | in every run the flag is the initial value plus effective releases minus successful acquires, within 0 and the maximum, with at most one holder of the inner mutex |
| Semaphore.ConservedMove | testproject/os/src/asemaphore_compact.c:593-861 | every single move keeps that |
| Semaphore.NoLostWakeupMove | testproject/os/src/asemaphore_compact.c:650-694 | with a maximum of 1, every move keeps: a positive flag and a sleeper imply a thread on its way |
| Semaphore.NoLostWakeupRun | testproject/os/src/asemaphore_compact.c:801-847 | so it holds in every interleaving, and a thread that sleeps while nobody is on the way sleeps because the flag is 0 |
| Semaphore.LostWakeup | testproject/os/src/asemaphore_compact.c:801-847 | a run with a maximum of 2 or more that loses a wake-up |
| Semaphore.LostWakeupIff | testproject/os/src/asemaphore_compact.c:801-847 | no run loses a wake-up exactly when the maximum is at most 1 |
| Semaphore.MutualExclusion | testproject/os/src/asemaphore_compact.c:696-749 | a mutex semaphore released only by its holder is free or held by exactly the thread listed, and the assertion on the list never fails |
| SemaphoreHistory.FlagAccounts | testproject/os/src/asemaphore_compact.c:593-861 | in every run the flag is the initial value plus the releases below the maximum minus the acquires that reported success or are about to |
| SemaphoreHistory.CallsFollowed | testproject/os/src/asemaphore_compact.c:650-686 | an acquire reports failure exactly when it was called with a time limit and its wait timed out |
| SemaphoreHistory.HeldIs | testproject/os/src/asemaphore_compact.c:593-861 | the holders are the threads whose acquire succeeded and that have not given the semaphore back |
| SemaphoreHistory.OneOwner | testproject/os/src/asemaphore_compact.c:696-749 | with a mutex that only owners release, no two threads own it or are about to be told so |
| SemaphoreHistory.ListsKept | testproject/os/src/asemaphore_compact.c:638-740 | the waiting list holds a process as often as it has threads inside, when there are slots for all, and `obtainer_num` counts the slots taken |
| SemaphoreData.Data.constructor | testproject/os/src/asemaphore_compact.c:438-465 | the initial fields |
| SemaphoreData.Data.Enter | testproject/os/src/asemaphore_compact.c:638-648 | the caller is counted and listed as in the protocol |
| SemaphoreData.Data.Obtain | testproject/os/src/asemaphore_compact.c:686-725 | the flag goes down and the holder is listed as in the protocol |
| SemaphoreData.Data.Exit | testproject/os/src/asemaphore_compact.c:728-740 | the caller is taken off the list as in the protocol |
| SemaphoreData.Data.Release | testproject/os/src/asemaphore_compact.c:801-847 | flag, holder list and signal as in the protocol |
| Marks.OneMark | testproject/os/src/aosmgr.c:50-52 | setting or clearing one mark bit changes no other mark |
| Marks.Bitmap.Mark | testproject/os/src/aosmgr.c:51 | the set of marks gains exactly that one |
| Marks.Bitmap.Clear | testproject/os/src/aosmgr.c:52 | the set of marks loses exactly that one |
| Registry.TagTable.Register | testproject/os/src/aosmgr.c:845-938 | table and result after a registration, with at most one collection |
| Registry.TagTable.Unregister | testproject/os/src/aosmgr.c:948-1008 | table and result after taking an entry out |
| Registry.TagTable.GetHandle | testproject/os/src/aosmgr.c:705-751 | the handle of the first matching live slot, or none |
| Registry.TagTable.Collect | testproject/os/src/aosmgr.c:505-556 | every live slot but the two protected ones is offered to its callback |
| Registry.RegRefines | testproject/os/src/aosmgr.c:845-938 | with id 0, registering refines a map: a live name is kept, a new one added, a full table collected at most once before -1 |
| Registry.UnregRefines | testproject/os/src/aosmgr.c:948-1008 | unregistering a name removes it from the map, with result 1 exactly if it was there |
| Registry.FoundIfLive | testproject/os/src/aosmgr.c:705-751 | a name is found exactly when it is live, and with its own entry |
| Registry.FoundById | testproject/os/src/aosmgr.c:705-751 | with an id the first live slot of that id is found, whatever the name |
| Registry.RegisteredEntry | testproject/os/src/aosmgr.c:845-938 | a registration that succeeds leaves an entry that is found and holds everything given, in the first free slot; of the others only collected ones are gone |
| Registry.FullTable | testproject/os/src/aosmgr.c:901-937 | in a full table a new name gets in exactly when the collection frees a slot and a callback reports success |
| Registry.CollectedAre | testproject/os/src/aosmgr.c:505-556 | which slots a collection takes: never the two semaphores of the manager or other types |
| Registry.UnregById | testproject/os/src/aosmgr.c:948-1008 | without a name the first live slot of the id is freed |
| Registry.CollectedNames | testproject/os/src/aosmgr.c:505-556 | a collection takes away exactly the names it unregisters |
| Registry.NamesCounted | testproject/os/src/aosmgr.c:901-921 | there are as many live names as live slots, so the table is full exactly when it holds that many names |
| Registry.AlwaysDistinct | testproject/os/src/aosmgr.c:845-1008 | after any sequence of registrations, removals and collections live names are distinct |
| RoundRobin.CallTable.NextCall | testproject/os/src/aosmgr.c:1414-1478 | slot and index for the next call |
| RoundRobin.NoneReady | testproject/os/src/aosmgr.c:1448-1470 | NULL is returned exactly when no slot of that relayer is ready |
| RoundRobin.NearestReady | testproject/os/src/aosmgr.c:1448-1470 | the slot returned is the nearest marked, ready slot of the relayer going round from the index, which goes on behind it |
| RoundRobin.Closer | testproject/os/src/aosmgr.c:1448-1466 | a ready slot is returned, or its cyclic distance from the index strictly falls |
| RoundRobin.Fair | testproject/os/src/aosmgr.c:1414-1478 | whatever happens to other slots, one that stays ready is returned within 128 calls sharing an index |
| RoundRobin.CallTable.Allocate | testproject/os/src/aosmgr.c:1109-1205 | table and slot after an allocation, with at most one collection |
| RoundRobin.CallTable.Free | testproject/os/src/aosmgr.c:1273-1337 | table and result after freeing |
| RoundRobin.CallTable.Collect | testproject/os/src/aosmgr.c:1022-1068 | table and result after a collection |
| RoundRobin.FreedOne | testproject/os/src/aosmgr.c:1302-1330 | freeing the slot of one client frees that slot and no other, unless it is in use |
| RoundRobin.FreedAll | testproject/os/src/aosmgr.c:1302-1330 | freeing for all clients takes the slots of the relayer up to the first one in use |
| RoundRobin.FreedFirst | testproject/os/src/aosmgr.c:1302-1330 | freeing for one client takes its first slot, unless that is in use |
| RoundRobin.ReleasedIs | testproject/os/src/aosmgr.c:1273-1337 | both, and nothing for an empty name |
| RoundRobin.CollectionIs | testproject/os/src/aosmgr.c:1022-1068 | a collection frees the slots not in use whose client, or the process their relayer is named after, is dead |
| RoundRobin.CollectedAre | testproject/os/src/aosmgr.c:1022-1068 | a collection frees exactly the stale slots not in use, and reports success when there was a stale one |
| RoundRobin.AllocatedWhen | testproject/os/src/aosmgr.c:1109-1205 | a client gets a slot exactly when it has none and a slot is free or can be collected |
| RoundRobin.AllocatedIs | testproject/os/src/aosmgr.c:1109-1205 | who is refused at once; everyone else gets the first free slot, after a collection if there was none |
| RoundRobin.FreedKept | testproject/os/src/aosmgr.c:1302-1330 | freeing keeps at most one slot for each client and relayer |
| RoundRobin.AllocatedKept | testproject/os/src/aosmgr.c:1148-1158 | every client keeps at most one slot for each relayer |
| HeapTable.HeapTable.constructor | testproject/os/src/aheap.c:189-206 | the empty table |
| HeapTable.HeapTable.Find | testproject/os/src/aheap.c:208-216 | a pointer is found exactly when its block is alive, with what was recorded |
| HeapTable.HeapTable.Put | testproject/os/src/aheap.c:218-224 | a loose descriptor becomes the head of the chain of its pointer, and every other one stays where it is |
| HeapTable.HeapTable.GetDescriptor | testproject/os/src/aheap.c:248-265 | a descriptor from the free list, or a new one only when that is empty |
| HeapTable.HeapTable.Locate | testproject/os/src/aheap.c:226-231 | the search for a pointer and its predecessor in the chain |
| HeapTable.HeapTable.Move | testproject/os/src/aheap.c:233-239 | the descriptor leaves its chain and joins the free list |
| HeapTable.HeapTable.Allocate | testproject/os/src/aheap.c:291-322 | over any history, the table describes exactly the live blocks and `idx` is the largest number ever live; it fails exactly when the descriptors run out |
| HeapTable.HeapTable.AllocateArray | testproject/os/src/aheap.c:324-355 | the same for zeroed arrays, whose recorded size is a 32-bit product |
| HeapTable.HeapTable.Release | testproject/os/src/aheap.c:357-366 | the same after a free, of a live block or of an unknown pointer |
| HeapTable.PushKeeps | testproject/os/src/aheap.c:218-224 | putting a descriptor into a list keeps every descriptor in exactly one place |
| HeapTable.RemoveKeeps | testproject/os/src/aheap.c:226-246 | unlinking one from anywhere in a list leaves exactly that one loose and the chains acyclic |
| HeapTable.PeakIsLargest | testproject/os/src/aheap.c:248-265 | the value `idx` is proved to have is the largest number of blocks alive after any part of the calls |
| HeapTable.AliveIs | testproject/os/src/aheap.c:208-246 | a block is alive exactly when the last call about its pointer allocated it, with what that call gave |

## Left out

- UTF-16: a reader that meets 0xFE or 0xFF may switch encodings. `Utf8` stops there, and the readers and `TreeLoad.LoadString` take input without those bytes.
- SAX callbacks, a top node to load under, custom, integer and real nodes, whitespace callbacks on saving.
- `strtol` for numeric character references is a parameter (`numeric`) of the loader.
- TreeLoad.LoadString: the load callback is a function of the name and attributes of the node it is given; `Loader` itself allows one that sees all open elements.
- Reading.ReadElement: attributes are a list in the node; the array they are kept in is modelled apart, in `Attributes.AttrArray`.
- TreeLoad.LoadString: value nodes created while nothing is open and `first` is set stay in the forest; the source leaks them.
- Index.Index.Find: entries are assumed to still be elements with the indexed attribute; a missing attribute, on which `strcmp` would be undefined, compares as an empty string.
- RoundTrip.LoadSaved: attributes without a value, attribute names starting with a non-ASCII character and names starting with a quote are outside, because the loader refuses or changes what the writer emits for them; so are comments, CDATA sections, declarations and processing instructions that have attributes or, below the root, children.
- Failing allocations, and integer overflow of lengths, columns and counters.
- The list of entity callbacks; only the built-in one is installed.
- `mxmlFindPath`.
- `mxmlSaveFd` and `mxmlSaveFile`, `mxml_file_getc`; descriptor output.
- The ten seconds after which `asema_acquire_timed` and `asema_release` go on without the inner mutex, `asema_destroy`, crash handlers and the list of local semaphores.
- Registry.TagTable.Register: the table's own lock is not modelled, and a collection callback unregisters at most the slot it is given.
- RoundRobin.CallTable.Allocate: locking is not modelled; which processes are dead and which process a relayer is named after are parameters.
- HeapTable.HeapTable.Allocate: `malloc` is the parameter `p`, a pointer not alive yet; resizing in debug mode does not compile in the source.
- Shared-memory files, tasks, sockets, signals, logging, getters and setters.
