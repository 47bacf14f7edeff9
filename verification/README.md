# Verified models of the firmware's document, flash, update and display code

This project models four parts of the firmware in Dafny and proves what they promise.

**JSON documents (cJSON and cJSON_Utils).** A document is a value: null, booleans, C integers, C strings, arrays, and
objects with ordered members (`Json`). The printer, the parser, JSON Pointer (RFC 6901), JSON Patch (RFC 6902) and JSON
Merge Patch (RFC 7396) are functions on values, and beside each function stands the imperative code (`PrintBuffer`,
`ParseBuffer`, `Document`, `PatchList` and methods with the loops of the source) that is proved to compute it. What
texts the parser accepts, and what the printed ones look like, is told apart from both in a grammar (`JsonGrammar`,
`JsonAccepted`, `JsonLayout`), and what a pointer text means in the words of RFC 6901 (`PointerText`). Where member order
must not count, documents are compared by their normal form (`JsonNormal`), in which objects are maps. The
sibling lists, the merge sort over them, and what sorting and removing do to the `prev` of a first child are modelled on
the heap (`SiblingList`, `SortList`, `ListTail`). A document that is patched or merged in place carries that `prev` along
as a value (`LinkedTree`, `LinkedPatch`, `LinkedMerge`). `PatchLists` says what lists of edits and tests do to it, and
`PatchRuns`, `PatchFit` and `PatchInPlace` what patches do to the document they have been generated from.

**SPI flash.** `NorFlash` says what NOR cells do and models the simulated chip. `FlashChip` has the slicers and the generic
chip driver, `FlashApi` the chunked write, read and erase with the bus discipline, and `MmapPages` the mapping of page
lists. Driver calls that can fail do so arbitrarily.

**The two-CPU flash lock.** `FlashLock` is a state machine over the single statements of the handshake, for two CPUs with a
cache each, any number of pinned tasks, and any interleaving.

**Firmware update and display.** `OtaHandler` is the packet, timeout and retry logic; `Framebuffer`, `LineDrawing` and
`PageScroll` are the page buffer of the SSD1306, its line drawing and its vertical scroll.

## Where the code does not do what its documentation or the standards say

- Removing a member for a case-sensitive patch ignores case, because `detach_path` calls the case-insensitive helper
  (`DiffRoundTrip.WrongMemberRemoved`).
- `decode_pointer_inplace` steps over ordinary characters without copying them, so a key with a slash, and most keys with a
  tilde, are added or removed under another name (`PointerDecode.DecodeUndoesEscape` says exactly which).
- The parser takes every control character for white space, and accepts superfluous zeros in front of integers, control
  characters inside literals, and a `\u` without four hexadecimal digits, which it reads as a NUL. `JsonGrammar.Allowed`
  says all it accepts, and `Strict` what RFC 8259 allows (`JsonAccepted.AcceptedExactly`, `JsonAccepted.DocumentIsParsed`).
- A pointer that is not empty and does not start with a slash is taken for the whole document
  (`PointerText.NoPointerNamesItself`).
- An array index is checked against an upper bound on its first character only, so `1a` is taken for 59
  (`JsonPointer.LetterAsIndex`, `JsonPointer.AcceptedIndices`).
- Moving or copying to the place of the whole document always fails (`PatchOperations.MoveToRootFails`).
- Moving a node into one of its own children is not refused. It fails unless the node is an array item, another one
  follows it, and the rest of the path is a place in that one, where the node then goes (`PatchOperations.BelowItself`,
  `PatchLists.MovedIntoNext`); moves do what RFC 6902 says exactly if this is not so (`PatchOperations.MoveRefines`).
- A test sorts the object that it compares and leaves the `prev` of its first child wrong, unless the first and the last
  member stay in their places (`PatchLists.TestedTail`). A later addition to that object then returns 0 although the new
  member, or the members behind another one, are lost: after a test of `{"b": null, "a": null}` no member `c` can be added
  (`PatchLists.LostMember`, `PatchLists.AddAfterTestIsLost`). One addition is kept exactly if its object has no other
  member or its first child points at its last (`LinkedPatch.AppliesExactly`), and a list of edits and tests does what
  RFC 6902 says exactly if every addition that it reaches is kept (`PatchLists.FollowsExactly`). In a document whose links
  are right this can be seen beforehand if each test that an addition follows compares with a value in which no object has
  two members, or precedes all edits and names a node whose members are in order (`PatchLists.HarmlessTestsKeepAll`).
- Generating patches sorts both documents and leaves their links in the same way, so that the patches may fail on the
  document they have been generated from: a third member `c` is not added to `{"b": null, "a": null}`
  (`PatchInPlace.GeneratedIsLost`). They do what they should there exactly if in every object that generating reaches the
  links are right, or nothing is added before the last member in the order of names is taken out
  (`PatchInPlace.PatchItselfExactly`, with the condition `Fits` of `PatchFit`).
- A merge patch appends every member that it changes, so that into an object whose first child has no `prev` nothing new
  can be merged (`LinkedMerge.NewMemberIsLost`). A merge does what RFC 7396 says exactly if in every object that it reaches
  the links are right, or only nulls precede the member of the patch that takes the last one out
  (`LinkedMerge.MergeInPlaceExactly`).
- The merge patch generator sorts by names without regard to case but walks with `strcmp`, at the top level or, in the
  case-sensitive variant, one level down. For two names that the two orders place differently, such as `B` and `a`, it
  deletes a member that should stay (`MergeDiff.SwappedNamesFail`); the round trip holds exactly for names that sort alike
  either way (`MergeDiff.MergeableExactly`).
- If releasing the flash bus between two chunks fails, the bus is used and released once more without being held; the
  calls of a write or an erase balance exactly if every release before the last one has worked (`FlashApi.Write`,
  `FlashApi.EraseRegion`).
- If the operating system does not let a write or an erase go on between two chunks, or twice in a row refuses the bus, the
  function returns without flushing the cache for what it has written or erased; in every other case the flush of the whole
  range is the last thing before the bus is released (`FlashApi.Write`, `FlashApi.EraseRegion`).
- The range check of the flash functions is in 32-bit arithmetic and accepts ranges that wrap around
  (`FlashApi.RangeCheckIsExact`, `FlashApi.WrappingRangeIsAccepted`).
- The flash simulator counts sectors as erased into which it has just loaded a partition table, and then refuses to erase
  them (`NorFlash.LoadedSectorStays`); the marks of a fresh chip are honest exactly if all that was loaded is blank
  (`NorFlash.HonestFromTheStart`).
- If the chunk size divides the size of the firmware, the update waits for one chunk more than the image fills and succeeds
  only with an empty packet behind it (`OtaHandler.LastChunk`, `OtaHandler.SuccessNeedsRemainder`).
- If an update fails as a whole, the retries are filled up before it starts over. With one retry at least, an update whose
  checksum does not fit therefore never ends in failure, however often all chunks come (`OtaHandler.NeverGivesUp`); failure
  is reported only when the user stops the update, or a chunk has been requested once and for every retry
  (`OtaHandler.FailureIsEarned`).
- Setting a pixel of a flipped display mirrors the other seven pixels of its byte; the display is otherwise unchanged
  exactly if these are their own mirror image (`Framebuffer.Display.Pixel`). A line on a blank flipped display shows
  exactly its pixels if and only if no two of them share a byte (`LineDrawing.FlippedLineExactly`): always if its
  inclination is at most 1 (`LineDrawing.GentleLinesCome`), and not from row 0 to row 1 (`LineDrawing.FlippedLineBreaks`).

## Model

| member | source | states |
|---|---|---|
| Bytes.DecimalRoundTrip | components/json/cJSON/cJSON_Utils.c:198-259 | the numeral written for an array index has only digits, no leading zero, and denotes the index |
| Bytes.StrCmpTransitive | components/json/cJSON/cJSON_Utils.c:83-109 | the key comparison is a transitive order, strict where a step is strict |
| Bytes.StrCmpIsLexicographic | components/json/cJSON/cJSON_Utils.c:83-109 | and it is the lexicographic one by the values of the bytes |
| JsonStrings.EncodeBitsIsUtf8 | components/json/cJSON/cJSON.c:715-762 | the shifts and masks of the encoder give the UTF-8 of section 3 of RFC 3629 for every code point |
| JsonStrings.PairBitsIsArithmetic | components/json/cJSON/cJSON.c:706-707 | a surrogate pair is combined to 0x10000 plus ten bits of each half |
| JsonStrings.WriteUtf8 | components/json/cJSON/cJSON.c:715-762 | the backward loop writes exactly the encoded bytes inside the buffer, and nothing else |
| JsonStrings.Utf16LiteralToUtf8 | components/json/cJSON/cJSON.c:652-770 | the conversion of one or two escapes returns what the function says and writes only that |
| JsonStrings.EstimateString | components/json/cJSON/cJSON.c:786-809 | the first pass finds the closing quote and counts the escapes that save room |
| JsonStrings.EscapesGrow | components/json/cJSON/cJSON.c:786-877 | escapes seen from two starting points differ by no more than the distance, so the two passes may disagree without harm |
| JsonStrings.FitsAfter | components/json/cJSON/cJSON.c:773-899 | whatever one escape writes, what has been written stays below what the first pass allowed for |
| JsonStrings.UnescapeInto | components/json/cJSON/cJSON.c:819-877 | for every input the second pass stays inside the buffer sized by the first, even for ill-formed escapes |
| JsonStrings.ParseString | components/json/cJSON/cJSON.c:773-899 | `parse_string` never leaves its buffer and computes the literal function |
| JsonStrings.WellFormedLiteral | components/json/cJSON/cJSON.c:773-899 | every literal of the grammar in section 7 of RFC 8259 is parsed to the string it denotes by the standard's own tables of escapes and digits, and parsing stops behind the quote |
| JsonStrings.CountEscapes | components/json/cJSON/cJSON.c:929-953 | the counting pass finds exactly the room that escaping needs |
| JsonStrings.PrintStringPtr | components/json/cJSON/cJSON.c:902-1021 | the printed literal exactly fills the buffer that the counting pass has sized |
| JsonStrings.PieceOfByte | components/json/cJSON/cJSON.c:960-1013 | each byte is printed as a plain character where that is allowed, else by a two-character escape where there is one, else as `\u00` and two small digits, and denotes that byte |
| JsonStrings.StringRoundTrip | components/json/cJSON/cJSON.c:773-1021 | parsing a printed string gives the string back, wherever the literal stands |
| JsonPrinter.PrintBuffer.PrintValue | components/json/cJSON/cJSON.c:1367-1438 | the printer appends exactly the text of the value, and leaves the depth as it was |
| JsonPrinter.PrintBuffer.PrintArray | components/json/cJSON/cJSON.c:1539-1598 | appends the text of the array |
| JsonPrinter.PrintBuffer.PrintObject | components/json/cJSON/cJSON.c:1714-1825 | appends the text of the object, with its indentation |
| JsonParser.ParseBuffer.SkipWhitespace | components/json/cJSON/cJSON.c:1038-1061 | the offset moves behind the white space, and at the end of the buffer one back; what counts as white space is in the grammar |
| JsonParser.ParseBuffer.ParseValue | components/json/cJSON/cJSON.c:1312-1364 | succeeds exactly where the recursive function does, with the same value, offset and depth |
| JsonParser.ParseBuffer.ParseArray | components/json/cJSON/cJSON.c:1441-1536 | the array loop computes the array function and fails beyond 1000 levels |
| JsonParser.ParseBuffer.ParseObject | components/json/cJSON/cJSON.c:1601-1711 | the object loop computes the object function and fails beyond 1000 levels |
| JsonParser.ParseBuffer.ParseNumber | components/json/cJSON/cJSON.c:305-379 | an integer of at most 63 characters is read and saturated to a C int |
| JsonGrammar.StrictIsAllowed | components/json/cJSON/cJSON.c:1312-1711 | documents of RFC 8259 with C ints are texts of the grammar |
| JsonGrammar.SyntaxIsParsed | components/json/cJSON/cJSON.c:1312-1711 | a value of the grammar, with any white space around any of its tokens, is parsed to what it denotes wherever it stands, if its levels fit |
| JsonAccepted.ValueIsWritten | components/json/cJSON/cJSON.c:1312-1711 | where the parser finds a value, a value of the grammar stands and is what was found |
| JsonAccepted.TextIsParsed | components/json/cJSON/cJSON.c:1095-1172 | every text of the grammar, with or without a byte order mark, is parsed to the value it denotes, and parsing ends where it should |
| JsonAccepted.DocumentIsParsed | components/json/cJSON/cJSON.c:1095-1172 | so every document of RFC 8259 with C ints, surrogates in pairs and at most 1000 levels, whatever of its four kinds of white space stands between the tokens |
| JsonAccepted.AcceptedExactly | components/json/cJSON/cJSON.c:1095-1172 | with the check for a terminator nothing but the texts of the grammar is accepted |
| JsonLayout.PrintedText | components/json/cJSON/cJSON.c:1367-1825 | unformatted text has no white space outside literals; formatted text has every member on a line of its own behind a tab for each container around it, a tab in front of its value, the closing brace behind a tab for each container around the object, and a blank between elements; numbers and literals are the plainest ones |
| JsonLayout.PrintIsShortest | components/json/cJSON/cJSON.c:1367-1825 | no text of RFC 8259 that denotes the same value is shorter than the unformatted one |
| JsonRoundTrip.PrintDocument | components/json/cJSON/cJSON.c:1187-1249 | printing a document gives its text |
| JsonRoundTrip.ParseDocument | components/json/cJSON/cJSON.c:1095-1172 | parsing a buffer gives the document function; with the check for a terminator it succeeds exactly for the texts of the grammar, with the value they denote |
| JsonRoundTrip.ValueRoundTrip | components/json/cJSON/cJSON.c:1312-1825 | a printed value is parsed back wherever it stands, if its nesting fits |
| JsonRoundTrip.ParseUndoesPrint | components/json/cJSON/cJSON.c:1079-1249 | parsing a printed document, formatted or not, gives back the same ordered tree and stops at its end |
| JsonRoundTrip.ParseUndoesPrintExactly | components/json/cJSON/cJSON.c:1079-1249 | this holds exactly for documents nested at most 1000 containers deep |
| JsonRoundTrip.ReparseIsStable | components/json/cJSON/cJSON.c:1079-1249 | whatever text was parsed, printing the result and parsing it again gives the same document |
| JsonRoundTrip.PrintIsInjective | components/json/cJSON/cJSON.c:1187-1249 | distinct documents have distinct texts |
| SiblingList.ListIsUnique | components/json/cJSON/cJSON.c:1956-1987 | a parent heads exactly one list |
| SiblingList.GetArrayItem | components/json/cJSON/cJSON.c:1851-1868 | finds the item of that number, or none |
| SiblingList.AddItemToArray | components/json/cJSON/cJSON.c:1956-1987 | appends behind the item that the first child's `prev` names: at the end of a proper list, nowhere if that `prev` is null, and outside of the list if the item is; all links are kept |
| SiblingList.DetachItemViaPointer | components/json/cJSON/cJSON.c:2187-2221 | removes just that item, which then points nowhere, keeps all other links, and leaves the first child's `prev` as right or wrong as the tail function says |
| SiblingList.DetachItemFromArray | components/json/cJSON/cJSON_Utils.c:393-427 | removes the item of that number if there is one |
| SiblingList.InsertItemInArray | components/json/cJSON/cJSON_Utils.c:693-728 | inserts in front of that number, appends at the end, and refuses beyond it |
| SiblingList.ReplaceItemViaPointer | components/json/cJSON/cJSON.c:2292-2339 | puts the replacement exactly where the item was |
| SiblingList.Duplicate | components/json/cJSON/cJSON.c:2706-2790 | copies a whole tree into a fresh one of the same form and names, in which every item heads a proper list, whatever the `prev` links of the original are |
| SiblingList.ListHasRightTail | components/json/cJSON/cJSON.c:1956-1987 | a list is proper exactly if its first child's `prev` is right |
| ListTail.AppendedIsLast | components/json/cJSON/cJSON.c:1956-1987 | a new item goes behind all others exactly if it is right |
| ListTail.WithoutRepairs | components/json/cJSON/cJSON.c:2187-2221 | a wrong one is repaired exactly by taking out the last item |
| ListTail.AfterSortIsRight | components/json/cJSON/cJSON_Utils.c:484-602 | sorting keeps it right exactly if the first and the last item stay in their places |
| KeyedSort.SortIsSorted | components/json/cJSON/cJSON_Utils.c:484-593 | the sort puts keys in non-decreasing order |
| KeyedSort.SortPermutes | components/json/cJSON/cJSON_Utils.c:484-593 | and permutes the members |
| KeyedSort.SortIsOrder | components/json/cJSON/cJSON_Utils.c:484-593 | where each member goes depends on the names alone, and is a permutation of the places |
| SortList.FindMiddle | components/json/cJSON/cJSON_Utils.c:509-520 | the two-speed walk splits a list of two or more into two non-empty, shorter halves |
| SortList.Split | components/json/cJSON/cJSON_Utils.c:521-526 | cutting gives two null-ended chains |
| SortList.MergeLists | components/json/cJSON/cJSON_Utils.c:534-592 | relinking merges two chains of the given nodes as the merge function does |
| SortList.Sort | components/json/cJSON/cJSON_Utils.c:484-593 | `sort_list` ends, and returns a null-ended chain in the order of the sort function, with `prev` right for every node but the head; a head that was the head keeps its `prev`, and any other has none; nothing but `next` and `prev` of the list's nodes changes |
| SortList.SameItems | components/json/cJSON/cJSON_Utils.c:484-593 | the result is exactly the same nodes |
| SortList.SortObject | components/json/cJSON/cJSON_Utils.c:595-602 | the parent heads the sorted chain, and of a proper list it is a proper one exactly if the first and the last child stay in their places |
| SortList.SortedByPlaces | components/json/cJSON/cJSON_Utils.c:484-593 | each node goes to the place that the order of the names gives it |
| JsonPointer.PointerEncodedLength | components/json/cJSON/cJSON_Utils.c:157-170 | is the length of the escaped token |
| JsonPointer.EncodeStringAsPointer | components/json/cJSON/cJSON_Utils.c:173-196 | the escaped token and its terminator exactly fill a buffer of that length |
| JsonPointer.ComparePointers | components/json/cJSON/cJSON_Utils.c:120-154 | the cursor loop decides the match of a key with the token in front of a pointer |
| JsonPointer.EscapedTokenMatches | components/json/cJSON/cJSON_Utils.c:120-154 | an escaped token matches exactly the keys equal to its key, folded or not |
| JsonPointer.SameKeyMeans | components/json/cJSON/cJSON_Utils.c:83-109 | keys are the same if they are equal, or without regard to case if they differ only in capital and small forms of the 26 letters |
| PointerText.EscapeIsUnescaped | components/json/cJSON/cJSON_Utils.c:173-196 | the token written for a key is a token of RFC 6901, and unescapes to the key as its section 4 says |
| PointerText.UnescapedIsEscape | components/json/cJSON/cJSON_Utils.c:173-196 | and is the only one that does |
| PointerText.TokenMatches | components/json/cJSON/cJSON_Utils.c:120-154 | the comparison accepts exactly the keys equal to the unescaped token, and none if a tilde is not followed by 0 or 1 |
| PointerText.TokensAreEncoded | components/json/cJSON/cJSON_Utils.c:157-259 | a text is a pointer with these tokens exactly if it is the one written for them |
| PointerText.PointerSpellsPath | components/json/cJSON/cJSON_Utils.c:198-259 | the pointer found for a node has the names on the way to it for tokens |
| PointerText.NoPointerNamesItself | components/json/cJSON/cJSON_Utils.c:301-346 | a text that does not start with a slash is no pointer, but names the node itself |
| JsonPointer.DecodeArrayIndexFromPointer | components/json/cJSON/cJSON_Utils.c:274-299 | the loop computes the index function |
| JsonPointer.IndexIsDecoded | components/json/cJSON/cJSON_Utils.c:274-299 | an index as section 4 of RFC 6901 writes it is decoded to its number |
| JsonPointer.AcceptedIndices | components/json/cJSON/cJSON_Utils.c:274-299 | exactly which tokens are taken for an index |
| JsonPointer.LetterAsIndex | components/json/cJSON/cJSON_Utils.c:285-289 | a token with a letter is taken for 59 |
| JsonPointer.GetItemFromPointer | components/json/cJSON/cJSON_Utils.c:301-346 | the loop resolves a pointer as the recursive function does |
| JsonPointer.FindPointerFromObjectTo | components/json/cJSON/cJSON_Utils.c:198-259 | the search computes the pointer function |
| JsonPointer.SearchFinds | components/json/cJSON/cJSON_Utils.c:198-259 | a pointer is found exactly for the nodes in the tree, and it spells their path |
| JsonPointer.PointerRoundTrip | components/json/cJSON/cJSON_Utils.c:198-346 | the pointer found for a node resolves, case-sensitively, to that very node, with any characters in the keys |
| JsonNormal.NormMembersOfSame | components/json/cJSON/cJSON_Utils.c:604-690 | lists with distinct keys and the same members have the same map |
| JsonNormal.SortKeepsMembers | components/json/cJSON/cJSON_Utils.c:595-602 | sorting the members changes neither the map nor the distinctness of the keys |
| LinkedTree.CompareJson | components/json/cJSON/cJSON_Utils.c:604-690 | the comparison computes its function, and sorts in place the members of those objects of both documents that it reaches |
| LinkedTree.ComparedIsSame | components/json/cJSON/cJSON_Utils.c:604-690 | its verdict is that of the comparison of values |
| LinkedTree.ComparedKeeps | components/json/cJSON/cJSON_Utils.c:604-690 | both documents stay the same up to member order |
| LinkedTree.SettledStays | components/json/cJSON/cJSON_Utils.c:595-690 | a document with right links and all members in order is left as it is by any comparison, links included |
| LinkedTree.SameAsNarrow | components/json/cJSON/cJSON_Utils.c:595-690 | what compares equal to a value whose objects have one member at most has its members in order |
| JsonCompare.SameIsEquality | components/json/cJSON/cJSON_Utils.c:604-690 | it decides equality up to member order, both ways |
| PointerDecode.DecodePointerInPlace | components/json/cJSON/cJSON_Utils.c:359-390 | the loop over the buffer computes the decoding function |
| PointerDecode.DecodeUndoesEscape | components/json/cJSON/cJSON_Utils.c:359-390 | decoding gives back exactly the recoverable keys |
| PointerText.DecodedIsUnescaped | components/json/cJSON/cJSON_Utils.c:359-390 | decoding in place does what section 4 of RFC 6901 says exactly if the key is recoverable |
| PointerDecode.PlainIsRecoverable | components/json/cJSON/cJSON_Utils.c:359-390 | keys without tilde and slash are recoverable |
| PointerDecode.SlashIsLost | components/json/cJSON/cJSON_Utils.c:375-378 | a slash inside a key is lost |
| LinkedPatch.Document.Detach | components/json/cJSON/cJSON_Utils.c:430-481 | takes the node at the path out of the document, with what that does to the links, or leaves it as it is |
| LinkedPatch.Document.Add | components/json/cJSON/cJSON_Utils.c:960-1023 | adds a value at the path, where the links of its parent say, with the status the source returns; or follows a stray pointer |
| LinkedPatch.Document.Fetch | components/json/cJSON/cJSON_Utils.c:905-958 | finds the value a patch adds, with the status of each failure |
| LinkedPatch.Document.Test | components/json/cJSON/cJSON_Utils.c:831-836 | returns 0 exactly if the comparison says so, and leaves the node as sorted by it |
| LinkedPatch.Document.Apply | components/json/cJSON/cJSON_Utils.c:807-1036 | one patch has the status, the document and the links of the patch function on documents with links, for every patch at all |
| LinkedPatch.Document.ApplyPatches | components/json/cJSON/cJSON_Utils.c:1038-1094 | patches are applied in order up to the first that fails |
| LinkedPatch.AppliesExactly | components/json/cJSON/cJSON_Utils.c:807-1036 | every patch but a test does to any document what the patch function says of its value, exactly if what it adds goes behind the last member |
| LinkedPatch.SoundStaysThroughout | components/json/cJSON/cJSON_Utils.c:807-1094 | lists without a test keep all links right, and do what the patch functions say |
| PatchReference.DetachRefines | components/json/cJSON/cJSON_Utils.c:430-481 | removing by a pointer does what section 4 of RFC 6902 says, and fails exactly where it is an error there |
| PatchReference.AddRefines | components/json/cJSON/cJSON_Utils.c:960-1023 | adding by a pointer does what section 4 of RFC 6902 says, and fails exactly where it is an error there |
| PatchReference.ApplyRefines | components/json/cJSON/cJSON_Utils.c:807-1036 | a patch document with the member `op` of an edit, its path and value, does what section 4 of RFC 6902 says, and is refused exactly where it is an error there |
| PatchReference.PatchAsks | components/json/cJSON/cJSON_Utils.c:1096-1133 | generated patch documents are such documents |
| PatchReference.WrittenEdit | components/json/cJSON/cJSON_Utils.c:742-784 | so are those written out with `add`, `remove` and `replace` and a path of RFC 6901 |
| PatchReference.ApplyAllRefines | components/json/cJSON/cJSON_Utils.c:1038-1094 | so does a list of them, up to the first error |
| PatchOperations.LocateRefines | components/json/cJSON/cJSON_Utils.c:301-346 | resolving a pointer text of RFC 6901 finds what its section 4 says it names, and nothing exactly where it names nothing |
| PatchOperations.WrittenPatch | components/json/cJSON/cJSON_Utils.c:742-784 | the documents written out with `op`, `path` and `from` are those that the theorems on moves and copies speak of |
| PatchOperations.MoveRemovesAndAdds | components/json/cJSON/cJSON_Utils.c:905-941 | a move removes at the one path and adds the node at the other, wherever that is, and fails exactly where one of the two is an error |
| PatchOperations.BelowItself | components/json/cJSON/cJSON_Utils.c:905-941 | below the node itself there is something to add to exactly if the node is an array item and the rest of the path a place in the next one |
| PatchOperations.MoveRefines | components/json/cJSON/cJSON_Utils.c:905-941 | a patch whose `op` is `move` does what section 4.4 of RFC 6902 says, its errors included, exactly if it does not go to such a place |
| PatchOperations.CopyRefines | components/json/cJSON/cJSON_Utils.c:905-941 | one whose `op` is `copy` adds the node at the other path, and fails exactly where there is no such node or adding it is an error |
| PatchOperations.TestIsEquality | components/json/cJSON/cJSON_Utils.c:831-836 | one whose `op` is `test` returns 0 if its path names a node that equals the value up to member order, and otherwise 1, and leaves the document |
| PatchOperations.MoveToRootFails | components/json/cJSON/cJSON_Utils.c:905-980 | moving or copying to the whole document always fails |
| PatchOperations.MalformedFails | components/json/cJSON/cJSON_Utils.c:742-830 | a patch without a text for `path`, or with another text for `op` than the six, or none, leaves the document and returns 2 or 3, and only these do |
| PatchLists.MovedIntoNext | components/json/cJSON/cJSON_Utils.c:905-941 | the first of two empty objects can be moved into its own member `x` and ends up in the second one |
| PatchLists.TestedKeeps | components/json/cJSON/cJSON_Utils.c:831-836 | a test changes nothing but the order of members, and returns 0 or 1 |
| PatchLists.TestedTail | components/json/cJSON/cJSON_Utils.c:595-690 | the object it compares has its links right afterwards exactly if its first and last member keep their places in the sorted order |
| PatchLists.MalformedLeaves | components/json/cJSON/cJSON_Utils.c:742-830 | and does nothing to the document's links either |
| PatchLists.WrittenRequests | components/json/cJSON/cJSON_Utils.c:742-784 | what the documents of the lists below look like, written out |
| PatchLists.LinkLoses | components/json/cJSON/cJSON_Utils.c:960-1023 | an addition that does not go behind the last member returns 0 and leaves another document than it should |
| PatchLists.RequestIsAsked | components/json/cJSON/cJSON_Utils.c:807-1036 | an edit or a test does what section 4 of RFC 6902 says, errors included, exactly if what it adds goes behind the last member |
| PatchLists.FollowsExactly | components/json/cJSON/cJSON_Utils.c:807-1094 | a list of edits and tests does so at every step exactly if every addition that is reached goes behind the last member |
| PatchLists.FollowedIsAsked | components/json/cJSON/cJSON_Utils.c:1038-1094 | such a list returns 0 exactly if the standard accepts it, and leaves the document that the standard says |
| PatchLists.EditsKeepAll | components/json/cJSON/cJSON_Utils.c:807-1094 | without a test, a document with all links right keeps every addition |
| PatchLists.HarmlessTestsKeepAll | components/json/cJSON/cJSON_Utils.c:595-1094 | so does a list whose tests, as far as additions follow, compare with values in which no object has two members, or come first and name nodes whose members are in order |
| PatchLists.AddAfterTestIsLost | components/json/cJSON/cJSON_Utils.c:595-1094 | a member added after a test of an object whose two members stand in the wrong order is lost, and 0 returned |
| PatchLists.LostMember | components/json/cJSON/cJSON_Utils.c:595-1094 | so for the members `b` and `a` and a new one `c` |
| PatchDiff.PatchList.ComposePatch | components/json/cJSON/cJSON_Utils.c:1096-1134 | appends one patch document for the path and its escaped suffix |
| PatchDiff.PatchList.CreatePatches | components/json/cJSON/cJSON_Utils.c:1141-1279 | appends exactly the patch documents of the edits between the two documents, and sorts in place the members of those objects of both that have a counterpart |
| PatchDiff.PatchList.CreateItemPatches | components/json/cJSON/cJSON_Utils.c:1170-1213 | the array loops append the edits of the elements |
| PatchDiff.PatchList.CreateMemberPatches | components/json/cJSON/cJSON_Utils.c:1215-1274 | the walk along two sorted member lists appends the edits of the members |
| PatchDiff.GeneratePatches | components/json/cJSON/cJSON_Utils.c:1281-1309 | the generated array holds those patch documents, and both documents are left as the walk leaves them |
| PatchDiff.WalkedStill | components/json/cJSON/cJSON_Utils.c:1141-1279 | both are still the same up to member order |
| PatchDiff.FrameBelow | components/json/cJSON/cJSON_Utils.c:1141-1279 | patches below a child change only that child's subtree |
| PatchDiff.EditsReach | components/json/cJSON/cJSON_Utils.c:1141-1279 | the edits turn the one document into the other up to member order |
| DiffRoundTrip.DiffThenPatch | components/json/cJSON/cJSON_Utils.c:807-1309 | applying the generated patches to a copy of `from` succeeds and gives `to` up to member order |
| PatchLists.DiffThenPatchInPlace | components/json/cJSON/cJSON_Utils.c:807-1309 | on a fresh copy in memory they do so in place, and leave all links right |
| PatchRuns.RunBelow | components/json/cJSON/cJSON_Utils.c:807-1036 | patches below a child do to it, links included, what they would do to it alone |
| PatchRuns.RunIsChange | components/json/cJSON/cJSON_Utils.c:807-1094 | patches that keep all they add return 0 and do what the edits ask for |
| PatchFit.WalkIsFit | components/json/cJSON/cJSON_Utils.c:1215-1274 | along the walk no addition meets wrong links exactly if these are right at its beginning, or nothing is added before the last of the earlier members is taken out |
| PatchInPlace.PatchItselfExactly | components/json/cJSON/cJSON_Utils.c:807-1309 | applied to the very document they were generated from, patches do step by step what RFC 6902 says exactly if it fits in this sense at every level; then they return 0 and leave the target |
| PatchInPlace.SettledFits | components/json/cJSON/cJSON_Utils.c:1141-1279 | it does if its links are right and its members in order |
| PatchInPlace.GeneratedIsLost | components/json/cJSON/cJSON_Utils.c:807-1309 | for the members `b` and `a` and a new one `c` it does not |
| DiffRoundTrip.PatchableExactly | components/json/cJSON/cJSON_Utils.c:807-1309 | all documents over a set of names make that round trip exactly if the names differ in more than case and survive decoding |
| DiffRoundTrip.PlainNamesArePatchable | components/json/cJSON/cJSON_Utils.c:807-1309 | names without capital letters, tildes and slashes do |
| DiffRoundTrip.WrongMemberRemoved | components/json/cJSON/cJSON_Utils.c:466 | for names that differ in case only, a case-sensitive patch removes the wrong member |
| DiffRoundTrip.CaseUnnoticed | components/json/cJSON/cJSON_Utils.c:1238 | and one that ignores case misses the difference |
| DiffRoundTrip.LostName | components/json/cJSON/cJSON_Utils.c:359-390 | a name that decoding does not give back is not reached |
| DiffRoundTrip.NoPatchesIffEqual | components/json/cJSON/cJSON_Utils.c:1141-1279 | no patches are generated exactly between documents equal up to member order |
| LinkedMerge.Merge | components/json/cJSON/cJSON_Utils.c:1321-1379 | the loop over the patch computes the merge function on documents with links |
| LinkedMerge.KeptIsMerged | components/json/cJSON/cJSON_Utils.c:1321-1379 | if everything that it adds goes behind the last member, it leaves what the merge function on values says |
| LinkedMerge.SoundMerge | components/json/cJSON/cJSON_Utils.c:1321-1379 | so it does if all links are right, and they stay right |
| LinkedMerge.MergeInPlaceExactly | components/json/cJSON/cJSON_Utils.c:1321-1379 | it does step by step what section 2 of RFC 7396 says exactly if in every object reached the links are right or only nulls come before the member that takes the last one out; then it leaves what that section says |
| LinkedMerge.NewMemberIsLost | components/json/cJSON/cJSON_Utils.c:1321-1379 | where the first child has no `prev`, merging in a new member changes nothing |
| MergePatch.MergeIsReference | components/json/cJSON/cJSON_Utils.c:1321-1379 | the merge function on values is the MergePatch function of section 2 of RFC 7396, for any nesting and for absent or non-object targets |
| MergePatch.CaseSensitiveMergeIsReference | components/json/cJSON/cJSON_Utils.c:1386-1389 | in the case-sensitive variant for all documents with distinct keys |
| MergeDiff.GenerateMergePatch | components/json/cJSON/cJSON_Utils.c:1391-1471 | the walk along two sorted member lists computes the generator function |
| MergeDiff.GeneratedSaysDifference | components/json/cJSON/cJSON_Utils.c:1391-1471 | there is no patch exactly for equal objects, and otherwise it is the difference of the two maps |
| MergeDiff.DifferenceReaches | components/json/cJSON/cJSON_Utils.c:1321-1471 | merging the difference gives the target exactly if no null member has to be written |
| MergeDiff.MergeDiffRoundTrip | components/json/cJSON/cJSON_Utils.c:1321-1481 | merging the generated patch into a prior copy of `from` gives `to` exactly under that condition |
| MergeDiff.MergeDiffReaches | components/json/cJSON/cJSON_Utils.c:1321-1481 | so always for names without capital letters and targets without null members outside arrays |
| MergeDiff.SwappedNamesFail | components/json/cJSON/cJSON_Utils.c:1391-1481 | for two names that the two orders place differently, the patch from both to one of them deletes both |
| MergeDiff.MergeableExactly | components/json/cJSON/cJSON_Utils.c:1321-1481 | for targets without null members the round trip succeeds exactly if all names sort alike with and without regard to case |
| FlashLock.StepInv | components/spi_flash/cache_utils.c:116-258 | every statement of either CPU keeps the invariant |
| FlashLock.InsideIsExclusive | components/spi_flash/cache_utils.c:152-258 | between disable and enable no other task is active, both caches are off, flash interrupts are masked, and the other CPU spins |
| FlashLock.OrdinaryWorkHasCaches | components/spi_flash/cache_utils.c:116-258 | tasks, other callbacks and flash interrupts run only with both caches on |
| FlashLock.CompleteIsSeen | components/spi_flash/cache_utils.c:131-138 | the completion flag is not reset before the spinning CPU has seen it |
| FlashLock.AssertionsHold | components/spi_flash/cache_utils.c:160-225 | none of the assertions about the CPU of the operation ever fails |
| FlashLock.Progress | components/spi_flash/cache_utils.c:116-258 | unless all is at rest some step of the protocol is enabled and brings its end nearer |
| FlashLock.InsideIsReachable | components/spi_flash/cache_utils.c:152-212 | from the initial state every task can get inside, so the claims above are about runs that exist |
| FlashLock.CanComeToRest | components/spi_flash/cache_utils.c:116-258 | from every reachable state the operation in progress can be finished |
| NorFlash.ProgrammedAppend | components/spi_flash/sim/SpiFlash.cpp:185-195 | two adjoining programs are one |
| NorFlash.ProgrammedPadded | components/spi_flash/spi_flash_chip_generic.c:285-292 | padding with 0xFF programs nothing |
| NorFlash.ProgramAfterErase | components/spi_flash/sim/SpiFlash.cpp:124-198 | erased cells can be programmed to any value |
| NorFlash.SpiFlash.constructor | components/spi_flash/sim/SpiFlash.cpp:42-81 | a fresh chip is blank but for the partition table, and every sector counts as erased |
| NorFlash.SpiFlash.EraseSector | components/spi_flash/sim/SpiFlash.cpp:124-160 | the page loop erases the sector, counts the cycle and marks it, unless a limit or the mark forbids it |
| NorFlash.SpiFlash.EraseBlock | components/spi_flash/sim/SpiFlash.cpp:112-122 | erases its sectors one by one and always reports success |
| NorFlash.SpiFlash.Write | components/spi_flash/sim/SpiFlash.cpp:162-198 | unmarks the touched sectors up to a worn out one, and programs old AND data only if there is none |
| NorFlash.WriteKeepsHonest | components/spi_flash/sim/SpiFlash.cpp:162-198 | sectors that count as erased stay blank under writing |
| NorFlash.EraseKeepsHonest | components/spi_flash/sim/SpiFlash.cpp:124-154 | and under erasing |
| NorFlash.EraseBlanks | components/spi_flash/sim/SpiFlash.cpp:124-154 | an erase leaves the sector blank exactly if its mark was honest |
| NorFlash.LoadedSectorStays | components/spi_flash/sim/SpiFlash.cpp:42-154 | a sector with a byte of the partition table that is not blank counts as erased, and erasing leaves it as it is |
| NorFlash.HonestFromTheStart | components/spi_flash/sim/SpiFlash.cpp:42-81 | the marks of a fresh chip are honest exactly if only blank bytes were loaded |
| NorFlash.SectorsAreOneErase | components/spi_flash/sim/SpiFlash.cpp:112-122 | a block erase of honest sectors is one erase of the whole block |
| NorFlash.CyclesAddUp | components/spi_flash/sim/SpiFlash.cpp:147-148 | the total of erase cycles is the sum over the sectors |
| FlashChip.WriteSliceCovers | components/spi_flash/memspi_host_driver.c:205-227 | a write slice holds the first byte, stays in one page and 64 bytes, and is even in DTR mode |
| FlashChip.ReadSliceCovers | components/spi_flash/memspi_host_driver.c:229-249 | a read slice holds the first byte and is at most 64 bytes |
| FlashChip.SliceInChip | components/spi_flash/memspi_host_driver.c:205-249 | an even chip holds the padding of its last byte |
| FlashChip.Chip.PageProgram | components/spi_flash/spi_flash_chip_generic.c:258-276 | the page is programmed, or nothing is and an error returned; no error if nothing answers with one |
| FlashChip.Chip.Erase | components/spi_flash/spi_flash_chip_generic.c:173-223 | the sector or block is erased, or nothing is and an error returned; no error if nothing answers with one |
| FlashChip.Chip.Write | components/spi_flash/spi_flash_chip_generic.c:278-304 | the sliced write is one program of the whole range, and after a failure of an initial part; every transfer is inside one page and the chip; it succeeds if nothing answers with an error |
| FlashChip.Chip.ReadData | components/spi_flash/spi_flash_chip_generic.c:225-256 | the sliced read returns exactly the requested bytes, and succeeds if nothing answers with an error |
| FlashChip.WriteThenRead | components/spi_flash/spi_flash_chip_generic.c:225-304 | any sub-range read after a write is old AND data, and both succeed if nothing answers with an error |
| FlashApi.RangeCheckIsExact | components/spi_flash/esp_flash_api.c:1012-1014 | the check accepts exactly what is inside the chip or wraps around 32 bits |
| FlashApi.WrappingRangeIsAccepted | components/spi_flash/esp_flash_api.c:1012-1014 | one that reaches to the end of the address space is accepted from wherever it starts in the chip |
| FlashApi.StartBus | components/spi_flash/esp_flash_api.c:184-194 | acquires the bus, or reports why not and records the refusal; acquires it if nothing answers with an error |
| FlashApi.EndBus | components/spi_flash/esp_flash_api.c:198-208 | releases the bus, and keeps an earlier error or reports its own, if it has one |
| FlashApi.Yield | components/spi_flash/esp_flash_api.c:652-660 | lets the operation go on, or records that it may not |
| FlashApi.EndFlushCache | components/spi_flash/esp_flash_api.c:224-241 | flushes just the given range while the bus is held, after acquiring it if need be, and then releases it, or is refused it; leaves the bus free, if told truly whether it is held; adds no error if nothing answers with one |
| FlashApi.Write | components/spi_flash/esp_flash_api.c:1002-1122 | the chunked write is one program of the range, or of an initial part, in pieces of one page and 64 bytes at most; whatever fails, starts, uses and ends of the bus balance exactly if every end before the last one has worked; the flush of the whole range is the last thing before the bus is released, unless the operation was refused to go on or twice in a row refused the bus; inside the chip it succeeds if nothing answers with an error |
| FlashApi.Read | components/spi_flash/esp_flash_api.c:849-923 | the chunked read returns the requested bytes, and the bus calls balance whatever fails; inside the chip it succeeds if nothing answers with an error |
| FlashApi.CheckProtected | components/spi_flash/esp_flash_api.c:617-641 | passes only if no protected region overlaps, and leaves the bus free; if nothing answers with an error, it passes exactly then |
| FlashApi.EraseNext | components/spi_flash/esp_flash_api.c:663-677 | erases a block where a whole aligned one is left, otherwise a sector, and succeeds if nothing answers with an error |
| FlashApi.EraseRange | components/spi_flash/esp_flash_api.c:643-699 | the erases follow each other without gap; whatever fails, the bus calls balance exactly if every end before the last one has worked, and the flush of the whole range is the last thing before the bus is released, unless the operation was refused to go on or twice in a row refused the bus; it succeeds if nothing answers with an error |
| FlashApi.EraseRegion | components/spi_flash/esp_flash_api.c:590-699 | a successful call has erased exactly the aligned range; nothing is erased in face of a protected region; whatever fails, an initial part is, and the bus calls balance exactly if every end before the last one has worked; a successful call, and any that has erased something and was not so refused, flushes the whole range last; if nothing answers with an error, the arguments and the protected regions alone decide what it returns |
| FlashApi.EraseIsExact | components/spi_flash/esp_flash_api.c:643-694 | every address of the range is erased once, by blocks for exactly the whole aligned blocks inside it, and sectors elsewhere |
| MmapPages.FindNonContiguousBlockNums | components/spi_flash/flash_mmap.c:115-127 | counts the runs of the merged list |
| MmapPages.MergeContiguousPages | components/spi_flash/flash_mmap.c:129-149 | fills a table of that many rows with the runs, so the assertion in the loop never fails |
| MmapPages.PagesToBytes | components/spi_flash/flash_mmap.c:151-157 | turns page numbers and counts into bytes |
| MmapPages.MergedIsExact | components/spi_flash/flash_mmap.c:129-149 | the runs expand back to exactly the page list, and none could be longer |
| MmapPages.MergedIsUnique | components/spi_flash/flash_mmap.c:129-149 | there is only one such list of runs |
| MmapPages.SpiFlashMmapPages | components/spi_flash/flash_mmap.c:159-230 | all runs are mapped, or exactly those that were are unmapped again |
| OtaHandler.OtaHandler.StartFirmwareUpdate | main/include/thingsboard/OTA_Handler.h:103-118 | sets up the update and requests the first chunk, or reports failure |
| OtaHandler.OtaHandler.StopFirmwareUpdate | main/include/thingsboard/OTA_Handler.h:123-130 | resets the updater, reports failure and forgets the callback |
| OtaHandler.OtaHandler.ProcessFirmwarePacket | main/include/thingsboard/OTA_Handler.h:137-191 | flashes, hashes and accepts the expected chunk, with the retry of each failure |
| OtaHandler.OtaHandler.RequestFirstFirmwarePacket | main/include/thingsboard/OTA_Handler.h:210-217 | starts over |
| OtaHandler.OtaHandler.RequestNextFirmwarePacket | main/include/thingsboard/OTA_Handler.h:221-236 | requests the next chunk or finishes |
| OtaHandler.OtaHandler.FinishFirmwareUpdate | main/include/thingsboard/OTA_Handler.h:241-274 | compares the checksum, ends the update and reports |
| OtaHandler.OtaHandler.HandleFailure | main/include/thingsboard/OTA_Handler.h:279-305 | retries or reports failure |
| OtaHandler.OtaHandler.HandleRequestTimeout | main/include/thingsboard/OTA_Handler.h:308-310 | a timeout requests the same chunk again as long as there are retries |
| OtaHandler.FlashedIsHashed | main/include/thingsboard/OTA_Handler.h:137-305 | until something is reported, the flashed bytes, the hashed bytes and the accepted chunks are the same, and a chunk is requested at most once more than there are retries |
| OtaHandler.SuccessIsEarned | main/include/thingsboard/OTA_Handler.h:241-274 | success means all chunks, the expected checksum over what was flashed, and a working end |
| OtaHandler.QuietAfterReport | main/include/thingsboard/OTA_Handler.h:103-310 | once an end is reported no timeout is pending, and a stopped update has its updater reset and has reported failure |
| OtaHandler.StopAborts | main/include/thingsboard/OTA_Handler.h:123-130 | stopping disarms the watchdog, resets the updater, reports failure and requests nothing |
| OtaHandler.UnusableStartFails | main/include/thingsboard/OTA_Handler.h:112-116 | a start without a callback or an updater reports failure and requests nothing |
| OtaHandler.FailureRestarts | main/include/thingsboard/OTA_Handler.h:155-180 | if the updater cannot be begun, does not write all bytes, or the hash fails, the update starts over with all retries, or reports failure if none is left |
| OtaHandler.OthersIgnored | main/include/thingsboard/OTA_Handler.h:140-145 | packets with another index change nothing |
| OtaHandler.CompletesInOrder | main/include/thingsboard/OTA_Handler.h:137-274 | if the chunks come in order and nothing fails, success is reported exactly if the checksum fits |
| OtaHandler.FailureIsEarned | main/include/thingsboard/OTA_Handler.h:137-305 | failure is reported only when the user has stopped the update or the chunk waited for has been requested once and for every retry |
| OtaHandler.WrongChecksumRestarts | main/include/thingsboard/OTA_Handler.h:241-305 | an undisturbed pass with a wrong checksum ends in failure exactly if chunks are not retried, and otherwise starts over with all retries |
| OtaHandler.NeverGivesUp | main/include/thingsboard/OTA_Handler.h:137-305 | with retries, any number of such passes reports nothing |
| OtaHandler.LastChunk | main/include/thingsboard/OTA_Handler.h:106 | of the chunks waited for the last one holds the remainder of the division, so it is empty exactly if the chunk size divides the size of the firmware |
| OtaHandler.SuccessNeedsRemainder | main/include/thingsboard/OTA_Handler.h:103-274 | and success has had that packet |
| Framebuffer.Display.Pixel | components/ssd1306/ssd1306.c:469-485 | sets or clears that pixel; on a flipped display it mirrors the rest of the byte, so that no other pixel changes exactly if the display is not flipped or that rest is its own mirror image |
| LineDrawing.Line | components/ssd1306/ssd1306.c:488-529 | plots exactly max(dx, dy) + 1 pixels, each where the formula says, one after the other; unless the display is flipped, these are lit or put out and no others change; on a flipped one that was blank, or full, this is so exactly if no two of them share a byte |
| LineDrawing.ComesUnflipped | components/ssd1306/ssd1306.c:469-529 | plotting pixels one after the other sets exactly them, unless the display is flipped |
| LineDrawing.OneParityShows | components/ssd1306/ssd1306.c:469-529 | of the pixels a line plots in one byte of a flipped display, only those show whose row has the parity of the last one |
| LineDrawing.FlippedLineExactly | components/ssd1306/ssd1306.c:469-529 | on a blank or full flipped display a line shows exactly its pixels if and only if no two of them share a byte |
| LineDrawing.NeighboursDecide | components/ssd1306/ssd1306.c:488-529 | which is so exactly if no two neighbours do |
| LineDrawing.GentleLinesCome | components/ssd1306/ssd1306.c:488-529 | and always if the inclination is at most 1 |
| LineDrawing.FlippedLineBreaks | components/ssd1306/ssd1306.c:469-529 | the line from row 0 to row 1 loses its first pixel |
| LineDrawing.StepOffset | components/ssd1306/ssd1306.c:505-528 | the running error term counts floor((2 i minor + major) / (2 major)) sideways steps |
| LineDrawing.WithinHalfAPixel | components/ssd1306/ssd1306.c:505-528 | the line is never more than half a pixel off the true one |
| LineDrawing.LineEnds | components/ssd1306/ssd1306.c:488-529 | it runs from the one end to the other and stays between them |
| Framebuffer.RotateByte | components/ssd1306/ssd1306.c:571-578 | the loop reverses the eight bits |
| Framebuffer.RotateTwice | components/ssd1306/ssd1306.c:571-578 | twice is the identity |
| PageScroll.ScrollUp | components/ssd1306/ssd1306.c:298-347 | rotates every selected column up, with or without flip, and leaves the others |
| PageScroll.ScrollDown | components/ssd1306/ssd1306.c:348-398 | rotates every selected column down |
| PageScroll.UpRotates | components/ssd1306/ssd1306.c:298-347 | a column of pixels is rotated by one row |
| PageScroll.DownUndoesUp | components/ssd1306/ssd1306.c:298-398 | down undoes up, and up undoes down |
| PageScroll.UpAndDown | components/ssd1306/ssd1306.c:298-398 | so on the display itself |
| PageScroll.FullTurn | components/ssd1306/ssd1306.c:298-347 | as many scrolls as there are rows are the identity |

## Left out

- JsonParser.ParseBuffer.ParseValue: numbers with a fraction or an exponent count as errors, because the model has C integers only.
- JsonParser.ParseBuffer.ParseNumber: so it does; of an integer outside the int range it keeps the saturated int and not the double beside it.
- JsonAccepted.AcceptedExactly: the grammar has C integers for numbers as well; of a literal with an ill-formed `\u` it says only that `parse_string` takes it whole.
- JsonRoundTrip.ReparseIsStable: for such numbers it speaks of the saturated int.
- JsonStrings.StringLiteral: a literal that runs to the end of a buffer without terminator counts as an error, where the code looks one byte further.
- JsonPatch.ApplyFrom: a path to move or copy from that is no string counts as one that leads nowhere, where the code uses a null pointer.
- LinkedPatch.Document.Add: nothing is said of a run once it appends behind an item that has been taken out of the list while the first child's `prev` pointed at it; the status is then none.
- LinkedMerge.Merge: the same holds of a merge that comes upon such an item; its result is then none.
- LinkedPatch.Document.Test: the patch document is a value, so its own objects, which the operation sorts as well, stay as they are.
- PatchReference.ApplyRefines: the errors are those for pointers whose tokens at arrays are indices or the dash; `JsonPointer.AcceptedIndices` says what else is taken for an index. Removing the whole document, which leaves an invalid item and returns 0, is not counted as what the standard says.
- MergeDiff.GenerateMergePatch: the target is not a null pointer, the documents are values, so that sorting them in place does not show, and members are sorted from the order in which they stand in the values; names that differ in case only may have been put in another order by a comparison before.
- MergeDiff.GeneratedSaysDifference: speaks of names that sort alike with and without regard to case; for others the round trip fails, as `MergeDiff.MergeableExactly` shows.
- NorFlash.SpiFlash.constructor: requires that the chip size is a multiple of the sector size; otherwise the source counts one sector more, whose pages lie partly outside the memory.
- FlashApi.Write: requires that the range does not wrap around 32 bits, which the check at its head does not exclude.
- FlashApi.Read: requires the same, and that a temporary buffer, where one is needed, is there and not empty.
- FlashApi.EraseRegion: requires that the range does not wrap around 32 bits.
- OtaHandler.FlashedIsHashed: speaks of the time until something is reported; the code relies on the finish callback to keep later packets away.
- JSON: allocation failure, hooks, raw items, references and constant strings, locale, growth of the print buffer, error positions, minifying, invalid items in documents to be printed, keys and strings with a NUL inside, and wrap-around of array indices.
- Flash lock: the variant before the scheduler has started, the single-core and panic variants, and the temporary task priority; the step relation lets any task run that the scheduler may choose. FreeRTOS, the inter-processor calls and the cache hardware are assumptions: tasks are pinned, and a CPU serves one call at a time.
- Flash: register access, vendor tables, I/O modes, encryption, write verification, suspend, time-outs of `wait_idle`, counters, null pointers and unsupported chips, and the check for regions the running application occupies. What `yield`, `start`, `end`, `flush` and device commands return is arbitrary.
- Mapping: the memory management unit itself; a request succeeds or fails as it likes.
- Update: logging, state messages, the server, and callbacks that do anything but stop the update from the progress callback. Hashing is an arbitrary function of the bytes.
- Display: transport to the device, horizontal scroll, text and bitmaps, and the software scroll.
