# Anchor extraction of TestParser, modelled in Dafny

TestParser is a crawler that downloads pages and extracts their links. This
project models its extraction engine, `SearchEngine`, together with the
small types it is built from.

`FindLinks` takes a page as a string:

- It checks that the page is not blank.
- It finds the stretches the search must ignore: HTML comments, and
  `<noindex>` blocks in both spellings.
- It locates every `<a` and `</a>` delimiter, first in lower case and then in
  upper case. The delimiters are found with a Turbo Boyer-Moore string
  search. That search uses a good-suffix table and a bad-character table
  over a 350-symbol alphabet: printable Latin and Cyrillic.
- It drops every delimiter inside an ignored stretch.
- It sorts the delimiters with a hybrid Shell/merge sort.
- It pairs openers with closers through a stack.
- It cuts each tag's attribute text from its inner HTML and parses it into a
  dictionary.
- It projects each tag onto an anchor record: href, hreflang, target,
  download, rel, type, and whether the link is external.

Any exception raised on the way is caught and becomes the error message of
the result.

The model keeps the structure of the C# code:

- **Mutable objects are classes.** `SearchEngineResult<T>` and
  `GenericTagResult` are Dafny classes, and their methods state the new
  state they leave.
- **Loops are methods.** The tables, the search loop, the sort, the
  stop-space and pairing loops and the projection are each a method with a
  loop. Each is proved equal to a function of its inputs.
- **The functions carry the properties.** Lemmas about those functions prove
  what the code promises:
  - the search finds exactly the occurrences;
  - the tables hold the least safe shifts;
  - the sort permutes and orders;
  - the pairing matches nested and sibling tags;
  - errors arise only where the code raises them.
- **Exceptions are values.** They are modelled by the `Fault` and
  `GuardError` datatypes.
- **Null is `Option`.** A null string or array is `None`.

## Model

| member | source | states |
|---|---|---|
| Guard.ArgumentNotNull | Parser/TestParser/Sys/Guard.cs:7-13 | passes exactly when the argument differs from the default value; otherwise an ArgumentNullException naming "argument" with "<name> isn't defined" |
| Guard.ArgumentNotEmpty | Parser/TestParser/Sys/Guard.cs:15-28 | passes exactly when the string holds a non-white-space character; null gives ArgumentNullException, a blank string ArgumentException, each carrying the argument name or the fallback text |
| Guard.ArgumentNotEmptyText | Parser/TestParser/Sys/Guard.cs:15-28 | a failed check names the argument when that name is usable, and otherwise "argument is null" or "argument is empty". A blank string's ArgumentException reports that name alone; a null's ArgumentNullException reports "Value cannot be null. (Parameter '<name>')". The message is never blank |
| TagSearchIndex.Marker.IsClosingTag | Parser/TestParser/Parsing/TagSearchIndex.cs:26-32 | a marker closes exactly when it does not open |
| TagSearchIndex.Equals | Parser/TestParser/Parsing/TagSearchIndex.cs:38-61 | two nulls are equal, a null never equals a marker, two markers are equal exactly when their positions are |
| TagSearchIndex.GetHashCode | Parser/TestParser/Parsing/TagSearchIndex.cs:63-68 | 0 for null, the position otherwise |
| TagSearchIndex.EqualMarkersHashEqually | Parser/TestParser/Parsing/TagSearchIndex.cs:36-69 | equal markers have equal hash codes, as an equality comparer must |
| TagSearchIndex.EqualsIsEquivalence | Parser/TestParser/Parsing/TagSearchIndex.cs:38-61 | the comparer is reflexive, symmetric and transitive |
| TagSearchIndex.RoleIgnored | Parser/TestParser/Parsing/TagSearchIndex.cs:60 | an opener and a closer at the same position compare equal, so a union keeps only the first |
| StartIndexComparer.Equals | Parser/TestParser/Parsing/StartIndexComparer.cs:23-46 | identical results are equal, a null never equals a result, two results are equal exactly when their start indices are |
| StartIndexComparer.GetHashCode | Parser/TestParser/Parsing/StartIndexComparer.cs:48-53 | 0 for null, the start index otherwise |
| StartIndexComparer.EqualResultsHashEqually | Parser/TestParser/Parsing/StartIndexComparer.cs:23-53 | equal results have equal hash codes |
| StartIndexComparer.EqualsIsEquivalence | Parser/TestParser/Parsing/StartIndexComparer.cs:23-46 | the comparer is reflexive, symmetric and transitive |
| ATagResult.ATagResult.IsValid | Parser/TestParser/Parsing/ATagResult.cs:21-27 | an anchor is valid exactly when its href holds a non-white-space character |
| ATagResult.IsValidDependsOnlyOnHref | Parser/TestParser/Parsing/ATagResult.cs:21-27 | two anchors with the same href are both valid or both invalid |
| GenericTagResult.GenericTagResult.constructor | Parser/TestParser/Parsing/GenericTagResult.cs:29-32 | a new tag has an empty dictionary, no text and zero indices |
| GenericTagResult.GenericTagResult.IsValid | Parser/TestParser/Parsing/GenericTagResult.cs:21-27 | a generic tag is always valid |
| GenericTagResult.GenericTagResult.AddAttributePair | Parser/TestParser/Parsing/GenericTagResult.cs:34-39 | the name is checked by ArgumentNotEmpty; on success the pair is set, replacing an earlier value, and on failure the dictionary is unchanged |
| SearchEngineResult.SearchEngineResult.Success | Parser/TestParser/Parsing/SearchEngineResult.cs:11-17 | a result succeeds exactly when its message is null or white space |
| SearchEngineResult.SearchEngineResult.constructor | Parser/TestParser/Parsing/SearchEngineResult.cs:21-22 | a new result holds neither data nor message |
| SearchEngineResult.SearchEngineResult.FromData | Parser/TestParser/Parsing/SearchEngineResult.cs:24-27 | the data is stored, there is no message, and the result succeeds |
| SearchEngineResult.SearchEngineResult.WithError | Parser/TestParser/Parsing/SearchEngineResult.cs:29-34 | a blank message is rejected with the guard's error for "errorMessage"; otherwise the result holds the message, no data, and does not succeed |
| SearchEngineResult.SearchEngineResult.Union | Parser/TestParser/Parsing/SearchEngineResult.cs:36-52 | a null argument or one without data changes nothing; otherwise the data becomes the union by start index, so its start indices are those of both sides, and the message joins both with ". " |
| SearchEngineResult.MergedErrorSuccess | Parser/TestParser/Parsing/SearchEngineResult.cs:46-51 | the joined message is blank exactly when both messages are, and it ends with the other result's message when that one is not blank |
| Enumerable.DistinctFrom | Parser/TestParser/Parsing/SearchEngine.cs:227 | the union's filter keeps items of the input whose key is new, and the keys it keeps are pairwise distinct |
| Enumerable.Where | Parser/TestParser/Parsing/SearchEngine.cs:191 | the filter keeps exactly the items satisfying the predicate, in order |
| Enumerable.UnionKeepsKeys | Parser/TestParser/Parsing/SearchEngineResult.cs:44 | the keys of a union are the keys of both sequences |
| Enumerable.UnionOfDistinct | Parser/TestParser/Parsing/SearchEngine.cs:227 | the union of two key-distinct sequences is the first followed by the items of the second whose key the first lacks |
| Enumerable.UnionOfDisjoint | Parser/TestParser/Parsing/SearchEngineResult.cs:44 | the union of two key-distinct sequences that share no key is their concatenation |
| Enumerable.OccursAtMostOnce | Parser/TestParser/Parsing/SearchEngine.cs:227 | in a sequence with distinct keys every item occurs at most once |
| Enumerable.PermutedDistinctKeys | Parser/TestParser/Parsing/SearchEngine.cs:227-229 | reordering a key-distinct sequence keeps its keys distinct |
| SymbolMap.SymbolOf | Parser/TestParser/Parsing/SearchEngine.cs:18-37 | a character has a symbol exactly when it lies in 0x20-0x7E or 0x400-0x4FE; every symbol is below 95 + 255, with the Latin range first |
| SymbolMap.SymbolOfInjective | Parser/TestParser/Parsing/SearchEngine.cs:24-37 | two characters never share a symbol |
| SymbolMap.SymbolOfOnto | Parser/TestParser/Parsing/SearchEngine.cs:18-37 | every slot of the 350-symbol alphabet belongs to some character |
| SymbolMap.BuildSymbolHash | Parser/TestParser/Parsing/SearchEngine.cs:21-38 | the dictionary built by the static constructor maps exactly the characters SymbolOf maps, to the same symbols, and holds no other key |
| ShiftSpec.SuffixLengthOfLast | Parser/TestParser/Parsing/SearchEngine.cs:500 | the suffix entry of the last position is the pattern length |
| ShiftSpec.GoodSuffixShiftLeast | Parser/TestParser/Parsing/SearchEngine.cs:447-485 | the good-suffix shift at a mismatch is the least shift in 1..m that agrees with the matched suffix; no smaller shift does |
| ShiftSpec.ValidShiftInside | Parser/TestParser/Parsing/SearchEngine.cs:478-481 | a shift below the mismatch position is valid exactly when the suffix table places it there |
| ShiftSpec.ValidShiftPast | Parser/TestParser/Parsing/SearchEngine.cs:463-476 | a shift beyond the mismatch is valid exactly when it is m or a border of the pattern |
| ShiftSpec.GoodSuffixShiftIsTableValue | Parser/TestParser/Parsing/SearchEngine.cs:458-481 | the least valid shift is the value the border loop and then the suffix loop leave in each entry |
| ShiftSpec.BadCharEntryMeaning | Parser/TestParser/Parsing/SearchEngine.cs:416-439 | an entry is m exactly when its symbol is absent from the pattern without its last character; otherwise it is the distance from the symbol's last occurrence to the end |
| ShiftTables.SuffixTable | Parser/TestParser/Parsing/SearchEngine.cs:493-528 | every entry is the length of the longest suffix of the pattern ending at that position |
| ShiftTables.GoodShiftTable | Parser/TestParser/Parsing/SearchEngine.cs:447-485 | every entry is the least valid good-suffix shift |
| ShiftTables.ApplyBorders | Parser/TestParser/Parsing/SearchEngine.cs:463-476 | after the border loop each entry is the least border shift past it, or m |
| ShiftTables.ApplySuffixHits | Parser/TestParser/Parsing/SearchEngine.cs:478-481 | after the suffix loop each entry is the last suffix hit for it, or the border value |
| ShiftTables.BadCharacterTable | Parser/TestParser/Parsing/SearchEngine.cs:416-439 | 350 entries, each the bad-character entry of its symbol |
| TurboSearch.OccurrencesFromMeaning | Parser/TestParser/Parsing/SearchEngine.cs:326-332 | the reference search: every occurrence from a position on, ascending, and nothing else |
| TurboSearch.ScanFindsMatch | Parser/TestParser/Parsing/SearchEngine.cs:353-364 | the comparison loop, with its jump over the remembered factor, ends below zero exactly when the pattern occurs at the window |
| TurboSearch.GoodSuffixSafe | Parser/TestParser/Parsing/SearchEngine.cs:386 | no occurrence lies before the good-suffix shift |
| TurboSearch.BadCharSafe | Parser/TestParser/Parsing/SearchEngine.cs:376-383 | no occurrence lies before the bad-character shift, including for characters outside the alphabet |
| TurboSearch.TurboSafe | Parser/TestParser/Parsing/SearchEngine.cs:373-374 | no occurrence lies before the turbo shift |
| TurboSearch.NoOccurrenceSkipped | Parser/TestParser/Parsing/SearchEngine.cs:364-400 | without the floor, or with memory at most 1, no occurrence lies strictly between a window and the next one |
| TurboSearch.RunExact | Parser/TestParser/Parsing/SearchEngine.cs:351-404 | from any window whose memory is right, the loop reports exactly the occurrences from there on |
| TurboSearch.RunSound | Parser/TestParser/Parsing/SearchEngine.cs:351-404 | whatever the pattern, every reported position is an occurrence, in ascending order |
| TurboSearch.SearchAsWrittenSound | Parser/TestParser/Parsing/SearchEngine.cs:332-408 | the search as written reports only occurrences, in ascending order |
| TurboSearch.SearchAsWrittenExact | Parser/TestParser/Parsing/SearchEngine.cs:332-408 | the search as written is exact for a pattern whose characters are in the alphabet and whose last two characters do not occur together earlier |
| TurboSearch.SearchCorrectedExact | Parser/TestParser/Parsing/SearchEngine.cs:332-408 | without the floor the search finds exactly all occurrences of any pattern whose characters are in the alphabet |
| TurboBoyerMoore.CompareWindow | Parser/TestParser/Parsing/SearchEngine.cs:353-362 | the comparison loop stops where the reference scan says |
| TurboBoyerMoore.NextShift | Parser/TestParser/Parsing/SearchEngine.cs:364-400 | the next shift and memory are those of the reference step, floor included |
| TurboBoyerMoore.Search | Parser/TestParser/Parsing/SearchEngine.cs:349-404 | the search loop reports the reference run's positions, each marker carrying the requested role |
| TurboBoyerMoore.TurboBoyerMoore | Parser/TestParser/Parsing/SearchEngine.cs:332-408 | returns the as-written positions as markers of the given role, each one an occurrence, strictly ascending, and exactly all occurrences for patterns meeting the exactness condition |
| TurboBoyerMoore.SearchedTermsFoundExactly | Parser/TestParser/Parsing/HtmlTerm.cs:20-55 | for all ten delimiters the engine searches, the search as written finds exactly all occurrences |
| TurboFinding.FloorSkipsOccurrence | Parser/TestParser/Parsing/SearchEngine.cs:394-397 | for "cbcaccbc" in "accbccbccbcaccbc" the pattern occurs at 8, the search as written reports nothing, and the search without the floor reports [8] |
| TurboFinding.OnlyOccurrence | Parser/TestParser/Parsing/SearchEngine.cs:394-397 | 8 is the only occurrence in that example |
| StopSpaces.Pairing | Parser/TestParser/Parsing/SearchEngine.cs:162-172 | equal counts pair the k-th begin with the k-th end; different counts give no range |
| StopSpaces.InnerFindHtmlIgnore | Parser/TestParser/Parsing/SearchEngine.cs:155-173 | the ranges pair the as-written positions of both delimiters, and each range runs from a begin occurrence to an end occurrence |
| StopSpaces.InnerFindHtmlComments | Parser/TestParser/Parsing/SearchEngine.cs:131-134 | the ranges of "<!--" and "-->" |
| StopSpaces.InnerFindHtmlNoIndex | Parser/TestParser/Parsing/SearchEngine.cs:141-146 | the `<noindex>` ranges followed by the comment-style noindex ranges |
| StopSpaces.InnerFindCommonStopSpaces | Parser/TestParser/Parsing/SearchEngine.cs:119-124 | comment ranges followed by noindex ranges |
| StopSpaces.LiteralSpansPairOccurrences | Parser/TestParser/Parsing/SearchEngine.cs:155-173 | for the engine's three delimiter pairs, the ranges pair true occurrences by rank, nested or not; different counts give none |
| StopSpaces.Keep | Parser/TestParser/Parsing/SearchEngine.cs:186-194 | the filter keeps exactly the markers outside every range, drawn from the input |
| StopSpaces.KeepNone | Parser/TestParser/Parsing/SearchEngine.cs:186 | with no ranges nothing is dropped |
| StopSpaces.KeepStep | Parser/TestParser/Parsing/SearchEngine.cs:189-193 | filtering one range at a time equals filtering against all ranges at once |
| StopSpaces.KeepAppend | Parser/TestParser/Parsing/SearchEngine.cs:191-192 | the filter distributes over concatenation |
| Text.IndexOf | Parser/TestParser/Parsing/SearchEngine.cs:238 | -1 exactly when the character is absent; otherwise its first position |
| Text.SplitKeepsText | Parser/TestParser/Parsing/SearchEngine.cs:248 | the pieces of a split, put back together, are the text without its separators |
| Text.SplitTokens | Parser/TestParser/Parsing/SearchEngine.cs:248 | every piece is non-empty and holds no separator |
| Text.SplitAtSeparator | Parser/TestParser/Parsing/SearchEngine.cs:248 | splitting a + separator + b is splitting a, then splitting b |
| Text.SplitSingle | Parser/TestParser/Parsing/SearchEngine.cs:248 | a non-empty text without the separator splits into itself |
| Text.TrimStart | Parser/TestParser/Parsing/SearchEngine.cs:278 | removes exactly the leading run of the character |
| Text.TrimEnd | Parser/TestParser/Parsing/SearchEngine.cs:278 | removes exactly the trailing run of the character |
| Text.Trim | Parser/TestParser/Parsing/SearchEngine.cs:278 | the result neither starts nor ends with the character, and a text without it is unchanged |
| Text.Substring | Parser/TestParser/Parsing/SearchEngine.cs:310 | succeeds exactly when start and length lie inside the string, with the characters from start; otherwise the runtime's three failure kinds |
| Attributes.RawAttributes | Parser/TestParser/Parsing/SearchEngine.cs:238-246 | the text before the first '>' when that is past position 0, the whole text otherwise |
| Attributes.GlueTokens | Parser/TestParser/Parsing/SearchEngine.cs:249-270 | the gluing loop computes Glue of the split tokens |
| Attributes.GlueKeepsText | Parser/TestParser/Parsing/SearchEngine.cs:249-270 | gluing never loses or reorders text: joined with spaces it reads as the tokens did |
| Attributes.BareAfterPairGlued | Parser/TestParser/Parsing/SearchEngine.cs:253-257 | a token without '=' after a pair joins that pair's value |
| Attributes.BareAfterQuotedBareSeparate | Parser/TestParser/Parsing/SearchEngine.cs:255-263 | once a glued piece ends with a quote, the next bare token starts a new attribute |
| Attributes.AddToken | Parser/TestParser/Parsing/SearchEngine.cs:275-283 | a token fails only through the name check for "name" |
| Attributes.AddTokens | Parser/TestParser/Parsing/SearchEngine.cs:272-284 | the attribute loop fails only through the name check for "name" |
| Attributes.LastAssignmentWins | Parser/TestParser/Parsing/SearchEngine.cs:273-284 | after the loop a named attribute holds the quote-trimmed value of its last assignment |
| Attributes.BlankNameRejected | Parser/TestParser/Parsing/SearchEngine.cs:275-278 | a token whose text before '=' is blank makes the loop fail |
| Attributes.CutKeepsTextAfterFirstTagEnd | Parser/TestParser/Parsing/SearchEngine.cs:286-288 | the cut never fails on a whole inner text, keeps what follows the first '>' when that is at least two characters long, and otherwise gives "" |
| Attributes.ResolveFailsOnlyOnNames | Parser/TestParser/Parsing/SearchEngine.cs:235-289 | the attribute resolver fails only with a rejected name, a fault the engine can raise |
| Attributes.ResolveAttributes | Parser/TestParser/Parsing/SearchEngine.cs:235-289 | the resolver sets the raw attribute text, the dictionary and the cut text as Resolve says, or reports its fault; the indices are unchanged |
| Attributes.CutHtml | Parser/TestParser/Parsing/SearchEngine.cs:286-288 | the tag's text becomes the cut, or the substring fault is reported; nothing else changes |
| Attributes.AddAttributes | Parser/TestParser/Parsing/SearchEngine.cs:272-284 | the dictionary becomes AddTokens of the glued tokens, or the first fault is reported; the texts and indices are unchanged |
| Attributes.AddAttribute | Parser/TestParser/Parsing/SearchEngine.cs:275-283 | one step of the attribute loop advances AddTokens by one token |
| HybridSortSpec.CompareMeaning | Parser/TestParser/Sys/HybridSort.cs:118-123 | a zero value never sorts before anything; otherwise Compare is `<`, and it is asymmetric |
| HybridSortSpec.StartGapIndexMeaning | Parser/TestParser/Sys/HybridSort.cs:52-61 | the first gap is the largest of Ciura's gaps below half the length, or 1 |
| HybridSortSpec.ShellSegmentPermutes | Parser/TestParser/Sys/HybridSort.cs:50-78 | the Shell sort of a segment permutes the array |
| HybridSortSpec.ShellSegmentSorts | Parser/TestParser/Sys/HybridSort.cs:50-78 | after the Shell sort no item of the segment belongs before its predecessor |
| HybridSortSpec.MergedSorted | Parser/TestParser/Sys/HybridSort.cs:85-103 | merging two sorted runs gives a sorted run |
| HybridSortSpec.MergeAtPermutes | Parser/TestParser/Sys/HybridSort.cs:80-104 | a merge permutes the array |
| HybridSortSpec.MergeAtKeepsOrder | Parser/TestParser/Sys/HybridSort.cs:80-104 | a merge of two sorted runs leaves the range sorted and the rest of the array unchanged |
| HybridSortSpec.MergePassesSorted | Parser/TestParser/Sys/HybridSort.cs:39-45 | the bottom-up merge passes leave the array sorted once its runs are sorted |
| HybridSortSpec.ChunkSortsKeepZeros | Parser/TestParser/Sys/HybridSort.cs:33-36 | the chunk sorts keep the values non-negative and any zeros in front |
| HybridSortSpec.HybridSortedPermutes | Parser/TestParser/Sys/HybridSort.cs:15-48 | the sort permutes its input and leaves arrays of length at most 1 alone |
| HybridSortSpec.HybridSortedAscending | Parser/TestParser/Sys/HybridSort.cs:15-48 | the sort leaves markers with non-negative values, zeros first, in ascending order |
| HybridSort.Swap | Parser/TestParser/Sys/HybridSort.cs:107-115 | exchanges the two entries and nothing else |
| HybridSort.SiftChain | Parser/TestParser/Sys/HybridSort.cs:69-75 | the inner gap loop computes Sift |
| HybridSort.GapPass | Parser/TestParser/Sys/HybridSort.cs:66-76 | one gap's pass computes Pass |
| HybridSort.ShellSort | Parser/TestParser/Sys/HybridSort.cs:50-78 | the array becomes ShellSegment of its old contents |
| HybridSort.ArrayCopy | Parser/TestParser/Sys/HybridSort.cs:83 | copies the range into the destination and changes nothing else |
| HybridSort.Merge | Parser/TestParser/Sys/HybridSort.cs:80-104 | the array becomes MergeAt of its old contents, and the buffer holds the copied range |
| HybridSort.ShellSortChunks | Parser/TestParser/Sys/HybridSort.cs:33-36 | the chunk loop computes ChunkSorts |
| HybridSort.MergeRuns | Parser/TestParser/Sys/HybridSort.cs:38-45 | the merge loops compute MergePasses |
| HybridSort.Sort | Parser/TestParser/Sys/HybridSort.cs:15-48 | a null array fails the guard for "array"; otherwise the array becomes HybridSorted of its old contents |
| EngineFault.RaisableMessageUsable | Parser/TestParser/Parsing/SearchEngine.cs:111-114 | every fault the engine can raise has a non-blank message, so the catch block's result is always accepted |
| TagPairing.KeepOutside | Parser/TestParser/Parsing/SearchEngine.cs:186-194 | the filter loop computes Keep over all ranges |
| TagPairing.RecoverEnds | Parser/TestParser/Parsing/SearchEngine.cs:196-218 | the recovery loop computes RecoverFrom |
| TagPairing.RecoveredEndsFollowStarts | Parser/TestParser/Parsing/SearchEngine.cs:196-218 | the recovered closers are drawn from the closers, are no more numerous than the openers, and each lies after the opener of its rank |
| TagPairing.InvalidHtmlUsable | Parser/TestParser/Parsing/SearchEngine.cs:220-223 | the invalid-html message passes the constructor's guard |
| TagPairing.CloseCutsBetweenDelimiters | Parser/TestParser/Parsing/SearchEngine.cs:305-311 | a closer cuts the text between the end of the opening delimiter and itself; a closer before that point makes Substring fail with a negative length |
| TagPairing.CloseTag | Parser/TestParser/Parsing/SearchEngine.cs:305-317 | closing one tag computes Close |
| TagPairing.FinishTag | Parser/TestParser/Parsing/SearchEngine.cs:309-317 | finishing a tag computes Finish |
| TagPairing.PairTags | Parser/TestParser/Parsing/SearchEngine.cs:291-319 | the stack loop computes PairFrom over the sorted markers |
| TagPairing.PairingNeedsBalance | Parser/TestParser/Parsing/SearchEngine.cs:291-319 | pairing fails when some prefix has more closers than openers, an empty-stack fault only then, and a success yields one tag per closer |
| TagPairing.PairFromBalance | Parser/TestParser/Parsing/SearchEngine.cs:291-319 | the same from any point of the loop, and every fault is one the engine can raise |
| TagPairing.CloserIsTagBuilder | Parser/TestParser/Parsing/SearchEngine.cs:305-315 | the engine's closing step keeps the start and end positions it is given, and fails only with a substring fault or a rejected name, never an empty stack |
| TagPairing.PairedStartsDistinct | Parser/TestParser/Parsing/SearchEngine.cs:291-319 | markers at distinct positions pair into tags with distinct start indices: each opener is pushed once and popped at most once |
| TagPairing.PairedSpansComeFromMarkers | Parser/TestParser/Parsing/SearchEngine.cs:295-307 | every tag starts at an opener marker and ends at a closer marker |
| TagPairing.SiblingsInOrder | Parser/TestParser/Parsing/SearchEngine.cs:291-319 | two sibling tags come out in page order |
| TagPairing.NestedInnerFirst | Parser/TestParser/Parsing/SearchEngine.cs:291-319 | a nested tag comes out before the one around it, each with its own delimiters |
| TagPairing.DelimitersAreOccurrences | Parser/TestParser/Parsing/SearchEngine.cs:177-218 | every marker kept is a true occurrence of its delimiter, outside all ranges, with the right role |
| TagPairing.FoundTagsSpanDelimiters | Parser/TestParser/Parsing/SearchEngine.cs:175-322 | the tag search either raises a raisable fault, gives data without a message, or gives only the invalid-html message when that was asked for; every tag runs from an opener occurrence to a closer occurrence, both outside the ranges |
| TagPairing.FoundStartsDistinct | Parser/TestParser/Parsing/SearchEngine.cs:175-322 | no two tags of one search start at the same position |
| TagPairing.KeepAscending | Parser/TestParser/Parsing/SearchEngine.cs:186-194 | filtering out the delimiters inside the ranges keeps the rest in ascending order |
| TagPairing.CloserRejectsZeroEnd | Parser/TestParser/Parsing/SearchEngine.cs:305-311 | no tag with a positive start can close at position 0: the cut would have a negative length |
| TagPairing.PairFromFailsAtZeroCloser | Parser/TestParser/Parsing/SearchEngine.cs:291-319 | a closer at position 0 makes the pairing raise, whatever the order of the other markers |
| TagPairing.FoundUnionZeroFirst | Parser/TestParser/Parsing/SearchEngine.cs:177-227 | the united markers handed to the sort are never negative, and an opener at position 0 is the first of them |
| TagPairing.FoundEntriesSortedOrUnpaired | Parser/TestParser/Parsing/SearchEngine.cs:227-319 | the markers handed to the sort are never negative, and either the sort leaves them ascending or the pairing raises |
| TagPairing.SortEntries | Parser/TestParser/Parsing/SearchEngine.cs:227-229 | the markers are sorted as HybridSorted says |
| TagPairing.InnerFindTag | Parser/TestParser/Parsing/SearchEngine.cs:175-322 | the result, or the fault raised, is FindTag of the page, delimiters and ranges |
| SearchEngine.ProjectMeaning | Parser/TestParser/Parsing/SearchEngine.cs:64-99 | the anchor holds the tag's text, each known attribute's value or None, zero indices, and is external exactly when an href is present and does not start with "/" |
| SearchEngine.ProjectIgnoresOtherAttributes | Parser/TestParser/Parsing/SearchEngine.cs:74-95 | attributes the switch does not name never change the anchor |
| SearchEngine.ProjectTag | Parser/TestParser/Parsing/SearchEngine.cs:68-98 | the switch over the attributes, in any enumeration order, gives Project of the tag |
| SearchEngine.ProjectAll | Parser/TestParser/Parsing/SearchEngine.cs:66-99 | one anchor per tag, in order |
| SearchEngine.ProjectTags | Parser/TestParser/Parsing/SearchEngine.cs:64-99 | the projection loop computes ProjectAll |
| SearchEngine.BuildResult | Parser/TestParser/Parsing/SearchEngine.cs:62-109 | data gives anchors with the tags' message. No data gives the message alone; when that message is blank, the constructor's guard throws and the catch keeps the guard's exception text. SearchEngine.FindATagsMeaning shows the engine never takes that last path |
| SearchEngine.CatchFault | Parser/TestParser/Parsing/SearchEngine.cs:111-114 | a caught fault becomes a result holding its message |
| SearchEngine.InnerFindATags | Parser/TestParser/Parsing/SearchEngine.cs:49-117 | fails exactly for a blank page, with the guard's error for "html"; otherwise the result is FindATags of the page and ranges |
| SearchEngine.SpellingsApart | Parser/TestParser/Parsing/SearchEngine.cs:57-60 | "<a" and "<A" never occur at the same position |
| SearchEngine.FindATagsMeaning | Parser/TestParser/Parsing/SearchEngine.cs:49-117 | no anchors exactly when either spelling's search raises, and then the fault's non-blank message. Otherwise the anchors are the lower-case tags then the upper-case ones, projected in order, with no message. No two of those tags start at the same position, so the union drops none. Each tag runs between real delimiters of one spelling, outside the ranges |
| SearchEngine.LinksMeaning | Parser/TestParser/Parsing/SearchEngine.cs:40-47 | the links are there exactly when neither search raises. They are then the projections of tags with distinct starts, each running between real anchor delimiters outside every comment and noindex range |
| SearchEngine.FindLinks | Parser/TestParser/Parsing/SearchEngine.cs:40-47 | fails exactly for a blank page, with the guard's error for "html"; otherwise the anchors of the page with its comment and noindex ranges ignored |
| EngineExamples.Unquoted | Parser/TestParser/Parsing/SearchEngine.cs:278 | trimming quotes from a quoted value without inner quotes gives the value |
| EngineExamples.PairToken | Parser/TestParser/Parsing/SearchEngine.cs:275-278 | a name="value" token sets that attribute to the unquoted value |
| EngineExamples.TagEndAfter | Parser/TestParser/Parsing/SearchEngine.cs:238-288 | with the first '>' after the raw attributes, the raw text is what precedes it and the cut keeps what follows when that is at least two characters long |
| EngineExamples.HrefOnly | Parser/TestParser/Parsing/SearchEngine.cs:235-289 | a tag whose only attribute is href="v" resolves to that href, its raw text and the text after '>' |
| EngineExamples.SiblingTexts | Parser/TestParser.Tests/SearchEngineTest.cs:16 | the first test page holds the two anchors' inner texts between their delimiters |
| EngineExamples.FirstTextResolves | Parser/TestParser.Tests/SearchEngineTest.cs:23-24 | the first anchor of that page resolves to text "First" and href "#first" |
| EngineExamples.SecondTextResolves | Parser/TestParser.Tests/SearchEngineTest.cs:25-26 | the second anchor resolves to text "Second" and href "#second" |
| EngineExamples.SiblingTagsClose | Parser/TestParser.Tests/SearchEngineTest.cs:14-27 | both anchors of that page close at their closers |
| EngineExamples.SiblingsDelimiters | Parser/TestParser.Tests/SearchEngineTest.cs:16 | the first test page has "<a" at 45 and 71 and "</a>" at 67 and 95 |
| EngineExamples.SiblingsPageAnchors | Parser/TestParser.Tests/SearchEngineTest.cs:14-27 | given that page's delimiter markers, the pairing gives two anchors: ("First", "#first") then ("Second", "#second"); each tag runs from a real "<a" to a real "</a>" of the page |
| EngineExamples.TwoPairs | Parser/TestParser/Parsing/SearchEngine.cs:248-284 | two name="value" pairs separated by a space give both attributes |
| EngineExamples.LogoAttributesRead | Parser/TestParser.Tests/SearchEngineTest.cs:33 | the second test page's anchor attributes read as href "/" and itemprop "url" |
| EngineExamples.LogoTextResolves | Parser/TestParser.Tests/SearchEngineTest.cs:40-41 | the anchor's inner text is the img element and its href is "/" |
| EngineExamples.LogoTagCloses | Parser/TestParser.Tests/SearchEngineTest.cs:30-42 | the anchor of that page closes at its closer |
| EngineExamples.LogoDelimiters | Parser/TestParser.Tests/SearchEngineTest.cs:33 | the second test page has "<a" at 46 and "</a>" at 145 |
| EngineExamples.LogoPageAnchor | Parser/TestParser.Tests/SearchEngineTest.cs:30-42 | given that page's delimiter markers, the pairing gives one anchor whose text is the img element and whose href is "/"; the tag runs from a real "<a" to a real "</a>" of the page |

## Left out

- Memo caches: the ConcurrentDictionary caches of the three tables are not modelled. Every call recomputes its table, which gives the same values.
- Strings are sequences of Dafny characters. UTF-16 surrogate halves and culture-sensitive comparison are not modelled; IndexOf, StartsWith and EndsWith are ordinal.
- `int` overflow is not modelled: positions and lengths are unbounded integers, since a page of 2^31 characters cannot be held in a .NET string anyway.
- TurboBoyerMoore.TurboBoyerMoore: requires a non-empty pattern. The engine only searches non-empty literals, and the source's behaviour on an empty pattern is not modelled.
- Guard.ErrorText: the text of an ArgumentNullException follows .NET Core 3.0 and later, "Value cannot be null. (Parameter '<name>')". .NET Framework writes "Parameter name: <name>" on a second line instead. The target framework is not part of this model.
- Fault messages: the runtime's exception texts for Stack.Pop and Substring are approximations. Only their being non-blank matters to the engine.
- Logging, HybridSort's `buffer = null`, the Serilog calls and the static comparer singletons are not modelled. None of them affects a result.
- Dictionary enumeration order: SearchEngine.ProjectTag takes the attributes in an arbitrary order (`:|`) and proves the result does not depend on it.
- A null `stopSpaces` array is modelled as an empty sequence; the source treats the two alike.
- Sibling and logo test pages: EngineExamples proves that the given markers are true delimiter occurrences, and the pairing and projection from them. It does not prove that the search finds no other occurrence, so the full FindLinks call on the page text is not proved.
- The third test (Search_Links_Valid_Real_Data_1) reads a file from disk and is not part of this model.
- HybridSort.ArrayCopy: only copies between two distinct arrays, the only use the sort makes of Array.Copy.
- HybridSortSpec.HybridSortedAscending: proves ascending order only when the values are non-negative and any zeros come first. Compare treats 0 as a null item that never moves forward, so a zero-position closer behind openers stays put. The pairing then raises a fault whatever the order (TagPairing.FoundEntriesSortedOrUnpaired).
- SearchEngine.ProjectTag: start and end indices of an anchor are 0, as in the source, which never copies them.
- Attributes.CutHtml: the cut of the tag text is modelled as written, including the `tagEndIndex + 2 < searchLength` condition that empties texts shorter than two characters.
- The recursive pairing (TagPairing.PairFrom) takes the closing step as a function parameter, so the stack discipline is proved for any tag builder.
- The HTTP pool, the work queue, the command-line program and the configuration are outside the extraction engine and not part of this model.

## Findings

| source | as written | input that shows it | evidently intended | confidence | as-written member | corrected member |
|---|---|---|---|---|---|---|
| Parser/TestParser/Parsing/SearchEngine.cs:394-397 | when the turbo shift is below the bad-character shift, the shift is raised to at least `k1 + 1`, which can jump over an occurrence | pattern "cbcaccbc" in text "accbccbccbcaccbc": the pattern occurs at 8, the search reports nothing (windows 0, 5, then 9) | the Turbo Boyer-Moore search without that floor, which finds every occurrence | not executed | TurboFinding.FloorSkipsOccurrence | TurboSearch.SearchCorrectedExact |

The floor is harmless for the engine itself. Every delimiter it searches has
its characters in the alphabet and last two characters that do not recur
together earlier. Under that condition the search as written is exact
(TurboSearch.SearchAsWrittenExact, TurboBoyerMoore.SearchedTermsFoundExactly).
