# Document analyzer — a verified model of its core

The document analyzer is a Flask application. It takes PDF and DOCX uploads
and queues them for a background worker. The worker extracts the text,
segments it into paragraphs, and stores each paragraph once by its content
hash, sharing it across documents. It also records the template placeholders
it finds, such as `<<name>>`, `{{name}}` and `${name}`. The analysis functions
then report:

- exact duplicates;
- near-duplicate pairs;
- placeholder usage counts;
- paragraph length statistics;
- phrases that recur across paragraphs.

A small browser script renders a word-level diff of two paragraphs.

This project models that core in Dafny and proves what each operation
promises. Each Python or JavaScript function that only computes a value
becomes a Dafny function with lemmas about it. Each loop becomes a `method`
proved against such a function. The worker's mutable state (the queue, the
document records, the shared paragraph and variable tables) becomes the class
`Worker.Application`. A single worker iteration is specified by the function
`Worker.Step` on the table values.

Paragraph segmentation is modelled as written, and the pipeline uses that
version. As written it cannot split a text, so a processed document gets at
most one paragraph: the whole text with its whitespace collapsed and
stripped. The corrected segmentation is stated beside it (see "## Findings").
A paragraph object's position is its index among the segments before the
five-character filter (utils/document.py:237-248).

Modules, by source file:

| module | source | flavour |
|---|---|---|
| `DocumentIngest`, `Segmentation`, `Placeholders`, `Text` | utils/document.py | functions plus the paragraph and match loops as methods |
| `Analyzer`, `Similarity`, `Usage`, `Phrases` | utils/analyzer.py | functions, with every loop as a method |
| `Models` | models.py | status and naming functions; the similarity association as a class |
| `Worker`, `Registry` | app.py | the application state as a class; one worker iteration as a method |
| `TextDiff`, `HtmlEscape` | static/js-main.js | the LCS matrix as an `array2`; the backtrack and HTML loops as methods |
| `Seqs`, `Grouping`, `Tally`, `Sorting` | — | shared definitions: flat-map, grouping by key, counting, and the stable descending sort that Python's `sorted(..., reverse=True)` performs |

## Model

| member | source | states |
|---|---|---|
| DocumentIngest.AllowedFileIff | utils/document.py:14-16 | a file name is allowed exactly when it has a dot and the text after its last dot, lower-cased, is an allowed extension |
| DocumentIngest.DocxPageCount | utils/document.py:144-146 | the DOCX page estimate is at least one, is one below 4000 characters, and otherwise is the number of whole 2000-character pages |
| DocumentIngest.RecordsSpec | utils/document.py:236-249 | every paragraph object carries a segment of at least five characters, the hash of that segment and the segment's index, in increasing index order |
| DocumentIngest.RecordsComplete | utils/document.py:236-249 | a segment index gets a paragraph object exactly when the segment has at least five characters |
| DocumentIngest.HasPositionAppend | utils/document.py:236-249 | a position is present in a concatenation of paragraph lists exactly when it is present in one of the parts |
| DocumentIngest.ProcessDocument | utils/document.py:209-262 | an unsupported type fails with "Unsupported file type: …"; a reader error fails with that error; otherwise text, layout and page count pass through, together with the paragraph objects of the as-written segmentation and the placeholders of the full text |
| DocumentIngest.ProcessedParagraphs | utils/document.py:233-249 | the paragraph objects of a full text are at most one: the whole text with its whitespace collapsed and stripped, at position 0, and none when that has fewer than five characters |
| Segmentation.SegmentsShape | utils/document.py:163-178 | as written, the whitespace collapse runs before the split, so there is at most one segment: the whole collapsed text stripped, when that is non-empty |
| Segmentation.SegmentsWhole | utils/document.py:163-178 | as written the segments are exactly the whole text with its whitespace collapsed and stripped, or none when that is empty |
| Segmentation.BlankLineIgnored | utils/document.py:163-178 | as written, two paragraphs separated by a blank line give at most one segment, where the corrected segmentation gives two |
| Segmentation.NoLineFeedAfterCollapse | utils/document.py:166 | collapsing whitespace leaves no line feed, so the paragraph split that follows cannot fire |
| Segmentation.SegmentParagraphs | utils/document.py:163-178 | the loop collapses the whitespace, splits on blank-line breaks, strips each piece and keeps the non-empty ones, giving the as-written segmentation |
| Segmentation.SegmentsClean | utils/document.py:172-176 | every corrected segment is non-empty, has no whitespace at either end and holds no line feed |
| Segmentation.SplitsAtBlankLine | utils/document.py:169 | two trimmed single-line paragraphs joined by a blank line split into exactly those two, and each is kept as its own segment |
| Segmentation.SplitBlankLine | utils/document.py:169 | the split of two single-line texts joined by a blank line returns the two texts |
| Segmentation.BreakAtBlankLine | utils/document.py:169 | two line feeds followed by non-whitespace are a break ending right after them |
| Segmentation.NoBreakInside | utils/document.py:169 | no break starts inside a trimmed text without line feeds |
| Segmentation.SplitWithoutNewline | utils/document.py:169 | with no line feed left, the rest of the text is one piece |
| Segmentation.CleanPieceKeeps | utils/document.py:172-176 | a non-empty trimmed piece survives cleaning |
| Segmentation.LastCrLf | utils/document.py:169 | a reported carriage-return line-feed pair is really there |
| Segmentation.BreakAt | utils/document.py:169 | a reported break lies past its start, with a line feed at the start or just after it |
| Segmentation.StripKeepsOut | utils/document.py:166 | stripping introduces no character that was absent |
| Text.TrimLeft | utils/document.py:166 | the result is a suffix of the input, what was removed is whitespace, and the result starts with non-whitespace |
| Text.TrimRight | utils/document.py:166 | the result is a prefix of the input, what was removed is whitespace, and the result ends with non-whitespace |
| Text.Strip | utils/document.py:166 | the result is trimmed and is the input with whitespace removed from both ends |
| Text.StripTrimmed | utils/document.py:166 | stripping a trimmed text changes nothing |
| Text.CollapseWhitespace | utils/document.py:166 | the result has no whitespace but the plain space, never two spaces in a row, and starts as the input does (a space for leading whitespace) |
| Text.CollapseWordPrefix | utils/document.py:166 | whitespace-free text passes through the substitution unchanged |
| Text.CollapseSpaceRun | utils/document.py:166 | a maximal whitespace run, of any length and any whitespace characters, becomes exactly one space |
| Text.CollapseRun | utils/document.py:166 | a word, a whitespace run and the rest become the word, one space and the collapsed rest |
| Text.StripCollapseJoin | utils/analyzer.py:17 | collapsing whitespace and stripping gives the words of `split()` joined by single spaces |
| Text.CollapseKeepsVisible | utils/document.py:166 | collapsing whitespace keeps every non-whitespace character, in order |
| Text.SplitWords | utils/analyzer.py:193 | `split()` yields non-empty words without whitespace |
| Text.SplitWordsVisible | utils/analyzer.py:193 | the words of `split()`, concatenated, are exactly the non-whitespace characters of the text, in order |
| Text.SplitJoin | utils/analyzer.py:200 | splitting words joined by single spaces gives back the words |
| Text.NatToString | app.py:450 | the decimal string of a page count is non-empty, all digits, ends in the last digit, and has one digit exactly below ten |
| Text.NatToStringInjective | app.py:450 | distinct page counts give distinct decimal strings |
| Text.LastIndexOf | utils/document.py:16 | the index found holds the character, with none after it, and absence is reported only when the character is missing |
| Placeholders.FindVariables | utils/document.py:180-207 | the pattern loop returns the occurrences of every built-in pattern in the order of the pattern list, each pattern's matches in text order |
| Placeholders.AppendMatches | utils/document.py:198-205 | the match loop appends one variable per match, in match order |
| Placeholders.RunWithout | utils/document.py:185-195 | the name of a match runs up to the first stop character |
| Placeholders.MatchAt | utils/document.py:185-195 | a match at a position is the opener, a non-empty name free of the stop character, and the closer |
| Placeholders.FindIter | utils/document.py:198 | every match found is well formed: its full text is opener, name and closer |
| Placeholders.MatchFound | utils/document.py:198 | a match found at a position is well formed |
| Placeholders.CloserStartsWithStop | utils/document.py:185-195 | each closer begins with the character that ends a name |
| Placeholders.TagsDistinct | utils/document.py:185-195 | the three pattern type tags differ |
| Placeholders.Pattern | utils/document.py:184-195 | each built-in pattern is recognised as its own kind |
| Placeholders.PatternOfKind | utils/document.py:184-195 | a recognised pattern is the built-in pattern of its kind |
| Placeholders.VariablesWellFormed | utils/document.py:198-205 | every variable found comes from a listed pattern, and its full match wraps its stripped name in that pattern's delimiters |
| Placeholders.OccurrenceWellFormed | utils/document.py:201-205 | the variable built from a well-formed match is well formed |
| Placeholders.UnknownPatternIgnored | utils/document.py:184-195 | a pattern other than the three built-in ones adds no variables |
| Placeholders.VariablesAppend | utils/document.py:184-205 | the variables of a concatenated pattern list are the variables of each part, in order |
| Placeholders.OccurrencesAppend | utils/document.py:198-205 | the variables of concatenated match lists are those of each part, in order |
| Placeholders.RunWithoutPrefix | utils/document.py:185-195 | a name free of the stop character, followed by the closer, is read whole |
| Placeholders.ScanWrapped | utils/document.py:185-195 | a name wrapped in a pattern's delimiters is matched at position zero, ending after the closer |
| Placeholders.MatchWrapped | utils/document.py:185-195 | matching a wrapped name gives the name as its group and the wrapped text as its full match |
| Placeholders.FindWrapped | utils/document.py:180-207 | a trimmed name wrapped in a pattern's delimiters is found as exactly one variable of that name, type and full match |
| Models.DocumentStatus | models.py:52-59 | the status is 'error' exactly when an error is recorded, 'processed' exactly when there is none and the document is processed, and 'processing' otherwise |
| Models.KindOfTag | models.py:139-149 | a pattern type tag is recognised exactly when it is one of the three tags |
| Models.KindOfTagOf | models.py:139-149 | each kind's tag is recognised as that kind |
| Models.FullNameWraps | models.py:139-149 | the full name wraps the name in the delimiters of its type, and is the bare name for any other type |
| Models.FullNameRoundTrip | models.py:139-149 | the full name rebuilt from a stored variable equals the text the placeholder search matched |
| Models.SimilarityTable.AddSimilarParagraph | models.py:94-111 | adding a pair replaces the score of an existing row for that ordered pair (the intended update; as written that branch raises, see "## Findings"), or appends a row, and keeps pairs unique |
| Models.SimilarityTable.GetSimilarityScore | models.py:113-122 | the score is that of the row for the ordered pair, or 0 when there is none |
| Models.AddThenGet | models.py:94-122 | after adding a pair its score is the one added, the scores of all other pairs are unchanged, and pairs stay unique |
| Models.RescoreAsWritten | models.py:94-111 | as written, adding a pair that already has a row fails, where the intended update gives the new score; adding a new pair agrees with the intended one |
| Models.RescoreExample | models.py:94-111 | the pair (1, 2) stored at 0.5 and added again at 0.9 fails as written and keeps 0.5, where the intended update answers 0.9 |
| Models.ScoreOfRow | models.py:113-122 | in a table with unique pairs, every row's score is what the lookup returns for its pair |
| Analyzer.RemovePunctuation | utils/analyzer.py:20 | the result has none of the removed punctuation, and every other character occurs in it exactly as often as in the input |
| Analyzer.RemovePunctuationAppend | utils/analyzer.py:20 | the deletion distributes over concatenation, so it works character by character and keeps the order |
| Analyzer.RemovePunctuationClean | utils/analyzer.py:20 | a text without any of the punctuation comes through unchanged |
| Analyzer.PreprocessTextWords | utils/analyzer.py:11-22 | the normalised text is the lower-cased text's `split()` words, joined by single spaces, with the punctuation deleted |
| Analyzer.PreprocessTextSpec | utils/analyzer.py:11-22 | the normalised text has no ASCII capital letter, none of the removed punctuation, and no whitespace character other than the plain space |
| Analyzer.LowerNoCapitals | utils/analyzer.py:14 | lower-casing leaves no capital letter |
| Analyzer.CollapseKeepsOut | utils/analyzer.py:17 | collapsing whitespace introduces no excluded character |
| Analyzer.StripNormalised | utils/analyzer.py:17 | stripping keeps a text normalised |
| Analyzer.RemovePunctuationNormalised | utils/analyzer.py:20 | removing punctuation keeps a text normalised |
| Analyzer.FindExactDuplicates | utils/analyzer.py:24-41 | the grouping loop and the size filter return the groups of paragraphs by hash that have at least two members |
| Analyzer.DuplicateGroupsSized | utils/analyzer.py:29-37 | every duplicate group has at least two members and is exactly the input paragraphs with its hash, in input order |
| Analyzer.DuplicateMembersShareHash | utils/analyzer.py:29-37 | every member of a duplicate group is an input paragraph carrying the group's hash |
| Analyzer.DuplicateIffRepeated | utils/analyzer.py:24-41 | a paragraph's hash is a duplicate key exactly when two input positions carry that hash |
| Analyzer.Min | utils/analyzer.py:172 | the minimum is an element and is at most every element |
| Analyzer.Max | utils/analyzer.py:173 | the maximum is an element and is at least every element |
| Analyzer.StatisticsSpec | utils/analyzer.py:161-179 | there are no statistics exactly for no paragraphs; otherwise the count, minimum and maximum lengths and total characters are those of the paragraphs, with the minimum at most the maximum and the maximum at most the total |
| Similarity.CompareRow | utils/analyzer.py:105-124 | the inner loop appends the qualifying pairs of one row, in column order |
| Similarity.ComparePairs | utils/analyzer.py:75-124 | the nested loops return the qualifying pairs in row-major order over the chosen indices |
| Similarity.FindSimilarParagraphs | utils/analyzer.py:43-129 | fewer than two paragraphs or a vectorisation failure give no pairs; otherwise all pairs are compared when the pair count is within the limit, and only the sampled indices when it is over |
| Similarity.RowMember | utils/analyzer.py:105-124 | a pair is in a row exactly when some later column yields it |
| Similarity.AllPairsMember | utils/analyzer.py:75-124 | a pair is in the enumeration exactly when some earlier and later index pair yields it |
| Similarity.PairsSound | utils/analyzer.py:75-124 | every reported pair comes from two chosen indices, the earlier first, and qualifies |
| Similarity.PairsComplete | utils/analyzer.py:75-124 | every qualifying pair of chosen indices is reported |
| Similarity.SimilarPairsSound | utils/analyzer.py:43-129 | every reported pair links two distinct paragraphs with different hashes, whose cosine and combined scores reach the threshold; it is ordered without sampling and drawn from the sample with it |
| Similarity.SimilarPairsComplete | utils/analyzer.py:100-126 | without sampling, every qualifying pair of paragraphs is reported |
| Similarity.SampledPairsComplete | utils/analyzer.py:68-99 | with sampling, every qualifying pair of sampled indices is reported |
| Usage.AnalyzeVariableUsage | utils/analyzer.py:131-159 | the counting loop and the sort return the usage list |
| Usage.Entries | utils/analyzer.py:149-156 | the result has one entry per name, carrying that name's count and first pattern type |
| Usage.TallyStep | utils/analyzer.py:134-143 | counting one more variable increments only its own name's count and keeps the first type seen |
| Usage.UsageMember | utils/analyzer.py:131-159 | an entry is in the usage list exactly when its name occurs, its count is that name's number of occurrences, and its type is that of the name's first occurrence |
| Usage.UsageUnique | utils/analyzer.py:131-159 | two usage entries with the same name are equal |
| Usage.EntryIsUsage | utils/analyzer.py:149-156 | each name that occurs gives a usage entry with its count and first type |
| Usage.UsageNamesDistinct | utils/analyzer.py:131-159 | no name appears twice in the usage list |
| Usage.UsageCountsSum | utils/analyzer.py:131-159 | the counts of the usage list add up to the number of variables |
| Usage.EntriesSum | utils/analyzer.py:149-156 | the counts of the entries for a list of names add up to the number of variables with those names |
| Usage.UsageOrder | utils/analyzer.py:146 | the usage list is sorted by count, descending, and entries of equal count keep the order in which their names first occurred |
| Phrases.CollectPhrases | utils/analyzer.py:198-202 | the two n-gram loops over one paragraph's words return its spans |
| Phrases.CollectRun | utils/analyzer.py:199-202 | the inner loop appends the phrases of 5 to 15 words from one start word that are long enough |
| Phrases.CollectAllPhrases | utils/analyzer.py:191-202 | the paragraph loop returns all phrases of all paragraphs, skipping those with fewer than five words |
| Phrases.CountPhrases | utils/analyzer.py:205-210 | the counting loop gives each phrase its number of occurrences, with keys in the order first seen |
| Phrases.CountsStep | utils/analyzer.py:205-210 | one round of the counting loop increments only the current phrase's count |
| Phrases.RepeatedPhrases | utils/analyzer.py:213 | the filter keeps the phrases counted more than once, in the order first seen |
| Phrases.IsContained | utils/analyzer.py:222-226 | the containment test holds exactly when the phrase is a substring of a phrase already selected |
| Phrases.SelectPhrases | utils/analyzer.py:219-232 | the filtering loop returns the greedy selection over the candidates |
| Phrases.ExtractCommonPhrases | utils/analyzer.py:181-235 | the whole function returns the common phrases of the paragraphs |
| Phrases.SpanMember | utils/analyzer.py:199-202 | a phrase is among the spans from one start word exactly when it joins 5 to 15 consecutive words from there and is long enough |
| Phrases.SpansMember | utils/analyzer.py:198-202 | a phrase is among the spans before a start index exactly when some earlier start word yields it |
| Phrases.RunsMember | utils/analyzer.py:198-202 | a phrase is among a paragraph's spans exactly when it joins 5 to 15 consecutive words of it and is long enough |
| Phrases.TextPhrasesMember | utils/analyzer.py:192-202 | a phrase comes from a text exactly when the text has at least five words and the phrase joins 5 to 15 consecutive ones and is long enough |
| Phrases.PhraseWords | utils/analyzer.py:198-202 | every phrase splits back into 5 to 15 words |
| Phrases.PhraseSource | utils/analyzer.py:191-202 | every collected phrase comes from one of the paragraphs |
| Phrases.CandidatesSorted | utils/analyzer.py:216 | the candidates are sorted by count, descending |
| Phrases.CandidateEntry | utils/analyzer.py:213-220 | each candidate's count is its number of occurrences, above one, and the phrase occurs |
| Phrases.CommonEntry | utils/analyzer.py:213 | each repeated entry's count is its number of occurrences, above one, and the phrase occurs |
| Phrases.GreedyBound | utils/analyzer.py:231-232 | the filter keeps at most max_phrases, or one when max_phrases is not positive |
| Phrases.GreedyKeeps | utils/analyzer.py:220-232 | no kept phrase is contained in an earlier kept one, and every kept entry is a candidate |
| Phrases.GreedySorted | utils/analyzer.py:216-232 | filtering sorted candidates keeps them sorted |
| Phrases.CommonPhrasesShape | utils/analyzer.py:181-235 | fewer than five paragraphs give nothing; the result is bounded by max_phrases, sorted by count and free of contained phrases |
| Phrases.CommonPhraseEntry | utils/analyzer.py:181-235 | every phrase reported is long enough, has 5 to 15 words, comes from a paragraph, and occurs its reported count of times, which is more than once |
| Grouping.GroupsOfSpec | utils/analyzer.py:29-37 | each group holds exactly the elements with its key, in input order, and has at least the minimum size; a key is present exactly when it has that many elements |
| Grouping.GroupsFilter | utils/analyzer.py:37 | keeping the groups larger than one gives the groups of at least two |
| Grouping.GroupsStep | utils/analyzer.py:29-34 | adding an element appends it to its key's group, creating the group if needed |
| Grouping.MemberIff | utils/analyzer.py:29-34 | an element is in the group of a key exactly when it is an input element with that key |
| Grouping.MembersNonEmpty | utils/analyzer.py:29-34 | a key's group is non-empty exactly when some element has that key |
| Grouping.TwoMembers | utils/analyzer.py:37 | a group has two members exactly when two input positions share its key |
| Grouping.MembersAppend | utils/analyzer.py:29-34 | grouping concatenated inputs concatenates the groups |
| Grouping.KeysAppend | utils/analyzer.py:29-34 | the keys of an extended input gain exactly the new element's key |
| Tally.KeyOrderMember | utils/analyzer.py:205-210 | the first-seen key order lists exactly the keys present |
| Tally.KeyOrderDistinct | utils/analyzer.py:205-210 | the first-seen key order has no repeats |
| Tally.KeyOrderFirstSeen | utils/analyzer.py:205-210 | an earlier key in the order was first seen before any occurrence of a later key |
| Tally.CountPositive | utils/analyzer.py:205-210 | a key's count is positive exactly when it occurs |
| Tally.SumCountsAll | utils/analyzer.py:134-143 | the counts of all distinct keys add up to the number of elements |
| Tally.SumOfPermutation | utils/analyzer.py:146 | reordering a list keeps the sum of its counts |
| Sorting.SortDescPermutes | utils/analyzer.py:146 | the descending sort is a permutation of its input |
| Sorting.SortDescSorted | utils/analyzer.py:146 | the descending sort's result is sorted by weight, descending |
| Sorting.SortDescStable | utils/analyzer.py:146 | the descending sort is stable: elements of equal weight keep their input order |
| Sorting.InsertDescPermutes | utils/analyzer.py:146 | inserting adds exactly the new element |
| Sorting.InsertDescSorted | utils/analyzer.py:146 | inserting into a sorted list keeps it sorted |
| Sorting.InsertDescStable | utils/analyzer.py:146 | inserting places the element after those of equal weight |
| Registry.FindFirst | app.py:91-96 | the lookup finds a record with the key, or reports that none has it |
| Registry.LinkAllKeeps | app.py:89-130 | linking keeps record keys unique and every association pointing at a record |
| Registry.LinkAllExtends | app.py:89-130 | linking only appends records and associations |
| Registry.LinkAllCovers | app.py:89-130 | after linking, the document is associated with a record for every key linked |
| Registry.LinkAllOnly | app.py:89-130 | every new association is to the record of a key that was linked |
| Registry.LinkAllCreates | app.py:89-130 | every new record is made from one of the linked items |
| Registry.LinkOneKeeps | app.py:94-107 | linking one item keeps keys unique and associations valid |
| Registry.LinkOneExtends | app.py:94-107 | linking one item only appends |
| Registry.LinkOneAssociates | app.py:94-107 | after linking one item, the document is associated with a record of its key, added only if not already there |
| Registry.AssociatedExtends | app.py:89-130 | an association survives appending records and associations |
| Worker.Application.constructor | app.py:39 | the application starts with an empty queue and empty tables |
| Worker.Application.Upload | app.py:217-229 | an upload creates an unprocessed document under a fresh id and appends that id to the queue |
| Worker.Application.ProcessNext | app.py:43-137 | with an empty queue nothing changes; otherwise the head is popped and the tables become one worker step of it |
| Worker.Application.LinkParagraphs | app.py:89-107 | the paragraph loop reuses the record of an equal hash or creates one, and associates it unless already associated |
| Worker.Application.LinkVariables | app.py:110-130 | the variable loop reuses the record of an equal name and type or creates one, and associates it unless already associated |
| Worker.StepKeepsValid | app.py:43-137 | a worker step keeps the tables valid and the set of document ids |
| Worker.StepOthersUnchanged | app.py:43-137 | a worker step changes no other document and only appends paragraph and variable records |
| Worker.StepMissingDocument | app.py:57-60 | an id with no document is dropped without change |
| Worker.StepMissingFile | app.py:63-69 | a missing file records "File <path> does not exist", so the status is 'error', and nothing else changes |
| Worker.StepFailure | app.py:72-81 | a failed processing records its error text and changes nothing else |
| Worker.StepSuccessFields | app.py:84-86 | on success the text, layout and page count are stored and the document is marked processed; its status is 'processed' unless an older error is still recorded |
| Worker.StepSuccessParagraphs | app.py:89-107 | on success every as-written segment of at least five characters is associated through the record of its hash, every new association is the hash of such a segment, hashes stay unique and no paragraph is associated twice |
| Worker.ParagraphsLinkedByHash | app.py:89-107 | linking the paragraph objects associates a record for each long segment's hash and nothing else |
| Worker.ParagraphCovered | app.py:89-107 | each segment of at least five characters ends up associated through its hash |
| Worker.ParagraphFromSegment | app.py:89-107 | each new association holds the hash of a segment of at least five characters |
| Worker.StepSuccessVariables | app.py:110-130 | on success every variable found is associated through the record of its name and type, new associations come only from variables found, and name and type pairs stay unique |
| Worker.WellLinkedExtends | app.py:89-130 | associations stay valid when records are appended |
| Worker.TemplateGroups | app.py:441-456 | the grouping loop returns the processed documents grouped by page-count key, in input order |
| Worker.PageKeyInjective | app.py:450 | two documents share a template key exactly when their page counts are equal |
| Worker.TemplateGroupsByPages | app.py:441-456 | a document's template group holds exactly the documents with its page count |
| TextDiff.WordLength | static/js-main.js:216-217 | a word runs up to the first whitespace character |
| TextDiff.SplitWs | static/js-main.js:216-217 | `split(/\s+/)` yields at least one field, none holding whitespace |
| TextDiff.SplitWsJoin | static/js-main.js:216-217 | splitting non-empty words joined by single spaces gives back the words |
| TextDiff.SplitWsVisible | static/js-main.js:216-217 | splitting keeps every non-whitespace character, in order |
| TextDiff.BuildMatrix | static/js-main.js:219-231 | every matrix cell holds the LCS length of the two word prefixes |
| TextDiff.FillRow | static/js-main.js:223-231 | filling a row makes it hold the LCS lengths and leaves later rows at zero |
| TextDiff.LcsSteps | static/js-main.js:225-229 | dropping one word changes the LCS length by zero or one |
| TextDiff.LcsUpperBound | static/js-main.js:219-231 | no common subsequence of two prefixes is longer than the matrix entry |
| TextDiff.Backtrack | static/js-main.js:233-252 | the backtrack loop returns the diff of the two word lists |
| TextDiff.WalkKeep | static/js-main.js:240-244 | an equal word is kept on both sides |
| TextDiff.WalkAdd | static/js-main.js:245-247 | a word of the second text is marked added under the matrix comparison |
| TextDiff.WalkRemove | static/js-main.js:248-250 | a word of the first text is marked removed under the matrix comparison |
| TextDiff.DiffSpellsBothTexts | static/js-main.js:233-252 | the left side spells the first text and the right side the second; nothing on the left is marked added and nothing on the right removed |
| TextDiff.DiffTextsLeft | static/js-main.js:233-252 | the left side of the diff spells the first words |
| TextDiff.DiffTextsRight | static/js-main.js:233-252 | the right side of the diff spells the second words |
| TextDiff.DiffMarks | static/js-main.js:233-252 | the left side has no added part and the right side no removed part |
| TextDiff.DiffSameWords | static/js-main.js:233-252 | the unmarked words on both sides are the same sequence |
| TextDiff.DiffSameCount | static/js-main.js:219-252 | the number of unmarked words is the LCS length |
| TextDiff.KeptWordsAreLongestCommon | static/js-main.js:219-252 | the unmarked words are a common subsequence of both texts, and none is longer |
| TextDiff.SameSubseq | static/js-main.js:233-252 | the unmarked words of a side are a subsequence of its words |
| TextDiff.AppendSpans | static/js-main.js:259-276 | each side's loop appends one span per part |
| TextDiff.FindTextDifferences | static/js-main.js:214-282 | the function returns the HTML of the diff of the two split texts |
| TextDiff.SideTags | static/js-main.js:259-276 | each side contributes two tags per part |
| TextDiff.DiffHtmlTags | static/js-main.js:254-281 | the HTML has six container tags plus two per part, since escaping keeps user text free of `<` |
| HtmlEscape.EscapeChar | static/js-main.js:150-157 | an escaped character contains no `<`, `>`, `"` or `'` |
| HtmlEscape.EscapeSinglePass | static/js-main.js:150-157 | the five chained replacements equal escaping each character once |
| HtmlEscape.EscapeAppend | static/js-main.js:150-157 | escaping distributes over concatenation |
| HtmlEscape.EscapeNoMarkup | static/js-main.js:150-157 | escaped text contains no `<`, `>`, `"` or `'` |
| HtmlEscape.EscapeAmpersands | static/js-main.js:150-157 | every `&` in escaped text opens one of the five entities |
| HtmlEscape.UnescapeEscape | static/js-main.js:150-157 | decoding the five entities gives back the original text |
| HtmlEscape.ReplaceAbsent | static/js-main.js:152-156 | replacing an absent character changes nothing |

## Left out

- Flask routes, templates, flash messages and the JSON API are not modelled. Neither is export.py, nor config.py beyond the constants the core uses: the allowed extensions, the upload folder and the placeholder patterns are parameters.
- The daemon thread, its one-second sleep, the `is_processing` flag and `start_background_thread` are out. One iteration is `Worker.Application.ProcessNext`, and the queue is an ordinary sequence, so concurrent access is not modelled.
- The exception handlers of the worker (app.py:138-145) and of `process_document` (utils/document.py:264-269) are not modelled: no operation on the worker's path is modelled as raising. The one raise modelled, in `add_similar_paragraph`, is off that path (see "## Findings").
- SQLAlchemy is reduced to values: tables are sequences, row ids are positions, and documents are a map from id to record. Commits, rollbacks and lazy loading are out.
- The `paragraph_similarity` association table of models.py:13-17 is modelled on its own, as `Models.SimilarityTable`, because the worker never writes it.
- PDF and DOCX extraction are out. Each reader is a parameter returning either the full text, layout information and page count, or an error text. Only the DOCX page-count formula is modelled, as `DocumentIngest.DocxPageCount`.
- `save_uploaded_file` is out. `os.path.join(folder, filename)` is modelled as `folder + "/" + filename`, and the file's existence is a parameter.
- Paragraph.generate_hash (SHA-256) is the parameter `sha`. Equal texts therefore get equal hashes, and nothing else about the hash is assumed.
- Text.Lower handles ASCII capitals only. Python's `lower()` also folds non-ASCII letters.
- The regular expressions of `find_variables` are modelled for the three built-in patterns. Any other pattern contributes nothing (`Placeholders.UnknownPatternIgnored`), as the source's `continue` does.
- The TF-IDF vectoriser, cosine similarity, `fuzz.ratio` and `np.random.choice` are parameters. A vectorisation failure is a boolean. The sample is required to be distinct indices of the right size, because `np.random.choice(..., replace=False)` guarantees that.
- The `avg_length` field of `get_paragraph_statistics` is out: it is a floating-point quotient. Scores are Dafny `real`s.
- The similarity score rounding used for display, and the pairs' JSON rendering, are out.
- The JavaScript functions other than `findTextDifferences` and `escapeHtml` are out, including `formatFileSize` and the dialogs.
- The JavaScript `String.replace` `$`-patterns are out, since the replacement texts contain no `$`.
- JavaScript's `split(/\s+/)` is modelled on the ECMAScript whitespace set, which differs from the set of Python's `str.isspace()` that `Text.IsSpace` lists for the Python code.
- The nested loops of `extract_common_phrases`, `find_similar_paragraphs` and `find_variables` are split into a method per inner loop (`Phrases.CollectRun`, `Phrases.IsContained`, `Similarity.CompareRow`, `Placeholders.AppendMatches`). The loop order and the results are unchanged.
- `find_exact_duplicates` and the template grouping of app.py:441-456 return dictionaries; the model returns maps (`Grouping.GroupsOf`, `Worker.TemplateGroups`), so the insertion order of the groups, which only the display order depends on, is not modelled. The order inside each group is.
- Phrases.CommonPhrasesShape: with `max_phrases` of zero or less, the filter still keeps its first candidate before checking the bound, so the bound is stated as at most one in that case.

## Findings

| source | as written | input that shows it | evidently intended | confidence | as-written member | corrected member |
|---|---|---|---|---|---|---|
| utils/document.py:166-169 | `segment_paragraphs` collapses every whitespace run, line breaks included, into one space, and only then splits on blank lines, so the split never finds a break | `"Intro.\n\nBody."` gives one paragraph, `"Intro. Body."`, instead of two | split on blank lines first, then clean each paragraph, as the function's docstring and comments describe | not executed; high, since the collapse removes every character the split pattern needs | Segmentation.BlankLineIgnored | Segmentation.SplitsAtBlankLine |
| models.py:97-104 | the lookup queries the Core table `paragraph_similarity`, and the update branch assigns `similarity_score` on the result row it gets back; such rows are read-only, so the assignment raises `AttributeError` and the score is never updated | a pair stored at 0.5 and added again at 0.9 keeps 0.5, and the call raises | update the stored score with an `update()` statement on the table | not executed; medium, from SQLAlchemy's documented read-only result rows | Models.RescoreAsWritten | Models.AddThenGet |
