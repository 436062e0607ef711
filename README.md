# League of Legends wiki and tip corpus: the data-shaping core

This project models, in Dafny, the parts of a League of Legends corpus builder that
decide which text ends up in the corpus. The builder has three such parts.

- **The namuwiki crawler helpers** (`crawler/namuwiki/namuwiki_crawler.py`):
  - file-name sanitising, decoding of `/w/` links, group-label normalisation, clipping;
  - the noise and licence filters, and harvesting titles from a page;
  - selecting the navigation tables of a seed page, and turning one table row into a group label and its titles;
  - aggregating rows into groups with the global "first group wins" rule, the per-group de-duplication, flattening the groups, and the inverse title-to-groups index;
  - the order-preserving de-duplication of the title list.
- **The namuwiki preprocessor** (`preprocessed/namuwiki/namuwiki_preprocessed_crawler.py`):
  - the text cleaner, which removes bracket tags and outline numbers, collapses whitespace and then removes reference sentences, duplicate sentences and tail repetitions;
  - the heading cleaner;
  - the section loop of `process_json_file`. It blocks sections about incidents, other game modes, or excluded topics, together with their numbered subsections. Every other section gets its heading and text cleaned, the cleaned text drops the heading where it repeats it, and the section is kept when text remains.
- **The OP.GG tip preprocessor** (`preprocessed/opgg/opgg_preprocessed_crawler.py`):
  - whitespace cleaning;
  - the de-duplication loop, which drops a tip when a kept tip has the same url, or the same cleaned title and content, and counts each kind of duplicate;
  - comment cleaning.

Modules:
- `Wrappers`: `Option`.
- `Strings`: character classes, strip, `re.sub(r'\s+', ...)`-style run substitution, replace, split and join.
- `Seqs`: order-preserving de-duplication and its properties.
- `NamuwikiHelpers`, `NavTables`, `Grouping`: the crawler.
- `NamuwikiText`, `NamuwikiSections`: the namuwiki preprocessor.
- `OpggCleaner`: the OP.GG preprocessor.

The source's loops are methods proved against specification functions. The lemmas state what
the source promises about those functions. A page is given abstractly:
- a `Table` is a sequence of `Row`s;
- a `Row` is a sequence of `Cell`s;
- a `Cell` has a header flag, its extracted text, and the targets of its `/w/` anchors in document order.

Where the code and its documentation differ, the model follows the code:
- `_row_to_group_and_titles` tests `min_links_in_row` on the title list *before* de-duplication, so a row linking one article three times passes a minimum of three (`Grouping.ParseRowMinimumBeforeDedup`).
- The tail-repetition trimmer cuts the whole repeated tail, the first copy included, and strips what remains. The repeated group is a whitespace character, a non-space character and 1 to 20 further characters.
- Outline numbers (`3.2.`, `4.`) followed by whitespace are replaced by a space anywhere they follow whitespace, not only at the start of a line.
  - Of two adjacent numbers of the same kind (both dotted, or both plain), only the first is removed, because the match consumes the whitespace the second would need (`NamuwikiText.CleanedNotIdempotent`).
  - A dotted number followed by a plain one loses both: the dotted pass leaves a space in front of the plain number, so `3.2. 4. x` becomes ` x` (`NamuwikiText.DottedThenPlainRemoved`).
- Subsection blocking is a plain string prefix test on the outline number. A blocked `1` therefore also blocks `10`, while a blocked `1.` does not block `10.`.
- The text cleaner is not idempotent: `1.2 1.2 ab.` cleans to `1.2 ab.`, and that cleans to `ab.`.
- `clean_heading` does not strip the heading before matching the outline number, whereas the number used for blocking is taken from the stripped heading.
- A tip whose content duplicates an earlier tip does not record its url. A later tip with that url but new content is therefore kept (`OpggCleaner.UrlOfContentDuplicateFree`).

## Model

| member | source | states |
|---|---|---|
| NamuwikiHelpers.SanitizeFilenameSafe | crawler/namuwiki/namuwiki_crawler.py:128-132 | the sanitised name is never empty; it holds no reserved character and no whitespace, never two dashes in a row, and no dash at either end |
| NamuwikiHelpers.DecodeTitleFromHrefSpec | crawler/namuwiki/namuwiki_crawler.py:157-167 | decoding fails exactly when the link does not start with `/w/` or nothing precedes the first `#`/`?`; otherwise the title is the percent-decoding of the undecoded path, and that path is non-empty, has no `#` or `?`, follows `/w/` directly, and ends at the end of the link or at its first `#`/`?` |
| NamuwikiHelpers.NormalizeGroupNameShape | crawler/namuwiki/namuwiki_crawler.py:170-175 | a missing, empty or whitespace-only text has no label, and neither has a cell holding only the fold widget; a label is non-empty and has no whitespace at either end; text without `[` gets its collapsed and stripped form as label when that is non-empty |
| NamuwikiHelpers.NormalizeBlank | crawler/namuwiki/namuwiki_crawler.py:170-175 | whitespace-only text has no label |
| NamuwikiHelpers.NormalizeMarkerOnly | crawler/namuwiki/namuwiki_crawler.py:173-175 | a cell whose collapsed text is just the fold widget has no label |
| NamuwikiHelpers.NormalizeUnfolded | crawler/namuwiki/namuwiki_crawler.py:170-175 | without a `[` the label is the collapsed, stripped text, or nothing when that is empty |
| NamuwikiHelpers.NormalizeGroupNameExample | crawler/namuwiki/namuwiki_crawler.py:170-175 | a padded label cell with the fold widget `[펼치기 · 접기]` normalises to the bare label |
| NamuwikiHelpers.NormalizeFolded | crawler/namuwiki/namuwiki_crawler.py:173-175 | a cell whose collapsed text is a label, one space and the fold widget normalises to that label |
| NamuwikiHelpers.ClipTextSpec | crawler/namuwiki/namuwiki_crawler.py:178-184 | missing or empty text is returned as is; otherwise the stripped text is returned when it fits in `n` characters, or else its first `n` characters less their trailing whitespace, followed by `…`: the kept part is a prefix ending in a non-space, and every dropped character of the first `n` is whitespace |
| NamuwikiHelpers.ClipLong | crawler/namuwiki/namuwiki_crawler.py:182-184 | a long text clips to at most `n + 1` characters: a prefix of at most `n` characters that does not end in whitespace, and the ellipsis |
| NamuwikiHelpers.LooksLikeNoiseSpec | crawler/namuwiki/namuwiki_crawler.py:187-197 | an accepted paragraph is at least 20 characters after stripping and starts with no file marker; every paragraph of 60 or more characters without a file marker is accepted |
| NamuwikiHelpers.LooksLikeLicenseNeedsKeyword | crawler/namuwiki/namuwiki_crawler.py:200-214 | every paragraph taken for licence text starts with the copyright notice or contains `cc by`, `저작권` or `나무위키는 ` in its lower-cased form |
| NamuwikiHelpers.SortedSet | crawler/namuwiki/namuwiki_crawler.py:258 | `sorted` of a set: strictly increasing, with exactly the elements of the set |
| NamuwikiHelpers.ExtractTitlesFromPage | crawler/namuwiki/namuwiki_crawler.py:230-258 | the result is strictly sorted and holds exactly the titles decoded from some link of the page that are non-empty, outside the reserved namespaces, match no exclude prefix and match an include prefix when there are any |
| NavTables.SelectNavTables | crawler/namuwiki/namuwiki_crawler.py:453-477 | at most five tables are returned, each a table of the page passing both the link minimum and the rich-row minimum; they come in descending link count, ties in page order; a qualifying table is left out only when five tables that rank ahead of it were chosen |
| NavTables.PickedTables | crawler/namuwiki/namuwiki_crawler.py:474-477 | stated without positions, the selection holds tables of the page that qualify, in non-increasing link count, and every qualifying table when fewer than five were chosen |
| NavTables.SortByScoreSpec | crawler/namuwiki/namuwiki_crawler.py:476 | sorting by score in reverse, stably, gives a permutation of the scored list ranked by descending score and then ascending page position |
| NavTables.SortByScorePermutes | crawler/namuwiki/namuwiki_crawler.py:476 | the sorted list is a permutation of its input |
| NavTables.SortByScoreRanked | crawler/namuwiki/namuwiki_crawler.py:476 | the sorted list is ranked when the input comes in page order |
| NavTables.InsertByScorePermutes | crawler/namuwiki/namuwiki_crawler.py:476 | one insertion step adds exactly the inserted table to the multiset |
| NavTables.InsertByScoreRanked | crawler/namuwiki/namuwiki_crawler.py:476 | inserting a table that comes earlier in the page than every table of a ranked list keeps it ranked |
| NavTables.TopPositionsSpec | crawler/namuwiki/namuwiki_crawler.py:474-477 | the first five of the sorted scores name qualifying tables in rank order, and any qualifying table left out ranks behind all five |
| Grouping.ParseRowSpec | crawler/namuwiki/namuwiki_crawler.py:480-517 | a row with fewer than two cells, no label or a label made of year runs gives nothing; otherwise the label is the normalised first cell and the row is accepted exactly when its second cell has at least `min_links_in_row` linked titles; the titles are duplicate-free, are exactly the decoded non-reserved titles of the second cell's links, and each comes from one of those links |
| Grouping.ParseRowOrder | crawler/namuwiki/namuwiki_crawler.py:509-517 | the row's titles keep the order of their first occurrence among the links |
| Grouping.ParseRowMinimumBeforeDedup | crawler/namuwiki/namuwiki_crawler.py:505-517 | for any label cell and any link whose title is kept, a row linking that article three times passes a minimum of three links and yields that one title |
| Grouping.ParseRowAccepts | crawler/namuwiki/namuwiki_crawler.py:480-517 | a row with two usable cells, a label that is no year run and at least the minimum of linked titles gives that label and the de-duplicated titles |
| Grouping.LinkedTitlesSound | crawler/namuwiki/namuwiki_crawler.py:495-503 | every collected title is non-empty, outside the reserved namespaces and decoded from one of the links |
| Grouping.CollectTitles | crawler/namuwiki/namuwiki_crawler.py:495-503 | the loop over the links returns the link titles in document order, repetitions included |
| Grouping.DedupInOrder | crawler/namuwiki/namuwiki_crawler.py:909-918 | the de-duplication loop returns the first occurrences of the titles in their order (also used at lines 509-516) |
| Grouping.RowToGroupAndTitles | crawler/namuwiki/namuwiki_crawler.py:480-517 | the row parser returns exactly the parse of `ParseRowSpec` |
| Grouping.SetDefaultExtendSpec | crawler/namuwiki/namuwiki_crawler.py:557 | `setdefault(k, []).extend(xs)` extends the list of an existing label in place and keeps the others; a new label is appended at the end with `xs` |
| Grouping.AddRow | crawler/namuwiki/namuwiki_crawler.py:545-557 | one row adds its titles to the seen set and extends its group by the titles not seen before, unless there are none; this is one `Step` of the fold |
| Grouping.AggregateRow | crawler/namuwiki/namuwiki_crawler.py:541-557 | one row keeps the aggregation invariant, records its parse, if any, and moves the state by one `Step` on that parse |
| Grouping.AggregateTable | crawler/namuwiki/namuwiki_crawler.py:540-557 | one table keeps the aggregation invariant, records the parses of its rows, and leaves the state equal to the fold of those parses in row order |
| Grouping.AggregateGroups | crawler/namuwiki/namuwiki_crawler.py:537-567 | the groups are the fold `Aggregate` of the parsed rows, table by table and row by row; labels are distinct, and every group is non-empty and duplicate-free; a title sits in a group exactly when that group's label is the first row label that lists it, every such title is placed, no title is in two groups, and all are valid titles |
| Grouping.FoldAppend | crawler/namuwiki/namuwiki_crawler.py:537-557 | folding two runs of rows is folding the second into the state the first leaves |
| Grouping.AggregateKeepsInv | crawler/namuwiki/namuwiki_crawler.py:537-557 | after any duplicate-free parsed rows, the fold keeps each title exactly under the label of the first row listing it, with every listed title seen |
| Grouping.FirstOwnerSound | crawler/namuwiki/namuwiki_crawler.py:545-552 | the group that owns a title is the label of a parsed row listing it |
| Grouping.FirstOwnerComplete | crawler/namuwiki/namuwiki_crawler.py:548-552 | every title listed by a parsed row is owned by some group |
| Grouping.OwnedTitleValid | crawler/namuwiki/namuwiki_crawler.py:495-503 | an owned title is non-empty and outside the reserved namespaces |
| Grouping.DedupGroups | crawler/namuwiki/namuwiki_crawler.py:559-567 | each group's list is replaced by its order-preserving de-duplication, labels and order unchanged |
| Grouping.DedupGroupsNoop | crawler/namuwiki/namuwiki_crawler.py:559-567 | on the aggregated groups, which are already duplicate-free, the second de-duplication changes nothing |
| Grouping.FlattenGroupedTitles | crawler/namuwiki/namuwiki_crawler.py:578-587 | the flattening loop returns the first occurrences of all titles in group order |
| Grouping.FlattenGroup | crawler/namuwiki/namuwiki_crawler.py:582-586 | the inner loop extends the output by the titles of one group not seen yet, and keeps the seen set equal to the output's elements |
| Grouping.FlattenedSpec | crawler/namuwiki/namuwiki_crawler.py:578-587 | the flat list is duplicate-free, holds exactly the titles of the groups, and keeps their first-occurrence order |
| Grouping.FlattenedIdempotent | crawler/namuwiki/namuwiki_crawler.py:578-587 | flattening a single group that holds a flat list gives the list back |
| Grouping.BuildTitleToGroups | crawler/namuwiki/namuwiki_crawler.py:608-613 | the index has a key exactly for the titles that are in some group, and maps each to the labels of the groups listing it, once per listing, in group order |
| Grouping.GroupsOfSpec | crawler/namuwiki/namuwiki_crawler.py:608-613 | with distinct labels and duplicate-free groups, a title's labels are exactly the groups that list it, each once, and the title has labels exactly when it is in some group |
| Grouping.GroupsOfInOrder | crawler/namuwiki/namuwiki_crawler.py:610-612 | a title's labels appear in the order of the groups |
| NamuwikiText.RemoveBracketsNoSegment | preprocessed/namuwiki/namuwiki_preprocessed_crawler.py:23 | after the lazy `\[.*?\]` removal no `[` is followed by a `]` |
| NamuwikiText.RemoveBracketsIdentity | preprocessed/namuwiki/namuwiki_preprocessed_crawler.py:23 | text without `[` is unchanged |
| NamuwikiText.RemoveOutlineIdentity | preprocessed/namuwiki/namuwiki_preprocessed_crawler.py:26-27 | text without digits is unchanged by the outline-number removal |
| NamuwikiText.ReferenceFreeSpec | preprocessed/namuwiki/namuwiki_preprocessed_crawler.py:43-58 | every kept sentence is non-empty, stripped, and free of `참조`, `문서를 참고하십시오` and a `자세한 내용은 … 참고하십시오` pointer; kept are exactly the stripped sentences passing those tests, in their order |
| NamuwikiText.RemoveReferenceSentences | preprocessed/namuwiki/namuwiki_preprocessed_crawler.py:43-58 | the loop joins with single spaces exactly the reference-free sentences |
| NamuwikiText.DistinctSentencesSpec | preprocessed/namuwiki/namuwiki_preprocessed_crawler.py:60-74 | the kept sentences are duplicate-free, stripped, and not short fragments; they are exactly the stripped non-fragment sentences, in first-occurrence order |
| NamuwikiText.RemoveDuplicateSentences | preprocessed/namuwiki/namuwiki_preprocessed_crawler.py:60-74 | the loop joins with single spaces exactly those distinct sentences |
| NamuwikiText.TailFromLenSpec | preprocessed/namuwiki/namuwiki_preprocessed_crawler.py:78 | the bounded search for a repeated tail from one position succeeds exactly when some group length from 3 to 22 repeats to the end |
| NamuwikiText.FindTailFromLeftmost | preprocessed/namuwiki/namuwiki_preprocessed_crawler.py:78 | the tail search returns a position where a repeated tail starts, and no repeated tail starts earlier |
| NamuwikiText.TrimTailsNoTail | preprocessed/namuwiki/namuwiki_preprocessed_crawler.py:76-83 | when the trimming loop stops, no repeated tail is left anywhere |
| NamuwikiText.TrimTailsPrefix | preprocessed/namuwiki/namuwiki_preprocessed_crawler.py:76-83 | on stripped input, the result is a stripped prefix of the input, either the input itself or strictly shorter |
| NamuwikiText.RemoveTailRepetitions | preprocessed/namuwiki/namuwiki_preprocessed_crawler.py:76-83 | the `while True` loop computes the repeated-tail trim |
| NamuwikiText.CleanTextContent | preprocessed/namuwiki/namuwiki_preprocessed_crawler.py:19-41 | the cleaner runs the six steps in the source's order |
| NamuwikiText.CleanedSpec | preprocessed/namuwiki/namuwiki_preprocessed_crawler.py:19-41 | empty text stays empty; the cleaned text has no whitespace at either end and no repeated tail |
| NamuwikiText.DottedThenPlainRemoved | preprocessed/namuwiki/namuwiki_preprocessed_crawler.py:26-27 | on `3.2. 4. x` the dotted pass leaves ` 4. x`, and the plain pass then removes ` 4. ` as well, giving ` x` |
| NamuwikiText.CleanedNotIdempotent | preprocessed/namuwiki/namuwiki_preprocessed_crawler.py:19-41 | `1.2 1.2 ab.` cleans to `1.2 ab.`, which cleans again to `ab.`: the cleaner is not idempotent |
| NamuwikiText.OutlineNumber | preprocessed/namuwiki/namuwiki_preprocessed_crawler.py:112-113 | a number exists exactly when the stripped heading starts with a digit; it is a prefix of the stripped heading, starts with a digit, and consists of digits and dots |
| NamuwikiText.OutlineNumberLongest | preprocessed/namuwiki/namuwiki_preprocessed_crawler.py:112-113 | the match is the longest: the character after the number is not a digit, and is a dot only right after a dot |
| NamuwikiText.OutlineNumberExample | preprocessed/namuwiki/namuwiki_preprocessed_crawler.py:112-113 | `1. 개요` has the number `1.` |
| NamuwikiText.OutlineNumberNestedExample | preprocessed/namuwiki/namuwiki_preprocessed_crawler.py:112-113 | `3.2. 역사` has the number `3.2.` |
| NamuwikiText.CleanHeadingShape | preprocessed/namuwiki/namuwiki_preprocessed_crawler.py:85-89 | an empty heading cleans to ""; a cleaned heading is stripped, no longer than the heading, and has no bracket segment left |
| NamuwikiText.CleanHeadingPlain | preprocessed/namuwiki/namuwiki_preprocessed_crawler.py:85-89 | a heading without brackets that does not start with a digit is only stripped |
| NamuwikiText.CleanHeadingNumbered | preprocessed/namuwiki/namuwiki_preprocessed_crawler.py:85-89 | `3.2. 역사` cleans to `역사` |
| NamuwikiText.CleanHeadingCut | preprocessed/namuwiki/namuwiki_preprocessed_crawler.py:88-89 | a bracket-free heading loses its leading number and the blanks after it, then is stripped |
| NamuwikiText.NumberCutExample | preprocessed/namuwiki/namuwiki_preprocessed_crawler.py:88 | the leading-number match of `3.2. 역사` covers `3.2. ` |
| NamuwikiSections.IsChildOfBlocked | preprocessed/namuwiki/namuwiki_preprocessed_crawler.py:116-122 | the loop over the blocked numbers answers true exactly when the outline number starts with one of them |
| NamuwikiSections.LeadingRepeatsGone | preprocessed/namuwiki/namuwiki_preprocessed_crawler.py:146-147 | after removing the leading repetitions of the heading, the text is stripped and no longer starts with the heading |
| NamuwikiSections.TrailingRepeatsGone | preprocessed/namuwiki/namuwiki_preprocessed_crawler.py:156-157 | after removing the trailing repetitions, the text is stripped and no longer ends with the heading |
| NamuwikiSections.LeadPunctStripped | preprocessed/namuwiki/namuwiki_preprocessed_crawler.py:159 | stripping leading `.,- ` and whitespace keeps the text stripped and not ending with the heading |
| NamuwikiSections.FinishTextSpec | preprocessed/namuwiki/namuwiki_preprocessed_crawler.py:141-159 | without a heading the cleaned text is kept as is; with a heading that starts with a non-space, the final text is stripped and does not end with the heading |
| NamuwikiSections.FinishTextRedundant | preprocessed/namuwiki/namuwiki_preprocessed_crawler.py:151-153 | a non-empty text shorter than the heading that the heading starts with is emptied |
| NamuwikiSections.FinishTextBaron | preprocessed/namuwiki/namuwiki_preprocessed_crawler.py:149-153 | heading `내셔 남작 (Baron)` with text `내셔 남작` leaves no text |
| NamuwikiSections.CleanupWell | preprocessed/namuwiki/namuwiki_preprocessed_crawler.py:133-159 | a section that no rule blocks gets a stripped, bracket-free heading that is not an excluded topic outside the general file, and a stripped text that does not end with its heading when the heading is non-empty |
| NamuwikiSections.ProcessSection | preprocessed/namuwiki/namuwiki_preprocessed_crawler.py:107-165 | one pass of the section loop is the step function from the blocked numbers and kept sections before it to those after it |
| NamuwikiSections.ProcessSections | preprocessed/namuwiki/namuwiki_preprocessed_crawler.py:103-165 | the section loop returns the kept sections of the run over all sections |
| NamuwikiSections.ProcessJsonFile | preprocessed/namuwiki/namuwiki_preprocessed_crawler.py:94-167 | every other key of the document is copied; the sections become the kept sections, or `[]` when the document has none; the general file is the one whose name starts with `리그-오브-레전드` |
| NamuwikiSections.RunKeptInOrder | preprocessed/namuwiki/namuwiki_preprocessed_crawler.py:161-165 | the kept sections are cleaned input sections in input order |
| NamuwikiSections.RunKeptShape | preprocessed/namuwiki/namuwiki_preprocessed_crawler.py:141-165 | every kept section has non-empty text and passes the cleanup guarantees |
| NamuwikiSections.RunBlockedNumbers | preprocessed/namuwiki/namuwiki_preprocessed_crawler.py:125-136 | every blocked number is the outline number of an earlier section that a rule blocked |
| NamuwikiSections.RuledOutDropped | preprocessed/namuwiki/namuwiki_preprocessed_crawler.py:125-136 | a section about incidents, other modes or (outside the general file) an excluded topic adds nothing to the output |
| NamuwikiSections.SubsectionsDropped | preprocessed/namuwiki/namuwiki_preprocessed_crawler.py:112-136 | a later section whose outline number starts with the number of a blocked section changes nothing, neither output nor blocked numbers |
| NamuwikiSections.UnnumberedKept | preprocessed/namuwiki/namuwiki_preprocessed_crawler.py:112-165 | an unnumbered section that no rule blocks and whose cleaned text is non-empty is kept |
| NamuwikiSections.NumberedKept | preprocessed/namuwiki/namuwiki_preprocessed_crawler.py:112-165 | a numbered section that no rule blocks, whose cleaned text is non-empty, and whose number starts with the number of no earlier section a rule blocked, is kept |
| OpggCleaner.CleanTextSpec | preprocessed/opgg/opgg_preprocessed_crawler.py:5-10 | missing or empty text cleans to ""; the result has no whitespace at the ends and no two whitespace characters in a row, its only whitespace is the plain space, and cleaning it again changes nothing |
| OpggCleaner.CleanComments | preprocessed/opgg/opgg_preprocessed_crawler.py:65-75 | the comment loop returns the cleaned comments |
| OpggCleaner.CleanedCommentsSound | preprocessed/opgg/opgg_preprocessed_crawler.py:66-74 | every kept comment has non-empty, tidy content and is the cleaned form of an input comment |
| OpggCleaner.CleanedCommentsComplete | preprocessed/opgg/opgg_preprocessed_crawler.py:66-74 | every comment whose cleaned content is non-empty is kept |
| OpggCleaner.CleanedCommentsInOrder | preprocessed/opgg/opgg_preprocessed_crawler.py:66-74 | kept comments stay in input order |
| OpggCleaner.CleanedSpec | preprocessed/opgg/opgg_preprocessed_crawler.py:59-75 | a cleaned tip keeps url and other keys, has tidy title and content, has comments exactly when the input has them, and every kept comment has tidy, non-empty content |
| OpggCleaner.PreprocessOpggTips | preprocessed/opgg/opgg_preprocessed_crawler.py:28-77 | the loop returns the unique tips and both duplicate counts of the run |
| OpggCleaner.RunCounts | preprocessed/opgg/opgg_preprocessed_crawler.py:32-56 | input count = unique count + url duplicates + content duplicates |
| OpggCleaner.RunInOrder | preprocessed/opgg/opgg_preprocessed_crawler.py:35-77 | the unique tips are the cleaned forms of input tips at strictly increasing positions |
| OpggCleaner.RunDistinct | preprocessed/opgg/opgg_preprocessed_crawler.py:44-56 | no two unique tips share a url or a cleaned (title, content) pair |
| OpggCleaner.RunDecision | preprocessed/opgg/opgg_preprocessed_crawler.py:44-56 | a tip is kept exactly when no tip kept before it has its url or its cleaned (title, content) |
| OpggCleaner.UrlOfContentDuplicateFree | preprocessed/opgg/opgg_preprocessed_crawler.py:45-56 | a content duplicate does not record its url, so a later tip with that url and new content is kept |

## Left out

- File and network I/O is not modelled: `fetch_page`, Playwright rendering, retries, sleeping, logging, `print`, `json.load`/`json.dump`, `os.makedirs`, reading the title list, writing outputs, and the `try`/`except` wrappers. The parsed JSON and HTML are parameters.
- HTML parsing is not modelled. BeautifulSoup and `extract_text` are replaced by the abstract `Table`/`Row`/`Cell` page, and `select('a[href^="/w/"]')` by the list of the cells' `/w/` link targets.
- `find_all("tr", recursive=True)` also visits the rows of nested tables. The model gives a table its rows as one flat sequence, so nesting is not represented.
- `container_selector` of `extract_titles_from_page` is not modelled: the page's link list is given directly.
- `urllib.parse.unquote` is not modelled: `NamuwikiHelpers.Unquote` is a fixed function about which nothing is assumed, so every property of decoded titles holds whatever the decoding does. The fallback on a decoding error is part of that unknown function. The empty-title, reserved-namespace and include/exclude tests run on the decoded title, as in the source. No property depends on how a particular percent-encoded link decodes.
- `str.lower` is modelled on ASCII letters only. Python `\s`/`isspace` is a fixed list of code points (`Strings.IsSpace`).
- Strings.IsDigit: `\d` is modelled as the ASCII digits `0`–`9`. On `str`, Python's `\d` matches every Unicode decimal digit (the full-width `３`, the Arabic-Indic `٣`, …), so headings and texts numbered with such digits are treated differently by the source. This concerns the outline-number removal (preprocessed/namuwiki/namuwiki_preprocessed_crawler.py:26-27), `clean_heading` (line 88), the blocked-number match (line 112) and the year-run test of group labels (crawler/namuwiki/namuwiki_crawler.py:492).
- Order of dictionary keys: the groups are a sequence of (label, titles) pairs in insertion order. `BuildTitleToGroups` returns a Dafny map, whose key order is not modelled. The other keys of a namuwiki document and of an OP.GG tip are a Dafny map as well, so the order of keys in the written JSON is not modelled. In the source, `sections` keeps its position when the document had it and comes last otherwise (preprocessed/namuwiki/namuwiki_preprocessed_crawler.py:102-165). A tip's `title` and `content` keep their positions, and a missing one is added at the end (preprocessed/opgg/opgg_preprocessed_crawler.py:59-61).
- `collect_grouped_titles_from_seed` is modelled from the table selection onward (`SelectNavTables`, `AggregateGroups`). The seed fetch and the debug dumps are I/O.
- `main` is modelled only through its final order-preserving de-duplication (`DedupInOrder`). The `add-category` step, `extract_titles_from_category_grid`, `save_group_outputs`, `write_per_article`, article parsing and `process_directory` are not part of this model.
- The whole OP.GG crawler (`crawler/opgg/opgg_crawler.py`) is not part of this model.
- A section with `heading: null` makes the source raise on `.strip()`. The model reads a missing or null heading as "", so it describes the source only on documents that have no null heading.
- A tip whose `comments` key is present but `null` makes the source raise. The model treats it like a missing key.
- A missing `url` and a `null` url are both `None` and compare equal, as `dict.get` makes them.
- Non-string JSON values in `title`, `content`, `heading` or `text` are not modelled.
- NamuwikiHelpers.LooksLikeLicenseNeedsKeyword: states a necessary condition of the licence filter only. The filter itself is the predicate `LooksLikeLicense`, which spells out the source's six tests.
- NamuwikiText.TrimTailsPrefix: the prefix property is stated for input with no whitespace at either end, which is what the cleaner hands it.
- NamuwikiText.CleanHeadingNumbered: a single worked heading. `CleanHeadingCut` and `CleanHeadingShape` carry the general rule.
- NamuwikiText.RemoveOutlineIdentity: the outline-number removal is proved to leave digit-free text alone, and `CleanedSpec` proves what the whole cleaner guarantees. No lemma characterises every digit pattern it removes.
