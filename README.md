# A verified model of the chapter-and-annotation pipeline

The application splits an EPUB book into chapters and has a language model
process them. A reader then shows each chapter with its annotations (tags).
This project models the logic of that pipeline in Dafny and proves what the
code promises.

## What is modelled

**Tag document to ranges.** Modelled in `annotation_ranges.dfy`, on top of
`json.dfy`.
- The reader walks an arbitrary JSON tag document in pre-order.
- Every object owning both `s` and `e` becomes a range candidate, typed by
  the property key it hangs under (`assignTypes`).
- Each candidate is located in the chapter's raw text by its literal start
  and end snippets, with a forward cursor and a fallback search from offset
  0 (`toRanges`).
- Comment objects `{a, t}` are placed at the first occurrence of their
  trimmed anchor. Each resolved comment adds one anchor-only entry to the
  term list (`collectComments`).

**The HTML overlay.** Modelled in `html_overlay.dfy`.
- The footer is split off at the first horizontal rule (`separateFooter`).
- The snippets are found again in the rendered HTML. Ranges are processed by
  descending start, and each is wrapped in a `<span>` or preceded by a
  comment marker (`annotateInHtml`).
- Deleting exactly the inserted markup gives back the input HTML.

**The sidebar.** Modelled in `sidebar_layout.dfy`.
- The cards are ordered by their text position.
- The `layout` pass aims each card at its anchor, sorts the cards by top,
  and pushes each down to at least 4 px below the previous one.

**The tag summary.** `tag_stats.dfy` models the summary on the chapter's
meta line.

**EPUB decomposition.** `epub_decomposer.dfy` models:
- the table-of-contents filter;
- the continuation fragments `id+'a'` … `id+'j'`;
- section-header groups;
- the fallback read by manifest href;
- the 5000-character threshold;
- the book title.

**Chapter numbering.** `chapter_formatter.dfy` models the chapters offered
for processing, the dense display numbering with its two maps, and the
two-column listing.

**The chapter list.** `chapter_manager.dfy` models:
- the partition around the section groups;
- the selection, as a `Selection` class over an insertion-ordered,
  duplicate-free sequence;
- the process-button label.

**The single-page app.** `app_page.dfy` models the line-based summary
extractor and the in-place update of the progress-log line.

**The page address.** `url_router.dfy` models the `chapters` parameter:
- writing it;
- reading it back;
- opening a chapter by number.

**General helpers.** `utils.dfy` models `escapeRegex` and `formatNumber`.

**Moon+ Reader export.** `moonreader_notes.dfy` models:
- colour codes;
- `groupBy`;
- Markdown escaping;
- `normalize`;
- Jaccard similarity;
- the note filter and the order within a book.

**The reading calendar.** `reading_calendar.dfy` models the per-day index
and the month view, with a `ReadingCalendar` class holding `data` and
`daily`.

**Command-line chapter choice.** `user_input.dfy` models it.

**Shared modules.**
- `js_string.dfy` states the JavaScript string built-ins the code relies on:
  - `indexOf`, `slice`, `trim`, `split`/`join`;
  - ASCII case mapping;
  - `Number#toString`, `parseInt`.
- `collections.dfy` holds `filter` and `Array.prototype.sort`. The sort is a
  stable sort specified by a "may stay before" relation.

**Duplicated code.** Some code is duplicated between
`static/modules/ChapterManager.js` and `public/app.js`, and one model
member covers both copies:
- `ChapterManager.GroupChapters` also models `public/app.js:368-397`.
- The `Selection` methods also model `public/app.js:628-713`.
- `ChapterManager.ProcessButton` also models `public/app.js:732-741`.
- `public/app.js:715-730` is the same update as `UrlRouter.UpdateWithChapters`,
  behind a guard that leaves the address alone when no book is selected.
  `UrlRouter.UpdateUrlWithChapters` models it with that guard.
- `UrlRouter.RestoreSelectedChapters` also models `public/app.js:219-221`.

**Edge cases of the code worth knowing.**
- `toRanges` drops an entry when its start snippet occurs nowhere. It also
  drops one whose end snippet occurs in the text, but not after the start
  match the cursor rule chose. `AnnotationRanges.LocateDropped` gives the
  exact condition.
- The `chapters` parameter reads back negative numbers as well: `parseInt`
  accepts the sign that `Number#toString` writes.
- `getChapterSelection` throws when the chapter list is empty and the answer
  is not the all-option. `UserInput.ResolveAnswer` gives `None` there.

## Model

| member | source | states |
|---|---|---|
| `Json.Get` | static/modules/ChapterReader.js:241-242 | property lookup is undefined exactly when no field has that key, otherwise it is the value of such a field |
| `Json.TextOr` | static/modules/ChapterReader.js:256-257 | `String(x \|\| '')`: a missing or falsy value gives `''`, a string gives itself |
| `Json.NodesReached` | static/modules/ChapterReader.js:236-249 | the pre-order walk visits exactly the objects reachable from the root, each with the property key it hangs under |
| `Json.TagRoot` | static/modules/ChapterReader.js:202 | `tagJson?.data \|\| tagJson`: a truthy `data` field is the root; an object whose `data` is missing or falsy, and anything but an object, is its own root |
| `AnnotationRanges.TypedRangesFilter` | static/modules/ChapterReader.js:236-249 | the typed ranges are the walk's objects owning both `s` and `e`, in pre-order |
| `AnnotationRanges.TypedRangesReached` | static/modules/ChapterReader.js:240-246 | an object is emitted with type k exactly when it owns `s` and `e` and is reached through key k |
| `AnnotationRanges.RootRangeUntyped` | static/modules/ChapterReader.js:236-244 | a range object at the root comes first and gets the empty type |
| `AnnotationRanges.ArrayInheritsKey` | static/modules/ChapterReader.js:238-239 | elements of an array are typed by the array's key |
| `AnnotationRanges.AssignTypes` | static/modules/ChapterReader.js:236-249 | the recursion appends to the shared list exactly the typed ranges of the node, in walk order |
| `AnnotationRanges.AssignItems` | static/modules/ChapterReader.js:238-239 | the array loop appends the typed ranges of every element, in index order |
| `AnnotationRanges.AssignFields` | static/modules/ChapterReader.js:246 | the key loop appends the typed ranges of every property, typed by its key |
| `AnnotationRanges.MatchesSlice` | static/modules/ChapterReader.js:262-270 | for a located range, `raw.slice(s, s+\|sText\|)` is the start snippet and `raw.slice(e-\|eText\|, e)` the end snippet |
| `AnnotationRanges.FindSound` | static/modules/ChapterReader.js:258-263 | what one search finds is an occurrence of the start snippet followed, without overlap, by one of the end snippet |
| `AnnotationRanges.LocateSound` | static/modules/ChapterReader.js:255-274 | a located entry keeps its source, snippets and text `it.t \|\| ''` and matches both snippets in order; an entry with a snippet absent from the text is dropped |
| `AnnotationRanges.LocateDropped` | static/modules/ChapterReader.js:258-262 | an entry is dropped exactly when its start snippet occurs nowhere or its end snippet does not occur after the start match the cursor rule chose |
| `AnnotationRanges.IndexOfFromZero` | static/modules/ChapterReader.js:258-259 | a start snippet found from the cursor is also found from 0, so the fallback only helps when the cursor search fails |
| `AnnotationRanges.LocateCursor` | static/modules/ChapterReader.js:258-259 | a located start lies at or after the cursor unless the start snippet does not occur from the cursor on |
| `AnnotationRanges.LocateFirst` | static/modules/ChapterReader.js:258-260 | the start is the first occurrence from the cursor (or, on fallback, the first overall) and the end snippet is its first occurrence after the start match |
| `AnnotationRanges.Run` | static/modules/ChapterReader.js:252-275 | after the loop the cursor `lastIdx` is the end of the last kept entry (0 when none) and lies within the text |
| `AnnotationRanges.LocateEntry` | static/modules/ChapterReader.js:256-274 | the loop body computes the located entry of the search rule |
| `AnnotationRanges.ToRanges` | static/modules/ChapterReader.js:251-277 | the loop returns the entries the cursor-driven run keeps |
| `AnnotationRanges.RunSubseq` | static/modules/ChapterReader.js:255-275 | the kept entries are an order-preserving subsequence of the input |
| `AnnotationRanges.RunSound` | static/modules/ChapterReader.js:262-273 | every kept range matches its snippets: start snippet at `s`, end snippet ending at `e`, in order, `e <= \|raw\|` |
| `AnnotationRanges.RunCursor` | static/modules/ChapterReader.js:253-273 | each kept range starts at or after the end of the previous kept range unless its start snippet does not occur there |
| `AnnotationRanges.TypeOf` | static/modules/ChapterReader.js:217 | `it._type \|\| undefined`: the empty key gives no type, any other key is the type |
| `AnnotationRanges.Number` | static/modules/ChapterReader.js:217 | the k-th term keeps its range and gets `_rid` k and the type of its key |
| `AnnotationRanges.CollectAndProcessTerms` | static/modules/ChapterReader.js:213-218 | the terms are the numbered located typed ranges of the document |
| `AnnotationRanges.MapRaw` | static/modules/ChapterReader.js:287 | each comment object yields `{a: String(n.a\|\|''), t: String(n.t\|\|'')}` |
| `AnnotationRanges.CommentsOfFilter` | static/modules/ChapterReader.js:281-292 | the collected comments are the walk's objects owning `a` and `t`, in walk order |
| `AnnotationRanges.AnchorPos` | static/modules/ChapterReader.js:296-297 | the anchor position is -1 or an offset where the non-empty trimmed anchor occurs |
| `AnnotationRanges.AnchorPosFirst` | static/modules/ChapterReader.js:296-297 | a resolved anchor is placed at its first occurrence; an unresolved one is empty after trimming or absent from the text |
| `AnnotationRanges.MapComment` | static/modules/ChapterReader.js:295-313 | the map callback returns the comment's view, bumps `cIdx` exactly for a resolved anchor and pushes its anchor-only term |
| `AnnotationRanges.CollectComments` | static/modules/ChapterReader.js:279-314 | returns the views of all comments and appends one anchor-only entry per resolved comment to the caller's terms |
| `AnnotationRanges.ViewsAt` | static/modules/ChapterReader.js:294-313 | the i-th view keeps text and anchor; it has id `tag_c_n` (n = resolved comments before it) and the first offset exactly when resolved, else `''` and -1 |
| `AnnotationRanges.AnchorsCount` | static/modules/ChapterReader.js:300-310 | exactly one anchor-only term per resolved comment |
| `AnnotationRanges.AnchorsAt` | static/modules/ChapterReader.js:296-309 | the j-th anchor-only term belongs to the j-th resolved comment: id `tag_c_j`, start at the first occurrence of that comment's trimmed anchor, end at start + its length, within the text |
| `AnnotationRanges.AnchorsAllAnchors` | static/modules/ChapterReader.js:302-309 | everything the comment pass pushes is an anchor-only entry |
| `AnnotationRanges.NumberNoAnchors` | static/modules/ChapterReader.js:217 | the numbered ranges contain no anchor-only entry |
| `AnnotationRanges.CountAnchors` | static/modules/ChapterReader.js:308 | the anchor-only entries of a list are at most its length |
| `AnnotationRanges.ProcessTags` | static/modules/ChapterReader.js:200-211 | the terms are the located ranges followed by the anchor-only entries of the resolved comments; the comments are their views |
| `HtmlOverlay.WhiteRunSpec` | static/modules/ChapterReader.js:333 | `\s*` takes the whole run of white space from the offset |
| `HtmlOverlay.HrAt` | static/modules/ChapterReader.js:333 | a match of `<hr\s*\/?>` (any case) is at least 4 characters and lies within the text |
| `HtmlOverlay.FirstHrSpec` | static/modules/ChapterReader.js:333 | the search returns the leftmost offset where the rule pattern matches |
| `HtmlOverlay.HrIndex` | static/modules/ChapterReader.js:336 | `html.indexOf(hrMatch[0])` is the offset of the match itself |
| `HtmlOverlay.SeparateFooter` | static/modules/ChapterReader.js:331-342 | without a rule the HTML is unchanged; otherwise the text before the first rule, `<hr><div class="chapter-footer">`, the rest, and `</div>` |
| `HtmlOverlay.SeparateFooterNoRule` | static/modules/ChapterReader.js:334 | no match of the pattern: the HTML comes back unchanged |
| `HtmlOverlay.SeparateFooterSplit` | static/modules/ChapterReader.js:336-341 | with the first rule at p: `html[..p] + footer opening + html[after the rule..] + '</div>'` |
| `HtmlOverlay.ByStartOrder` | static/modules/ChapterReader.js:356 | the sorted copy is ordered by descending start, is a permutation, and keeps equal starts in order |
| `HtmlOverlay.AnnotateOne` | static/modules/ChapterReader.js:359-388 | the loop body performs one step of the overlay for one range |
| `HtmlOverlay.WrapRange` | static/modules/ChapterReader.js:376-388 | once the start snippet is found, the wrapping half computes the wrap of the text up to the first end snippet after it |
| `HtmlOverlay.AnnotateInHtml` | static/modules/ChapterReader.js:354-391 | the loop performs the steps for the ranges in descending start order |
| `HtmlOverlay.StepNoStart` | static/modules/ChapterReader.js:362-364 | a start snippet absent from the current HTML leaves it unchanged |
| `HtmlOverlay.StepAnchor` | static/modules/ChapterReader.js:368-374 | an anchor-only entry inserts the marker span before the first occurrence of its start snippet |
| `HtmlOverlay.StepNoEnd` | static/modules/ChapterReader.js:376-380 | a range whose end snippet does not occur after the first start snippet leaves the HTML unchanged |
| `HtmlOverlay.StepWrap` | static/modules/ChapterReader.js:376-388 | otherwise the span wraps the text from the first start snippet to the end of the first end snippet after it |
| `HtmlOverlay.SurroundIs` | static/modules/ChapterReader.js:382-388 | the replacement only adds the opening tag before and `</span>` after the matched text, which starts with the start snippet and ends with the end snippet |
| `HtmlOverlay.TagsAreMarkup` | static/modules/ChapterReader.js:369-387 | the marker, opening tags and closing tag are all span markup |
| `HtmlOverlay.UndoApply` | static/modules/ChapterReader.js:372 | insertions removed again, last first, restore the original text |
| `HtmlOverlay.StepInserts` | static/modules/ChapterReader.js:358-388 | each step is exactly a list of markup insertions into the current HTML |
| `HtmlOverlay.AnnotateAllInserts` | static/modules/ChapterReader.js:358-389 | the whole loop is the concatenation of the steps' markup insertions |
| `HtmlOverlay.AnnotateErases` | static/modules/ChapterReader.js:354-391 | deleting the inserted markup from the annotated HTML gives back the input HTML exactly |
| `SidebarLayout.AimAll` | static/modules/ChapterReader.js:405-411 | each card with a found anchor gets top `max(0, anchorTop - mainTop + scrollTop)`, the others keep theirs |
| `SidebarLayout.AimCards` | static/modules/ChapterReader.js:405-411 | the first `forEach` updates the card array to the aimed cards |
| `SidebarLayout.SortCards` | static/modules/ChapterReader.js:413 | the card array becomes the stable sort of its contents by top |
| `SidebarLayout.Compaction` | static/modules/ChapterReader.js:414-422 | one card per card; `lastBottom` starts as -Infinity and ends as the bottom of the last placed card |
| `SidebarLayout.CompactCards` | static/modules/ChapterReader.js:414-422 | the second `forEach` updates the card array to the compaction of its contents |
| `SidebarLayout.Layout` | static/modules/ChapterReader.js:394-423 | the closure aims, sorts by top and compacts, in that order |
| `SidebarLayout.CompactionAt` | static/modules/ChapterReader.js:415-422 | only tops change; the first card keeps its top; each later one takes the larger of its top and 4 px below the previous bottom |
| `SidebarLayout.CompactionGap` | static/modules/ChapterReader.js:418-421 | every card after the first starts at least 4 px below the previous card's bottom |
| `SidebarLayout.CompactionMovesDown` | static/modules/ChapterReader.js:418-420 | a card only moves down, and keeps its top exactly when already clear of the bound |
| `SidebarLayout.CompactionOrdered` | static/modules/ChapterReader.js:413-422 | with non-negative heights the compacted cards are strictly ordered by top |
| `SidebarLayout.SortedCards` | static/modules/ChapterReader.js:413 | the sorted cards are ascending by top and a permutation of the aimed cards |
| `SidebarLayout.CollectItems` | static/modules/ChapterReader.js:449-473 | the items are the cards of the non-anchor terms followed by those of the anchored comments |
| `SidebarLayout.RenderSidebar` | static/modules/ChapterReader.js:446-477 | the sidebar HTML is the items' HTML, stably sorted by order, joined |
| `SidebarLayout.TermCardsCount` | static/modules/ChapterReader.js:451-452 | exactly the terms that are not anchor-only entries get a card |
| `SidebarLayout.TermCardsAt` | static/modules/ChapterReader.js:451-464 | every located range's card appears among the cards |
| `SidebarLayout.ItemsOrdered` | static/modules/ChapterReader.js:476 | the items come out ascending by text position, none lost or added, and items at one position keep their collection order |
| `TagStats.TagStatsAsWritten` | static/modules/ChapterReader.js:506-538 | as written: empty exactly when there are no tags or no terms and no comments; otherwise opens with `. Теги: ` and the number of term-list entries plus comments |
| `TagStats.TagStats` | static/modules/ChapterReader.js:506-538 | as intended: empty exactly when there is no term but anchor-only ones and no comment; otherwise opens with `. Теги: ` and the non-anchor terms plus the comments |
| `TagStats.TotalAsWrittenCountsAnchors` | static/modules/ChapterReader.js:508-510 | the written total exceeds the number of tags by the number of resolved comments |
| `TagStats.AsWrittenDoubleCount` | static/modules/ChapterReader.js:506-534 | one comment with a resolved anchor: the written summary reports 2 tags, the corrected one 1 |
| `TagStats.TotalCountsEachTagOnce` | static/modules/ChapterReader.js:506-538 | the corrected total is the number of located ranges plus the number of comments |
| `TagStats.PartsNonEmpty` | static/modules/ChapterReader.js:529-532 | no entry is empty, and there are no entries exactly when every count is 0 |
| `TagStats.PartsListsPositive` | static/modules/ChapterReader.js:529-532 | every positive count appears as `label: n` |
| `TagStats.TagStatsShape` | static/modules/ChapterReader.js:510-534 | the summary is empty exactly when the total is 0; otherwise it starts with `. Теги: n` and has brackets exactly when some kind is counted |
| `EpubDecomposer.GetChapterParts` | src/openEpub.js:8-22 | the loop with its `break` returns the chapter parts |
| `EpubDecomposer.ChapterPartsShape` | src/openEpub.js:8-22 | the parts are the id followed by the longest present run of `id+'a'` … `id+'j'`: at most 11, the first missing suffix stops them |
| `EpubDecomposer.ContinuationsShape` | src/openEpub.js:12-19 | from suffix k: each part is `id + suffix` present in the manifest, and the next suffix, if any, is absent |
| `EpubDecomposer.FindToc` | src/openEpub.js:69 | `toc.find` returns the first entry with that id, or none when no entry has it |
| `EpubDecomposer.FindByHref` | src/openEpub.js:72-74 | the first manifest entry with that href, or none when no entry has it |
| `EpubDecomposer.ReadPart` | src/openEpub.js:61-89 | one part iteration, with its try/catch, yields the part's Markdown |
| `EpubDecomposer.CombineParts` | src/openEpub.js:58-90 | `combinedMarkdown` is the concatenation of the parts' Markdown, in part order |
| `EpubDecomposer.PartFallback` | src/openEpub.js:67-88 | an unreadable part is read through the first manifest entry whose href equals the TOC entry's href without its fragment |
| `EpubDecomposer.ToEntries` | src/openEpub.js:32 | each TOC entry becomes `{name, id, level, href}` |
| `EpubDecomposer.ListedIff` | src/openEpub.js:30-33 | an entry is listed iff it comes from a text or untyped TOC entry and its title is none of the 11 excluded names |
| `EpubDecomposer.VisitEntry` | src/openEpub.js:42-102 | one loop iteration: a header sets the group; a level-0 chapter resets it; a chapter of at least 5000 characters is kept trimmed in the current group |
| `EpubDecomposer.GetEpubMetadata` | src/openEpub.js:24-113 | an error when no chapter is retained, otherwise the title and the retained chapters |
| `EpubDecomposer.GroupIsLastTopLevel` | src/openEpub.js:44-54 | the current group is set by the last top-level entry: its name when it is a section header, none otherwise |
| `EpubDecomposer.GroupNoTopLevel` | src/openEpub.js:36-54 | without a top-level entry the group stays null |
| `EpubDecomposer.RunPrefix` | src/openEpub.js:41-103 | the chapters only grow as the loop goes on |
| `EpubDecomposer.RunKeeps` | src/openEpub.js:93-98 | every retained entry appears as a chapter |
| `EpubDecomposer.RunIndexed` | src/openEpub.js:41-103 | the chapters are exactly the retained entries, in TOC order |
| `EpubDecomposer.BookTitleShape` | src/openEpub.js:110 | the title starts with the book title or `Без названия` and ends with ` (year)`, the year being at most the first four characters of the date or `н/д` |
| `ChapterFormatter.ValidChapterNumbersSpec` | src/chapterFormatter.js:73-87 | ascending 1-based indices of exactly the chapters long enough and not named by the exclusion list (upper-cased) |
| `ChapterFormatter.FormatChapterInfo` | src/chapterFormatter.js:18-71 | columns, row count and both maps as determined by the visible chapters |
| `ChapterFormatter.VisitChapters` | src/chapterFormatter.js:27-47 | the `forEach` builds the two columns and both maps of the visible chapters |
| `ChapterFormatter.ColumnSizes` | src/chapterFormatter.js:44-54 | visible chapter k goes to column `(k-1) % 2`; the first column is the longer and gives the row count |
| `ChapterFormatter.DisplayMapDense` | src/chapterFormatter.js:31-32 | `displayToRealMap` has exactly the keys 1..N, key d holding the d-th visible chapter |
| `ChapterFormatter.RealMapInverse` | src/chapterFormatter.js:33 | `realToDisplayMap` holds exactly the visible chapters, each pointing at its last display number |
| `ChapterFormatter.MapsCompose` | src/chapterFormatter.js:32-33 | displayToReal∘realToDisplay is the identity on mapped numbers; the other composition too when no number repeats |
| `ChapterFormatter.ShortChapterHidden` | src/chapterFormatter.js:30 | a chapter below the threshold is in neither map |
| `ChapterFormatter.VisibleAscending` | src/chapterFormatter.js:27-33 | ascending input numbers give ascending visible numbers, all from the input |
| `ChapterFormatter.DisplayMonotone` | src/chapterFormatter.js:31-33 | with ascending input, display order is monotone in the real number |
| `ChapterFormatter.ServerNumbering` | server.js:181-214 | with the server's threshold of 500, every valid chapter is visible and numbered 1..N in order |
| `ChapterFormatter.Lookup` | src/chapterFormatter.js:89-95 | `Map.get` is undefined outside the map, never an error |
| `ChapterFormatter.DisplayLookup` | src/chapterFormatter.js:89-91 | display numbers outside 1..N map to nothing, inside to the visible chapter |
| `ChapterManager.FirstGroupIndex` | static/modules/ChapterManager.js:47 | `findIndex`: the first grouped chapter, or -1 when none has a group |
| `ChapterManager.GroupChapters` | static/modules/ChapterManager.js:42-72 | before-groups, the group map with its key order, and after-groups as determined by the first group index |
| `ChapterManager.GroupKeysMap` | static/modules/ChapterManager.js:56-61 | the map's keys are the group names in first-appearance order, each holding all of that group's chapters in order |
| `ChapterManager.PartitionAroundFirstGroup` | static/modules/ChapterManager.js:47-67 | before-groups is the prefix in front of the first grouped chapter; without groups everything is after |
| `ChapterManager.GroupKeysDistinct` | static/modules/ChapterManager.js:58-60 | each group key is created once and is non-empty |
| `ChapterManager.PartitionSizes` | static/modules/ChapterManager.js:56-69 | every chapter lands in exactly one list: the three parts together are as long as the input |
| `ChapterManager.AddAllSpec` | static/modules/ChapterManager.js:183-188 | adding to a Set keeps it duplicate-free and holds exactly the old and added numbers |
| `ChapterManager.RemoveSpec` | static/modules/ChapterManager.js:163 | `delete` keeps the Set duplicate-free and removes exactly the number |
| `ChapterManager.Selection.Toggle` | static/modules/ChapterManager.js:159-168 | flips the membership of one chapter number and leaves every other unchanged |
| `ChapterManager.Selection.SelectAll` | static/modules/ChapterManager.js:174-189 | clears when the size equals the item count, otherwise the selection becomes exactly the items |
| `ChapterManager.Selection.Add` | static/modules/UrlRouter.js:99 | `add` puts the number into the Set |
| `ChapterManager.Selection.DeselectAll` | static/modules/ChapterManager.js:194-201 | the selection becomes empty |
| `ChapterManager.Selection.SelectProcessed` | static/modules/ChapterManager.js:203-228 | if a processed item was selected, the selection becomes exactly the unprocessed items, otherwise exactly the processed ones |
| `ChapterManager.ProcessButton` | static/modules/ChapterManager.js:238-244 | disabled iff the count is 0; label `Обработать n` followed by `главу` (1), `главы` (2–4) or `глав` (otherwise) |
| `AppPage.SplitLines` | public/app.js:1008 | `split(/\r?\n/)` has as many lines as there are `\n`-pieces |
| `AppPage.SplitLinesJoin` | public/app.js:1008 | lines joined with `\n` split back into themselves |
| `AppPage.HeadingsDisjoint` | public/app.js:1013-1018 | no line is both a `## ` heading and a `### ` heading |
| `AppPage.FirstCardHeadingSpec` | public/app.js:1018-1021 | the loop stops at the first `### ` line |
| `AppPage.FirstChapterHeadingSpec` | public/app.js:1013-1016 | the summary starts after the first `## ` line before that stop |
| `AppPage.ExtractSummary` | public/app.js:1006-1026 | the trimmed `\n`-join of the summary lines; `''` when no `## ` line precedes the first `### ` line |
| `AppPage.CollectSummary` | public/app.js:1009-1023 | the loop collects the non-heading lines after the first `## ` line, up to the first `### ` line |
| `AppPage.BodySpec` | public/app.js:1013-1022 | the collected lines are exactly the lines of the range that are not `## ` headings |
| `AppPage.SummaryLinesAreBody` | public/app.js:1011-1023 | every summary line is an input line that is neither kind of heading |
| `AppPage.UpdateCharacterProgress` | public/app.js:942-968 | the last line with `Received characters:` is replaced by the new log line; without one the line is appended with `\n` |
| `AppPage.LastProgressUnique` | public/app.js:947-953 | the backward search identifies one line |
| `AppPage.ProgressReplacesOneLine` | public/app.js:958-961 | for a single-line message, the new log's lines are the old ones with that one line swapped |
| `AppPage.ProgressAppendsLine` | public/app.js:962-965 | appending adds the text to the old last line and starts a new empty line; all earlier lines are unchanged |
| `UrlRouter.Delete` | static/modules/UrlRouter.js:18 | after `delete` the name has no value and every other name keeps its value |
| `UrlRouter.Set` | static/modules/UrlRouter.js:17 | after `set` the name has the value and every other name keeps its value |
| `UrlRouter.Strings` | static/modules/UrlRouter.js:22 | each number is written by `Number#toString` |
| `UrlRouter.WithChapters` | static/modules/UrlRouter.js:20-25 | `chapters` holds the sorted joined selection when non-empty and is removed otherwise; other names unchanged |
| `UrlRouter.UpdateWithChapters` | static/modules/UrlRouter.js:15-28 | `book` is set, `processing` is removed, `chapters` is written as above, everything else is unchanged |
| `UrlRouter.UpdateUrlWithChapters` | public/app.js:715-730 | no selected book leaves the address unchanged; otherwise `book` set, `processing` removed, `chapters` written, other names unchanged |
| `UrlRouter.ChapterListParams` | public/app.js:81-91 | the chapter-list step sets `book`, removes `chapter` and writes `chapters` as above |
| `UrlRouter.RestoreSelectedChapters` | static/modules/UrlRouter.js:93-99 | the selection is cleared and then holds the numbers parsed from the parameter |
| `UrlRouter.ParseAllStrings` | static/modules/UrlRouter.js:94-96 | `parseInt(trim)` of written numbers gives the numbers back |
| `UrlRouter.ParseJoined` | static/modules/UrlRouter.js:94-96 | parsing a comma-joined list of written numbers gives the list back |
| `UrlRouter.ChaptersParamSorted` | static/modules/UrlRouter.js:21 | the written list is ascending and is a permutation of the selection |
| `UrlRouter.ChaptersRoundTrip` | static/modules/UrlRouter.js:21-22 | parsing the written parameter gives the selection in ascending order |
| `UrlRouter.RestoreAfterUpdate` | static/modules/UrlRouter.js:94-99 | restoring from the written parameter rebuilds the same set of chapters |
| `UrlRouter.FindChapter` | static/modules/UrlRouter.js:116-118 | the first chapter in list order whose display or real number matches, or none when no chapter matches |
| `UrlRouter.OpenChapterByParam` | static/modules/UrlRouter.js:112-123 | nothing for NaN; otherwise a matching chapter exactly when one exists |
| `Utils.EscapeRegexLength` | public/modules/Utils.js:31-33 | the escaped text grows by one character per special character |
| `Utils.UnescapeEscape` | public/modules/Utils.js:31-33 | removing the backslash before each escaped special character gives the text back |
| `Utils.ChunksShape` | public/modules/Utils.js:10-12 | the first group has 1–3 digits, every later one exactly 3, and together they are the digits |
| `Utils.FormatDigitsChunks` | public/modules/Utils.js:11 | the spaces inserted by the pattern separate exactly the three-digit groups counted from the right |
| `Utils.FormatNumberGroups` | public/modules/Utils.js:10-12 | for n ≥ 0, splitting at spaces gives the groups, and removing the spaces gives `n.toString()` |
| `MoonReaderNotes.RgbLowBits` | tools/extract_moonreader_notes.js:59-61 | lifting a negative code by 2^32 and masking keeps the low 24 bits of the code |
| `MoonReaderNotes.RadixStringLower` | tools/extract_moonreader_notes.js:62-63 | `toString(16)` writes lower-case hex digits |
| `MoonReaderNotes.HexColorShape` | tools/extract_moonreader_notes.js:56-64 | `#` followed by exactly six lower-case hex digits whose value is the low 24 bits of the code |
| `MoonReaderNotes.MapColorCases` | tools/extract_moonreader_notes.js:66-80 | any number gets a colour; a number outside 0–5 gets its `#rrggbb` form |
| `MoonReaderNotes.GroupBy` | tools/extract_moonreader_notes.js:150-159 | the Map's keys in first-seen order, each holding the items with that key in input order |
| `MoonReaderNotes.KeysOfIff` | tools/extract_moonreader_notes.js:153-156 | a key is listed exactly when some item has it |
| `MoonReaderNotes.KeysOfDistinct` | tools/extract_moonreader_notes.js:154-156 | each key is listed once |
| `MoonReaderNotes.GroupsCoverItems` | tools/extract_moonreader_notes.js:150-159 | the lists together hold every item exactly once |
| `MoonReaderNotes.EscapeMdOnePass` | tools/extract_moonreader_notes.js:161-168 | the four passes put a backslash before each of the four characters and change nothing else |
| `MoonReaderNotes.EscapeAllLength` | tools/extract_moonreader_notes.js:163-167 | the text grows by one backslash per escaped character |
| `MoonReaderNotes.DropRun` | tools/extract_moonreader_notes.js:200 | drops exactly the leading characters outside `[a-z0-9]` |
| `MoonReaderNotes.CollapseRunsShape` | tools/extract_moonreader_notes.js:200 | after the replace there are only letters, digits and single spaces |
| `MoonReaderNotes.NormalizeShape` | tools/extract_moonreader_notes.js:199-201 | normalised text is letters, digits and single inner spaces, with no space at either end |
| `MoonReaderNotes.DistinctSpec` | tools/extract_moonreader_notes.js:205-206 | a Set built from tokens holds each token once and exactly the tokens |
| `MoonReaderNotes.Jaccard` | tools/extract_moonreader_notes.js:207-211 | the fraction has a positive denominator and is at most 1 |
| `MoonReaderNotes.JaccardSymmetric` | tools/extract_moonreader_notes.js:203-212 | the index does not depend on the order of its arguments |
| `MoonReaderNotes.CountShared` | tools/extract_moonreader_notes.js:208-209 | the loop counts the tokens shared by the two sets |
| `MoonReaderNotes.Similarity` | tools/extract_moonreader_notes.js:203-212 | `similarity(a, b)` is the Jaccard index of the two token sets |
| `MoonReaderNotes.SimilarityProperties` | tools/extract_moonreader_notes.js:203-212 | the similarity lies in [0, 1], is symmetric, and is 0 when a text has no token |
| `MoonReaderNotes.SortNotesSpec` | tools/extract_moonreader_notes.js:177 | notes sorted by `timeMs`, then `position`, and the same notes |
| `MoonReaderNotes.FilterNotesSpec` | tools/extract_moonreader_notes.js:282 | exactly the notes with a non-blank `original` or `note` pass |
| `Calendar.SetBookCount` | public/modules/ReadingCalendar.js:36 | `books.set` gives the book its new count and changes no other book |
| `Calendar.SetBookSum` | public/modules/ReadingCalendar.js:34-36 | the book counts' sum changes by the difference of the book's count |
| `Calendar.SetBookNames` | public/modules/ReadingCalendar.js:36 | the Map keeps each book once |
| `Calendar.DailyIndexSpec` | public/modules/ReadingCalendar.js:24-38 | a day is indexed iff some timed note falls on it; its count is the number of those, each book's count the number of them with that book key, and the book counts sum to the day's count |
| `Calendar.ReadingCalendar.constructor` | public/modules/ReadingCalendar.js:6-9 | no data and an empty index |
| `Calendar.ReadingCalendar.Load` | public/modules/ReadingCalendar.js:11-22 | true iff the data arrived, and then data replaced and index rebuilt; otherwise nothing changes |
| `Calendar.ReadingCalendar.BuildDailyIndex` | public/modules/ReadingCalendar.js:24-38 | the index is cleared and rebuilt from the data alone, so rebuilding twice gives the same index |
| `Calendar.ReadingCalendar.GetMonthDays` | public/modules/ReadingCalendar.js:40-52 | one entry per day of the month, in order, each the view of that day's record |
| `Calendar.DaysInMonth` | public/modules/ReadingCalendar.js:43-45 | a month has 28 to 31 days |
| `Calendar.IsoDateShape` | public/modules/ReadingCalendar.js:46 | the written date is `YYYY-MM-DD` and is its own day key |
| `Calendar.TimeOnDay` | public/modules/ReadingCalendar.js:28 | a note counts for the day its time starts with |
| `Calendar.ViewSpec` | public/modules/ReadingCalendar.js:47-48 | a day without a record shows count 0 and no books; books are ordered by descending count and are the record's own |
| `Calendar.MonthDayCount` | public/modules/ReadingCalendar.js:29-49 | the count shown for a day is the number of notes on that day, and the shown books add up to it |
| `UserInput.ResolveAnswer` | src/userInput.js:12-27 | no answer only when the chapter list is empty and the answer is not the all-option (the source throws there) |
| `UserInput.ChosenChapters` | src/userInput.js:14-34 | all-option selects all; a listed number selects itself; anything else selects the first chapter; the result is every chapter or one listed chapter |
| `JsString.IndexOfFirst` | static/modules/ChapterReader.js:258-260 | `indexOf` reports the first occurrence at or after the clamped start, and -1 that there is none |
| `JsString.IndexOfAt` | static/modules/ChapterReader.js:258-260 | a first occurrence at or after the clamped start is what `indexOf` reports |
| `JsString.TrimSpec` | static/modules/ChapterReader.js:296 | `trim` keeps a contiguous part and removes only white space around it; the result starts and ends with a non-white character |
| `JsString.Split` | static/modules/UrlRouter.js:94 | `split` with one character gives separator-free pieces that join back to the text |
| `JsString.SplitJoin` | static/modules/UrlRouter.js:94 | splitting a join of separator-free pieces gives the pieces back |
| `JsString.ParseIntToString` | static/modules/UrlRouter.js:95 | `parseInt` reads back what `Number#toString` writes, with or without radix 10 |
| `JsString.RadixStringValue` | tools/extract_moonreader_notes.js:62 | `toString(radix)` writes radix digits, and they denote the number |
| `Collections.SortBySorted` | static/modules/ChapterReader.js:476 | `sort` with a total comparator returns an ordered permutation |
| `Collections.SortByStable` | static/modules/ChapterReader.js:476 | elements that compare equal keep their relative order |
| `Collections.FilterMembers` | tools/extract_moonreader_notes.js:282 | `filter` keeps exactly the elements satisfying the predicate |

## Left out

- I/O and the DOM are not modelled:
  - `fetch` and the HTTP API;
  - `localStorage`, `history.pushState`/`replaceState`, `setTimeout`, event binding;
  - `innerHTML` rendering, the toast and the typography settings;
  - `readline`.
  - The fetched values or typed answers are parameters instead.
- Libraries are parameters or left out:
  - `Utils.escapeHtml` (a DOM round trip) is a function parameter of the sidebar cards;
  - `marked`, `turndown` and `epub2`'s `getChapterAsync` are parameters;
  - `getChapterAsync` that throws is `None`. `turndown` is taken not to throw, so the outer `catch` of the chapter loop (src/openEpub.js:100-102) is not modelled.
  - `encodeURIComponent` and `rewriteEpubUrls` are not modelled.
- Regular expressions are modelled only where the pattern is fixed:
  - `new RegExp(Utils.escapeRegex(p))` matches the literal text `p`, so a match is the first literal occurrence (`indexOf` from 0).
  - This equivalence is the reading of `escapeRegex` proved in `Utils`, not a model of the regex engine.
- HtmlOverlay.AnnotateInHtml: the `try/catch` fallback of `annotateHtml` is not modelled, since no step can throw on the modelled inputs.
- Strings are sequences of characters. JavaScript counts UTF-16 code units, which differ only outside the Basic Multilingual Plane (the 💬 marker is one character here).
- `toLowerCase`/`toUpperCase` are modelled for the ASCII letters only.
- JSON numbers are integers, and objects are field lists in `Object.keys` order. The reordering of integer-like keys and prototype-chain lookups (`ru[k]` on `constructor` and similar) are not modelled.
- Json.Get: a duplicated key yields its first value, while `JSON.parse` keeps the last one. Documents with duplicated keys are not modelled faithfully.
- Chapter numbers are unbounded integers. `Number#toString` writes the exponent form (`1e+21`) from 1e21 in magnitude on, and integers beyond 2^53 are not exact; neither is modelled. `UrlRouter.Strings`, `JsString.ParseIntToString`, `UrlRouter.ParseJoined` and `UrlRouter.ChaptersRoundTrip` hold for the plain decimal form only, that is for safe integers.
- Calendar.ReadingCalendar.Load: the fetched data is a list of notes. In the code, a parsed value that is not an array, or an array holding `null`, replaces `data` and clears `daily` before `buildDailyIndex` throws, and `load` then returns false; that path is not modelled.
- The `lastGroupIndex` loop of `groupChapters` computes a value that is never used, and it is not modelled.
- ChapterFormatter.FormatChapterInfo: requires every number to name a chapter of the book. The source throws a TypeError on `bookChapters[num-1].content` otherwise. The padded console text and the `existsSync` colouring are not modelled.
- AppPage.ExtractSummary: its `try/catch` is not modelled, since nothing in the line-based extractor throws on a string.
- The lazy-regex summary extractor of the reader (static/modules/ChapterReader.js:491-494) and the token estimate of `buildMetaInfo` are not modelled.
- Utils.FormatNumberGroups: stated for non-negative integers only. Negative numbers, non-integers and numbers of 1e21 and more are not modelled.
- SidebarLayout.Layout: geometry is in integer pixels, so `Math.floor` of a fractional top is not modelled. `parseInt(style.top) || 0` reads back the written top.
- Calendar.ReadingCalendar.GetMonthDays: requires a month of 1..12 and a year of 0..9999. `Date.UTC` rolls other months over and writes other years with a sign, and that is not modelled.
- Each note's date text (`toDateStr` of `timeMs`, via `Date#toISOString`) is a field of the note, not computed from `timeMs`.
- MoonReaderNotes.Similarity: returns the similarity as the fraction `inter/union` (0/1 when empty) rather than a floating-point number.
- MoonReaderNotes.MapColorCases: the `|| String(code)` fallback is not modelled, because the hex form of a number is never empty. Non-numeric codes are `None`.
- UserInput.ResolveAnswer: the call that throws for an empty chapter list is `None`. `parseInt`'s NaN in `getChaptersToProcess` is `None` as well.
- Missing note fields are read as `""` or 0, as the filter, the grouping key and the comparator do with `|| ''` and `|| 0`.
- The extractor's own I/O is not modelled: scanning for `.mrpro`/`.tag` files, `sql.js`, the per-book JSON and Markdown writers, file-name hashing, and the 0.35 title-match threshold.
- Floating-point percentages, `formatSize`/`formatCharCount` and the font clamps are not modelled.

## Findings

| source | as written | input that shows it | evidently intended | confidence | as-written member | corrected member |
|---|---|---|---|---|---|---|
| static/modules/ChapterReader.js:506-538 | the tag total is `terms.length + comments.length`, but `collectComments` has already pushed one anchor-only entry per resolved comment onto `terms` | one comment whose anchor occurs in the text: the meta line says `Теги: 2` for one tag | count each tag once: located ranges plus comments (the per-kind `comment` count is overwritten with `comments.length` for the same reason) | not executed | `TagStats.TagStatsAsWritten`, `TagStats.AsWrittenDoubleCount` | `TagStats.TagStats`, `TagStats.TotalCountsEachTagOnce` |
