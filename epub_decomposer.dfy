/** Splitting an EPUB into chapters (`getEpubMetadata`): the table-of-contents
    filter, stitching of continuation fragments, section-header grouping,
    the length threshold and the book title. */
module EpubDecomposer {
  import opened Wrappers
  import opened JsString
  import Collections

  /** A table-of-contents entry as the EPUB reader reports it. A missing
      `level`, `href` or `mime` is `0` or `""`, which the code treats alike. */
  datatype TocEntry = TocEntry(title: string, id: string, level: int, href: string, mime: string)

  /** A manifest entry, listed in the manifest object's key order. */
  datatype ManifestItem = ManifestItem(id: string, href: string)

  /** The opened book: its table of contents, its manifest, the chapter
      reader (`None` where `getChapterAsync` throws) and the HTML-to-Markdown
      converter. */
  datatype Epub = Epub(toc: seq<TocEntry>, manifest: seq<ManifestItem>,
                       read: string -> Option<string>, turndown: string -> string)

  // ---------------------------------------------------------------------
  // getChapterParts: the chapter itself and its continuation fragments.

  /** `epub.manifest[id]` is defined. */
  predicate ManifestHas(m: seq<ManifestItem>, id: string) {
    exists k :: 0 <= k < |m| && m[k].id == id
  }

  const Suffixes: string := "abcdefghij"

  /** The fragments `id + sfx[k]`, `id + sfx[k + 1]`, ... up to the first
      one missing from the manifest. */
  function Continuations(m: seq<ManifestItem>, id: string, sfx: string, k: nat): seq<string>
    requires k <= |sfx|
    decreases |sfx| - k
  {
    if k == |sfx| || !ManifestHas(m, id + [sfx[k]]) then []
    else [id + [sfx[k]]] + Continuations(m, id, sfx, k + 1)
  }

  function ChapterParts(m: seq<ManifestItem>, id: string): seq<string> {
    [id] + Continuations(m, id, Suffixes, 0)
  }

  method GetChapterParts(manifest: seq<ManifestItem>, chapterId: string) returns (parts: seq<string>)
    ensures parts == ChapterParts(manifest, chapterId)
  {
    parts := [chapterId];
    var k := 0;
    while k < |Suffixes|
      invariant k <= |Suffixes| && parts + Continuations(manifest, chapterId, Suffixes, k) == ChapterParts(manifest, chapterId)
      decreases |Suffixes| - k
    {
      var partId := chapterId + [Suffixes[k]];
      if ManifestHas(manifest, partId) {
        parts := parts + [partId];
      } else {
        break;
      }
      k := k + 1;
    }
  }

  /** The parts are the chapter id followed by the longest run of
      `id+'a'`, `id+'b'`, ... `id+'j'` present in the manifest. */
  lemma ChapterPartsShape(m: seq<ManifestItem>, id: string)
    ensures var parts := ChapterParts(m, id);
      1 <= |parts| <= |Suffixes| + 1 && parts[0] == id
      && (forall i :: 1 <= i < |parts| ==> parts[i] == id + [Suffixes[i - 1]] && ManifestHas(m, parts[i]))
      && (|parts| <= |Suffixes| ==> !ManifestHas(m, id + [Suffixes[|parts| - 1]]))
  {
    ContinuationsShape(m, id, Suffixes, 0);
  }

  lemma {:induction false} ContinuationsShape(m: seq<ManifestItem>, id: string, sfx: string, k: nat)
    requires k <= |sfx|
    ensures var c := Continuations(m, id, sfx, k);
      k + |c| <= |sfx|
      && (forall i :: 0 <= i < |c| ==> c[i] == id + [sfx[k + i]] && ManifestHas(m, c[i]))
      && (k + |c| < |sfx| ==> !ManifestHas(m, id + [sfx[k + |c|]]))
    decreases |sfx| - k
  {
    if k < |sfx| && ManifestHas(m, id + [sfx[k]]) {
      ContinuationsShape(m, id, sfx, k + 1);
      var c := Continuations(m, id, sfx, k);
      var rest := Continuations(m, id, sfx, k + 1);
      assert c == [id + [sfx[k]]] + rest;
      forall i | 0 <= i < |c| ensures c[i] == id + [sfx[k + i]] && ManifestHas(m, c[i]) {
        if i > 0 {
          assert c[i] == rest[i - 1];
        }
      }
    }
  }

  // ---------------------------------------------------------------------
  // Reading a part, with the fallback through the manifest's hrefs.

  /** `toc.find(t => t.id === id)`, as an index. */
  function FindToc(toc: seq<TocEntry>, id: string): (r: Option<nat>)
    ensures r.Some? ==> r.value < |toc| && toc[r.value].id == id && forall j :: 0 <= j < r.value ==> toc[j].id != id
    ensures r.None? ==> forall j :: 0 <= j < |toc| ==> toc[j].id != id
    decreases |toc|
  {
    if |toc| == 0 then None
    else if toc[0].id == id then Some(0)
    else
      var r := FindToc(toc[1..], id);
      if r.Some? then Some(r.value + 1) else None
  }

  /** `Object.entries(manifest).find(([id, item]) => item.href === href)`, as an index. */
  function FindByHref(m: seq<ManifestItem>, href: string): (r: Option<nat>)
    ensures r.Some? ==> r.value < |m| && m[r.value].href == href && forall j :: 0 <= j < r.value ==> m[j].href != href
    ensures r.None? ==> forall j :: 0 <= j < |m| ==> m[j].href != href
    decreases |m|
  {
    if |m| == 0 then None
    else if m[0].href == href then Some(0)
    else
      var r := FindByHref(m[1..], href);
      if r.Some? then Some(r.value + 1) else None
  }

  /** What one document read adds: its Markdown and a blank line, nothing
      for an empty document. */
  function Piece(epub: Epub, data: string): string {
    if data == "" then "" else epub.turndown(data) + "\n\n"
  }

  /** The Markdown a part contributes. A part that cannot be read by its id
      is looked up in the table of contents; the first manifest entry whose
      href equals that entry's href without its `#` fragment is read
      instead, and a second failure adds nothing. */
  function PartContent(epub: Epub, partId: string): string {
    var data := epub.read(partId);
    if data.Some? then Piece(epub, data.value)
    else
      var t := FindToc(epub.toc, partId);
      if t.None? || epub.toc[t.value].href == "" then ""
      else
        var m := FindByHref(epub.manifest, Split(epub.toc[t.value].href, '#')[0]);
        if m.None? then ""
        else
          var again := epub.read(epub.manifest[m.value].id);
          if again.Some? then Piece(epub, again.value) else ""
  }

  /** The concatenated Markdown of the parts, in part order. */
  function Combined(epub: Epub, parts: seq<string>): string
    decreases |parts|
  {
    if |parts| == 0 then "" else Combined(epub, parts[..|parts| - 1]) + PartContent(epub, parts[|parts| - 1])
  }

  /** One iteration of the part loop, with its try/catch. */
  method ReadPart(epub: Epub, partId: string) returns (markdown: string)
    ensures markdown == PartContent(epub, partId)
  {
    var data := epub.read(partId);
    if data.Some? {
      markdown := if data.value != "" then epub.turndown(data.value) + "\n\n" else "";
      return;
    }
    markdown := "";
    var tocItem := FindToc(epub.toc, partId);
    if tocItem.Some? && epub.toc[tocItem.value].href != "" {
      var hrefWithoutAnchor := Split(epub.toc[tocItem.value].href, '#')[0];
      var manifestEntry := FindByHref(epub.manifest, hrefWithoutAnchor);
      if manifestEntry.Some? {
        var correctId := epub.manifest[manifestEntry.value].id;
        var again := epub.read(correctId);
        if again.Some? && again.value != "" {
          markdown := epub.turndown(again.value) + "\n\n";
        }
      }
    }
  }

  method CombineParts(epub: Epub, chapterParts: seq<string>) returns (combinedMarkdown: string)
    ensures combinedMarkdown == Combined(epub, chapterParts)
  {
    combinedMarkdown := "";
    for i := 0 to |chapterParts|
      invariant combinedMarkdown == Combined(epub, chapterParts[..i])
    {
      var markdown := ReadPart(epub, chapterParts[i]);
      combinedMarkdown := combinedMarkdown + markdown;
      assert chapterParts[..i + 1][..i] == chapterParts[..i];
    }
    assert chapterParts[..|chapterParts|] == chapterParts;
  }

  /** The fallback reads the first manifest entry sharing the entry's
      document href, and a part read by its own id ignores the manifest. */
  lemma PartFallback(epub: Epub, partId: string, k: nat, j: nat)
    requires epub.read(partId).None?
    requires k < |epub.toc| && epub.toc[k].id == partId && epub.toc[k].href != ""
    requires forall i :: 0 <= i < k ==> epub.toc[i].id != partId
    requires j < |epub.manifest| && epub.manifest[j].href == Split(epub.toc[k].href, '#')[0]
    requires forall i :: 0 <= i < j ==> epub.manifest[i].href != epub.manifest[j].href
    ensures PartContent(epub, partId) ==
      var again := epub.read(epub.manifest[j].id);
      if again.Some? then Piece(epub, again.value) else ""
  {
    var t := FindToc(epub.toc, partId);
    assert t == Some(k);
    var m := FindByHref(epub.manifest, Split(epub.toc[k].href, '#')[0]);
    assert m == Some(j);
  }

  // ---------------------------------------------------------------------
  // The table-of-contents filter.

  /** A listed chapter `{ name, id, level, href }`. */
  datatype Entry = Entry(name: string, id: string, level: int, href: string)

  /** `!t.mime || t.mime.includes('html') || t.mime.includes('text')`. */
  predicate MimeOk(t: TocEntry) {
    t.mime == "" || Contains(t.mime, "html") || Contains(t.mime, "text")
  }

  const Excluded: seq<string> := ["Cover", "Title Page", "Copyright", "Epigraph", "Contents",
    "Acknowledgments", "Notes", "Appendix", "What Should You Read Next?", "Index", "About the Author"]

  /** `exclude_chapters`: the entry is not a structural section. */
  predicate NotExcluded(e: Entry) {
    e.name !in Excluded
  }

  function ToEntry(t: TocEntry): Entry {
    Entry(t.title, t.id, t.level, t.href)
  }

  function ToEntries(ts: seq<TocEntry>): (r: seq<Entry>)
    ensures |r| == |ts| && forall k :: 0 <= k < |ts| ==> r[k] == ToEntry(ts[k])
  {
    seq(|ts|, k requires 0 <= k < |ts| => ToEntry(ts[k]))
  }

  /** `toc.filter(mime).map(entry).filter(exclude_chapters)`. */
  function Listed(toc: seq<TocEntry>): seq<Entry> {
    Collections.Filter(ToEntries(Collections.Filter(toc, MimeOk)), NotExcluded)
  }

  /** An entry is listed iff it comes from a text entry of the table of
      contents and its title is none of the excluded names. */
  lemma ListedIff(toc: seq<TocEntry>, e: Entry)
    ensures e in Listed(toc) <==> e.name !in Excluded && exists t :: t in toc && MimeOk(t) && ToEntry(t) == e
  {
    var texts := Collections.Filter(toc, MimeOk);
    Collections.FilterMembers(toc, MimeOk);
    Collections.FilterMembers(ToEntries(texts), NotExcluded);
    if e in ToEntries(texts) {
      var k :| 0 <= k < |texts| && ToEntries(texts)[k] == e;
      assert texts[k] in toc;
    }
    if exists t :: t in toc && MimeOk(t) && ToEntry(t) == e {
      var t :| t in toc && MimeOk(t) && ToEntry(t) == e;
      var k :| 0 <= k < |texts| && texts[k] == t;
      assert ToEntries(texts)[k] == e;
    }
  }

  // ---------------------------------------------------------------------
  // The chapter loop: section headers, grouping and the length threshold.

  const SectionHeaders: seq<string> := ["Set the Stage", "Monday", "Tuesday", "Wednesday", "Thursday", "Friday"]

  /** A top-level entry naming a section: it opens a group and is not a chapter. */
  predicate IsHeader(e: Entry) {
    e.level == 0 && e.name in SectionHeaders
  }

  /** A retained chapter: the entry, its trimmed Markdown and its group. */
  datatype Chapter = Chapter(name: string, id: string, level: int, href: string, content: string, group: Option<string>)

  const MinLength: nat := 5000

  /** The untrimmed Markdown of an entry's parts. */
  function Markdown(epub: Epub, e: Entry): string {
    Combined(epub, ChapterParts(epub.manifest, e.id))
  }

  /** The loop state: the chapters kept so far and `currentGroup`. */
  datatype Pass = Pass(chapters: seq<Chapter>, group: Option<string>)

  function Visit(epub: Epub, p: Pass, e: Entry): Pass {
    if IsHeader(e) then Pass(p.chapters, Some(e.name))
    else
      var group := if e.level == 0 then None else p.group;
      var combined := Markdown(epub, e);
      if |combined| >= MinLength then
        Pass(p.chapters + [Chapter(e.name, e.id, e.level, e.href, Trim(combined), group)], group)
      else Pass(p.chapters, group)
  }

  function Run(epub: Epub, es: seq<Entry>): Pass
    decreases |es|
  {
    if |es| == 0 then Pass([], None) else Visit(epub, Run(epub, es[..|es| - 1]), es[|es| - 1])
  }

  /** One iteration of the chapter loop. */
  method VisitEntry(epub: Epub, chapter: Entry, processed: seq<Chapter>, group: Option<string>)
    returns (processedOut: seq<Chapter>, currentGroup: Option<string>)
    ensures Pass(processedOut, currentGroup) == Visit(epub, Pass(processed, group), chapter)
  {
    processedOut, currentGroup := processed, group;
    if chapter.level == 0 && chapter.name in SectionHeaders {
      currentGroup := Some(chapter.name);
      return;
    }
    if chapter.level == 0 {
      currentGroup := None;
    }
    var chapterParts := GetChapterParts(epub.manifest, chapter.id);
    var combinedMarkdown := CombineParts(epub, chapterParts);
    if |combinedMarkdown| >= 5000 {
      processedOut := processedOut + [Chapter(chapter.name, chapter.id, chapter.level, chapter.href, Trim(combinedMarkdown), currentGroup)];
    }
  }

  datatype Book = Book(title: string, chapters: seq<Chapter>)

  const NoChapters: string := "Не удалось обработать ни одной главы"

  /** `getEpubMetadata`: the book title and the retained chapters, or an
      error when no chapter is retained. */
  method GetEpubMetadata(epub: Epub, title: string, creator: string, date: string) returns (r: Result<Book, string>)
    ensures var kept := Run(epub, Listed(epub.toc)).chapters;
      if kept == [] then r == Err(NoChapters) else r == Ok(Book(BookTitle(title, creator, date), kept))
  {
    var chapters := Listed(epub.toc);
    var processedChapters: seq<Chapter> := [];
    var currentGroup: Option<string> := None;
    for i := 0 to |chapters|
      invariant Run(epub, chapters[..i]) == Pass(processedChapters, currentGroup)
    {
      assert chapters[..i + 1][..i] == chapters[..i];
      processedChapters, currentGroup := VisitEntry(epub, chapters[i], processedChapters, currentGroup);
    }
    assert chapters[..|chapters|] == chapters;
    if |processedChapters| == 0 {
      return Err(NoChapters);
    }
    r := Ok(Book(BookTitle(title, creator, date), processedChapters));
  }

  // ---------------------------------------------------------------------
  // What the chapter loop keeps.

  /** The group of a run is set by its last top-level entry: that entry's
      name when it is a section header, none otherwise. */
  lemma {:induction false} GroupIsLastTopLevel(epub: Epub, es: seq<Entry>, k: nat)
    requires k < |es| && es[k].level == 0
    requires forall j :: k < j < |es| ==> es[j].level != 0
    ensures Run(epub, es).group == if IsHeader(es[k]) then Some(es[k].name) else None
    decreases |es|
  {
    if k < |es| - 1 {
      GroupIsLastTopLevel(epub, es[..|es| - 1], k);
    }
  }

  /** Without a top-level entry there is no group. */
  lemma {:induction false} GroupNoTopLevel(epub: Epub, es: seq<Entry>)
    requires forall j :: 0 <= j < |es| ==> es[j].level != 0
    ensures Run(epub, es).group.None?
    decreases |es|
  {
    if |es| > 0 {
      GroupNoTopLevel(epub, es[..|es| - 1]);
    }
  }

  /** The chapter an entry becomes when it is kept. */
  function Kept(epub: Epub, es: seq<Entry>, k: nat): Chapter
    requires k < |es|
  {
    var e := es[k];
    Chapter(e.name, e.id, e.level, e.href, Trim(Markdown(epub, e)), Run(epub, es[..k + 1]).group)
  }

  /** Whether the entry at `k` is retained: not a header, and long enough. */
  predicate Retained(epub: Epub, es: seq<Entry>, k: nat)
    requires k < |es|
  {
    !IsHeader(es[k]) && |Markdown(epub, es[k])| >= MinLength
  }

  /** Running over a longer list keeps the chapters of the prefix in front. */
  lemma {:induction false} RunPrefix(epub: Epub, es: seq<Entry>, n: nat)
    requires n <= |es|
    ensures Run(epub, es[..n]).chapters <= Run(epub, es).chapters
    decreases |es| - n
  {
    if n < |es| {
      var init := es[..|es| - 1];
      RunPrefix(epub, init, n);
      assert init[..n] == es[..n];
      VisitGrows(epub, Run(epub, init), es[|es| - 1]);
      assert Run(epub, es).chapters == Visit(epub, Run(epub, init), es[|es| - 1]).chapters;
    } else {
      assert es[..n] == es;
    }
  }

  lemma VisitGrows(epub: Epub, p: Pass, e: Entry)
    ensures p.chapters <= Visit(epub, p, e).chapters
  {
  }

  /** Every retained entry is among the chapters. */
  lemma RunKeeps(epub: Epub, es: seq<Entry>, k: nat)
    requires k < |es| && Retained(epub, es, k)
    ensures Kept(epub, es, k) in Run(epub, es).chapters
  {
    RunPrefix(epub, es, k + 1);
    var pre := es[..k + 1];
    assert pre[..|pre| - 1] == es[..k] && pre[|pre| - 1] == es[k];
    assert Run(epub, pre) == Visit(epub, Run(epub, es[..k]), es[k]);
    VisitAppends(epub, Run(epub, es[..k]), es[k]);
  }

  /** A retained entry becomes the last chapter, in the group the visit leaves. */
  lemma VisitAppends(epub: Epub, p: Pass, e: Entry)
    requires !IsHeader(e) && |Markdown(epub, e)| >= MinLength
    ensures var q := Visit(epub, p, e);
      |q.chapters| > 0 && q.chapters[|q.chapters| - 1] == Chapter(e.name, e.id, e.level, e.href, Trim(Markdown(epub, e)), q.group)
  {
  }

  /** The positions of the retained entries, ascending. */
  function RetainedAt(epub: Epub, es: seq<Entry>): seq<nat>
    decreases |es|
  {
    if |es| == 0 then []
    else RetainedAt(epub, es[..|es| - 1]) + (if Retained(epub, es, |es| - 1) then [|es| - 1] else [])
  }

  /** `cs` are the entries of `es` at the ascending retained positions `idx`. */
  ghost predicate IndexedBy(epub: Epub, es: seq<Entry>, idx: seq<nat>, cs: seq<Chapter>) {
    |cs| == |idx|
    && (forall j :: 0 <= j < |idx| ==> idx[j] < |es| && Retained(epub, es, idx[j]) && cs[j] == Kept(epub, es, idx[j]))
    && (forall i, j :: 0 <= i < j < |idx| ==> idx[i] < idx[j])
  }

  /** The chapters are exactly the retained entries, in table-of-contents
      order: the j-th chapter is the entry at the j-th retained position. */
  lemma {:induction false} RunIndexed(epub: Epub, es: seq<Entry>)
    ensures IndexedBy(epub, es, RetainedAt(epub, es), Run(epub, es).chapters)
    decreases |es|
  {
    if |es| > 0 {
      var n := |es| - 1;
      var init := es[..n];
      RunIndexed(epub, init);
      PrefixRetained(epub, es);
      RunSnoc(epub, es);
      var idx0 := RetainedAt(epub, init);
      var cs0 := Run(epub, init).chapters;
      if Retained(epub, es, n) {
        assert RetainedAt(epub, es) == idx0 + [n];
        IndexedSnoc(epub, es, idx0, cs0);
      } else {
        assert RetainedAt(epub, es) == idx0;
        IndexedSame(epub, es, idx0, cs0);
      }
    }
  }

  /** Whether an entry is retained, and what it becomes, depends only on the
      entries up to it. */
  lemma PrefixRetained(epub: Epub, es: seq<Entry>)
    requires |es| > 0
    ensures forall k :: 0 <= k < |es| - 1 ==>
      Retained(epub, es[..|es| - 1], k) == Retained(epub, es, k) && Kept(epub, es[..|es| - 1], k) == Kept(epub, es, k)
  {
    var init := es[..|es| - 1];
    forall k | 0 <= k < |es| - 1
      ensures Retained(epub, init, k) == Retained(epub, es, k) && Kept(epub, init, k) == Kept(epub, es, k)
    {
      assert init[..k + 1] == es[..k + 1];
    }
  }

  /** The last entry adds its chapter exactly when it is retained. */
  lemma RunSnoc(epub: Epub, es: seq<Entry>)
    requires |es| > 0
    ensures var n := |es| - 1;
      Run(epub, es).chapters ==
        if Retained(epub, es, n) then Run(epub, es[..n]).chapters + [Kept(epub, es, n)] else Run(epub, es[..n]).chapters
  {
    var n := |es| - 1;
    assert es[..n + 1] == es;
    assert Run(epub, es) == Visit(epub, Run(epub, es[..n]), es[n]);
  }

  lemma IndexedSnoc(epub: Epub, es: seq<Entry>, idx0: seq<nat>, cs0: seq<Chapter>)
    requires |es| > 0 && IndexedBy(epub, es[..|es| - 1], idx0, cs0) && Retained(epub, es, |es| - 1)
    requires forall k :: 0 <= k < |es| - 1 ==>
      Retained(epub, es[..|es| - 1], k) == Retained(epub, es, k) && Kept(epub, es[..|es| - 1], k) == Kept(epub, es, k)
    ensures IndexedBy(epub, es, idx0 + [|es| - 1], cs0 + [Kept(epub, es, |es| - 1)])
  {
  }

  lemma IndexedSame(epub: Epub, es: seq<Entry>, idx0: seq<nat>, cs0: seq<Chapter>)
    requires |es| > 0 && IndexedBy(epub, es[..|es| - 1], idx0, cs0)
    requires forall k :: 0 <= k < |es| - 1 ==>
      Retained(epub, es[..|es| - 1], k) == Retained(epub, es, k) && Kept(epub, es[..|es| - 1], k) == Kept(epub, es, k)
    ensures IndexedBy(epub, es, idx0, cs0)
  {
  }

  /** The book title: `title || 'Без названия'`, `creator || 'Неизвестный
      автор'` and the year, the first four characters of the date or `н/д`. */
  function BookTitle(title: string, creator: string, date: string): (r: string)
  {
    (if title != "" then title else "Без названия") + " — "
    + (if creator != "" then creator else "Неизвестный автор")
    + " (" + (if date != "" then Slice(date, 0, 4) else "н/д") + ")"
  }

  /** The title opens with the book's title (or its placeholder) and closes
      with the bracketed year: a prefix of at most four characters of the
      date, or `н/д` without one. */
  lemma BookTitleShape(title: string, creator: string, date: string)
    ensures var r := BookTitle(title, creator, date);
      var year := if date != "" then Slice(date, 0, 4) else "н/д";
      StartsWith(r, if title != "" then title else "Без названия")
      && |year| <= 4 && (date != "" ==> year <= date)
      && |year| + 3 <= |r| && r[|r| - |year| - 3..] == " (" + year + ")"
  {
    var r := BookTitle(title, creator, date);
    var head := if title != "" then title else "Без названия";
    var year := if date != "" then Slice(date, 0, 4) else "н/д";
    var mid := " — " + (if creator != "" then creator else "Неизвестный автор");
    assert r == head + mid + (" (" + year + ")");
    assert r[..|head|] == head;
    assert r[|r| - |year| - 3..] == " (" + year + ")";
  }
}
