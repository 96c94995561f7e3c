/** The HTML side of the chapter reader (static/modules/ChapterReader.js):
    the footer split at the first horizontal rule, and the overlay that finds
    each term's snippets again in the rendered HTML and wraps them in spans. */
module HtmlOverlay {
  import opened Wrappers
  import opened JsString
  import opened Collections
  import opened AnnotationRanges

  // ---------------------------------------------------------------------
  // separateFooter: the first match of /<hr\s*\/?>/i.

  /** Length of the run of white space (`\s`) in `s` from offset `i`. */
  function WhiteRun(s: string, i: nat): (n: nat)
    requires i <= |s|
    ensures i + n <= |s|
    decreases |s| - i
  {
    if i < |s| && IsWhite(s[i]) then 1 + WhiteRun(s, i + 1) else 0
  }

  lemma {:induction false} WhiteRunSpec(s: string, i: nat)
    requires i <= |s|
    ensures forall k :: i <= k < i + WhiteRun(s, i) ==> IsWhite(s[k])
    ensures i + WhiteRun(s, i) == |s| || !IsWhite(s[i + WhiteRun(s, i)])
    decreases |s| - i
  {
    if i < |s| && IsWhite(s[i]) {
      WhiteRunSpec(s, i + 1);
    }
  }

  /** A run of `n` white characters ended by a non-white one is what
      WhiteRun measures. */
  lemma {:induction false} WhiteRunIs(s: string, i: nat, n: nat)
    requires i + n < |s|
    requires forall k :: i <= k < i + n ==> IsWhite(s[k])
    requires !IsWhite(s[i + n])
    ensures WhiteRun(s, i) == n
    decreases n
  {
    if n > 0 {
      WhiteRunIs(s, i + 1, n - 1);
    }
  }

  /** The length of the match of `<hr\s*\/?>`, ignoring case, at offset `p`:
      `\s*` takes the whole white run, then an optional `/`, then `>`. */
  function HrAt(s: string, p: nat): (r: Option<nat>)
    ensures r.Some? ==> 4 <= r.value && p + r.value <= |s|
  {
    if p + 3 > |s| || s[p] != '<' || (s[p + 1] != 'h' && s[p + 1] != 'H')
       || (s[p + 2] != 'r' && s[p + 2] != 'R') then None
    else
      var q := p + 3 + WhiteRun(s, p + 3);
      if q < |s| && s[q] == '>' then Some(q + 1 - p)
      else if q + 1 < |s| && s[q] == '/' && s[q + 1] == '>' then Some(q + 2 - p)
      else None
  }

  /** The leftmost offset at or after `p` where the pattern matches. */
  function FirstHr(s: string, p: nat): Option<nat>
    decreases |s| - p
  {
    if p >= |s| then None
    else if HrAt(s, p).Some? then Some(p)
    else FirstHr(s, p + 1)
  }

  lemma {:induction false} FirstHrSpec(s: string, p: nat)
    ensures FirstHr(s, p).Some? ==>
      p <= FirstHr(s, p).value && HrAt(s, FirstHr(s, p).value).Some? &&
      forall q: nat :: p <= q < FirstHr(s, p).value ==> HrAt(s, q).None?
    ensures FirstHr(s, p).None? ==> forall q: nat :: p <= q ==> HrAt(s, q).None?
    decreases |s| - p
  {
    if p < |s| && HrAt(s, p).None? {
      FirstHrSpec(s, p + 1);
    }
  }

  /** Whether the pattern matches at `k` depends only on the matched text, so
      the text matched at `p` matches wherever it occurs. */
  lemma HrAtCopy(s: string, p: nat, k: nat)
    requires HrAt(s, p).Some?
    requires OccursAt(s, s[p..p + HrAt(s, p).value], k)
    ensures HrAt(s, k) == HrAt(s, p)
  {
    var len := HrAt(s, p).value;
    SameChars(s, p, k, len);
    var w := WhiteRun(s, p + 3);
    WhiteRunSpec(s, p + 3);
    assert p + 3 + w < p + len;
    assert s[k + 3 + w] == s[p + 3 + w];
    forall j | k + 3 <= j < k + 3 + w ensures IsWhite(s[j]) {
      assert s[j] == s[p + (j - k)];
    }
    WhiteRunIs(s, k + 3, w);
    if s[p + 3 + w] == '/' {
      assert s[k + 3 + w + 1] == s[p + 3 + w + 1];
    }
  }

  /** The `len` characters at `k` are those at `p` when the text at `p`
      occurs at `k`. */
  lemma SameChars(s: string, p: nat, k: nat, len: nat)
    requires p + len <= |s| && OccursAt(s, s[p..p + len], k)
    ensures forall j :: k <= j < k + len ==> s[j] == s[p + (j - k)]
  {
    forall j | k <= j < k + len ensures s[j] == s[p + (j - k)] {
      assert s[j] == s[k..k + len][j - k];
    }
  }

  /** `html.indexOf(hrMatch[0])` finds the match itself: an earlier copy of
      the matched text would be an earlier match. */
  lemma HrIndex(html: string, p: nat)
    requires FirstHr(html, 0) == Some(p)
    ensures HrAt(html, p).Some?
    ensures IndexOf(html, html[p..p + HrAt(html, p).value], 0) == Some(p)
  {
    FirstHrSpec(html, 0);
    var m := html[p..p + HrAt(html, p).value];
    forall j: nat | j < p ensures !OccursAt(html, m, j) {
      if OccursAt(html, m, j) {
        HrAtCopy(html, p, j);
      }
    }
    IndexOfAt(html, m, 0, p);
  }

  const FooterOpen := "<hr><div class=\"chapter-footer\">"
  const FooterClose := "</div>"

  /** `separateFooter(html)`. */
  function SeparateFooter(html: string): (r: string)
    ensures FirstHr(html, 0).None? ==> r == html
    ensures FirstHr(html, 0).Some? ==>
      (HrAt(html, FirstHr(html, 0).value).Some? &&
       r == WithFooter(html, FirstHr(html, 0).value, HrAt(html, FirstHr(html, 0).value).value))
  {
    match FirstHr(html, 0)
    case None => html
    case Some(p) =>
      HrIndex(html, p);
      var m := html[p..p + HrAt(html, p).value];
      var hrIndex := IndexOf(html, m, 0).value;
      WithFooter(html, hrIndex, |m|)
  }

  /** The text before `i`, the footer's opening, the text after the `len`
      characters at `i`, and the footer's closing tag. */
  function WithFooter(html: string, i: nat, len: nat): string {
    Slice(html, 0, i) + FooterOpen + Slice(html, i + len, |html|) + FooterClose
  }

  /** Without a horizontal rule the HTML comes back unchanged. */
  lemma SeparateFooterNoRule(html: string)
    requires forall p: nat :: HrAt(html, p).None?
    ensures SeparateFooter(html) == html
  {
    FirstHrSpec(html, 0);
  }

  /** Otherwise the first rule is replaced by `<hr>` and everything after it
      is wrapped in the footer div. */
  lemma SeparateFooterSplit(html: string, p: nat)
    requires HrAt(html, p).Some?
    requires forall q: nat :: q < p ==> HrAt(html, q).None?
    ensures SeparateFooter(html) == html[..p] + FooterOpen + html[p + HrAt(html, p).value..] + FooterClose
  {
    FirstHrAt(html, p);
    WithFooterAt(html, p, HrAt(html, p).value);
  }

  /** The first rule is the one at `p` when none starts earlier. */
  lemma FirstHrAt(html: string, p: nat)
    requires HrAt(html, p).Some?
    requires forall q: nat :: q < p ==> HrAt(html, q).None?
    ensures FirstHr(html, 0) == Some(p)
  {
    FirstHrSpec(html, 0);
  }

  lemma WithFooterAt(html: string, i: nat, len: nat)
    requires i + len <= |html|
    ensures WithFooter(html, i, len) == html[..i] + FooterOpen + html[i + len..] + FooterClose
  {
    assert Slice(html, 0, i) == html[..i];
    assert Slice(html, i + len, |html|) == html[i + len..];
  }

  // ---------------------------------------------------------------------
  // annotateInHtml: the ranges in descending start order, each one's start
  // snippet searched from the beginning of the current string.

  /** The comparator `(a, b) => b.s - a.s` as "a may stay before b". */
  predicate StartsLater(a: Term, b: Term) { a.s >= b.s }

  lemma StartsLaterPreorder()
    ensures TotalPreorder(StartsLater)
  {
  }

  /** `[...ranges].sort((a, b) => b.s - a.s)`: ordered by descending start, a
      permutation of the ranges, and equal starts keep their order. */
  lemma ByStartOrder(ranges: seq<Term>, p: Term -> bool)
    requires forall a, b :: p(a) && p(b) ==> a.s == b.s
    ensures SortedBy(SortBy(ranges, StartsLater), StartsLater)
    ensures multiset(SortBy(ranges, StartsLater)) == multiset(ranges)
    ensures Filter(SortBy(ranges, StartsLater), p) == Filter(ranges, p)
  {
    StartsLaterPreorder();
    SortBySorted(ranges, StartsLater);
    SortByStable(ranges, StartsLater, p);
  }

  /** `r._sText || raw.slice(r.s, Math.min(r.s + 80, r.e))`. */
  function StartSnippet(r: Term, raw: string): string {
    if r.Range? && r.sText != "" then r.sText
    else Slice(raw, r.s, if r.s + 80 < r.e then r.s + 80 else r.e)
  }

  /** `''` for an anchor-only entry, else
      `r._eText || raw.slice(Math.max(r.e - 80, r.s), r.e)`. */
  function EndSnippet(r: Term, raw: string): string {
    if r.AnchorTerm? then ""
    else if r.eText != "" then r.eText
    else Slice(raw, if r.e - 80 > r.s then r.e - 80 else r.s, r.e)
  }

  function IdAttr(id: string): string {
    if id == "" then "" else " id=\"" + id + "\""
  }

  /** The comment marker put before an anchor. */
  function Marker(anchorId: string): string {
    "<span" + IdAttr(anchorId) + " class=\"tag-comment-emoji\">\U{1F4AC}</span>"
  }

  /** The opening tag of a wrapped range, with id `tag_<rid>`. */
  function OpenTag(r: Term): string
    requires r.Range?
  {
    var typeClass := if r.typ.Some? && r.typ.value != "" then " type-" + r.typ.value else "";
    "<span" + IdAttr("tag_" + Dec(r.rid)) + " class=\"tag-underline" + typeClass + "\">"
  }

  const CloseTag := "</span>"

  /** The wrapping step for a start snippet found at `i`: `open` and the
      closing tag around the text from `i` to the end of the first
      occurrence of `eText` after the start snippet. */
  function Wrap(html: string, i: nat, sText: string, eText: string, open: string, close: string): string
    requires i + |sText| <= |html|
  {
    var afterS := html[i + |sText|..];
    var eMatch := IndexOf(afterS, eText, 0);
    if eMatch.None? then html
    else Surround(html, i, i + |sText| + eMatch.value + |eText|, sText, eText, open, close)
  }

  /** The replacement `<open>sMatch middle eMatch<close>` of the text from
      `i` to `j`. */
  function Surround(html: string, i: nat, j: nat, sText: string, eText: string, open: string, close: string): string
    requires i + |sText| <= j - |eText| && j <= |html|
  {
    var middle := html[i + |sText|..j - |eText|];
    html[..i] + (open + sText + middle + eText + close) + html[j..]
  }

  /** One pass of the loop body on the current string `html`. */
  function Step(html: string, raw: string, r: Term): string {
    var sText := StartSnippet(r, raw);
    match IndexOf(html, sText, 0)
    case None => html
    case Some(i) =>
      if r.AnchorTerm? then InsertAt(html, Insertion(i, Marker(r.anchorId)))
      else Wrap(html, i, sText, EndSnippet(r, raw), OpenTag(r), CloseTag)
  }

  /** The loop over `byStart`, one Step per range. */
  function AnnotateAll(html: string, raw: string, rs: seq<Term>): string
    decreases |rs|
  {
    if rs == [] then html
    else Step(AnnotateAll(html, raw, rs[..|rs| - 1]), raw, rs[|rs| - 1])
  }

  /** The body of the loop in `annotateInHtml`. */
  method AnnotateOne(result: string, raw: string, r: Term) returns (out: string)
    ensures out == Step(result, raw, r)
  {
    out := result;
    var sText := StartSnippet(r, raw);
    var sMatch := IndexOf(result, sText, 0);
    if sMatch.None? {
      return;
    }
    var sIdxHtml := sMatch.value;
    if r.AnchorTerm? {
      var before := result[..sIdxHtml];
      var after := result[sIdxHtml..];
      out := before + Marker(r.anchorId) + after;
      return;
    }
    out := WrapRange(result, sIdxHtml, sText, EndSnippet(r, raw), OpenTag(r), CloseTag);
  }

  /** The wrapping half of the loop body, once the start snippet `sText`
      has been found at `sIdxHtml`. */
  method WrapRange(result: string, sIdxHtml: nat, sText: string, eText: string, open: string, close: string)
    returns (out: string)
    requires sIdxHtml + |sText| <= |result|
    ensures out == Wrap(result, sIdxHtml, sText, eText, open, close)
  {
    out := result;
    var afterS := result[sIdxHtml + |sText|..];
    var eMatch := IndexOf(afterS, eText, 0);
    if eMatch.None? {
      return;
    }
    var eIdxHtml := sIdxHtml + |sText| + eMatch.value + |eText|;
    var middle := result[sIdxHtml + |sText|..eIdxHtml - |eText|];
    var replacement := open + sText + middle + eText + close;
    out := result[..sIdxHtml] + replacement + result[eIdxHtml..];
    assert out == Surround(result, sIdxHtml, eIdxHtml, sText, eText, open, close);
  }

  /** `annotateInHtml(htmlStr, raw, ranges)`. */
  method AnnotateInHtml(htmlStr: string, raw: string, ranges: seq<Term>) returns (result: string)
    ensures result == AnnotateAll(htmlStr, raw, SortBy(ranges, StartsLater))
  {
    result := htmlStr;
    var byStart := SortBy(ranges, StartsLater);
    for i := 0 to |byStart|
      invariant result == AnnotateAll(htmlStr, raw, byStart[..i])
    {
      assert byStart[..i + 1][..i] == byStart[..i];
      result := AnnotateOne(result, raw, byStart[i]);
    }
    assert byStart[..|byStart|] == byStart;
  }

  // What one step does, case by case.

  /** `pat` first occurs in `s` at `i`, counting from `from`. */
  predicate FirstFrom(s: string, pat: string, from: nat, i: nat) {
    from <= i && OccursAt(s, pat, i) && forall j: nat :: from <= j < i ==> !OccursAt(s, pat, j)
  }

  /** Occurrences in `s[from..]` are occurrences in `s`, shifted by `from`. */
  lemma OccursAfter(s: string, pat: string, from: nat, k: nat)
    requires from <= |s|
    ensures OccursAt(s[from..], pat, k) <==> OccursAt(s, pat, from + k)
  {
    if from + k + |pat| <= |s| {
      assert s[from..][k..k + |pat|] == s[from + k..from + k + |pat|];
    }
  }

  /** A start snippet that does not occur leaves the string unchanged. */
  lemma StepNoStart(html: string, raw: string, r: Term)
    requires forall i: nat :: !OccursAt(html, StartSnippet(r, raw), i)
    ensures Step(html, raw, r) == html
  {
  }

  /** An anchor-only entry puts the marker before the first occurrence of
      its start snippet. */
  lemma StepAnchor(html: string, raw: string, r: Term, i: nat)
    requires r.AnchorTerm? && FirstFrom(html, StartSnippet(r, raw), 0, i)
    ensures Step(html, raw, r) == html[..i] + Marker(r.anchorId) + html[i..]
  {
    IndexOfAt(html, StartSnippet(r, raw), 0, i);
  }

  /** A range whose end snippet does not occur after the first start
      snippet leaves the string unchanged. */
  lemma StepNoEnd(html: string, raw: string, r: Term, i: nat)
    requires r.Range? && FirstFrom(html, StartSnippet(r, raw), 0, i)
    requires forall j: nat :: i + |StartSnippet(r, raw)| <= j ==> !OccursAt(html, EndSnippet(r, raw), j)
    ensures Step(html, raw, r) == html
  {
    IndexOfAt(html, StartSnippet(r, raw), 0, i);
    WrapNoEnd(html, i, StartSnippet(r, raw), EndSnippet(r, raw), OpenTag(r), CloseTag);
  }

  lemma WrapNoEnd(html: string, i: nat, sText: string, eText: string, open: string, close: string)
    requires i + |sText| <= |html|
    requires forall j: nat :: i + |sText| <= j ==> !OccursAt(html, eText, j)
    ensures Wrap(html, i, sText, eText, open, close) == html
  {
    var eMatch := IndexOf(html[i + |sText|..], eText, 0);
    if eMatch.Some? {
      OccursAfter(html, eText, i + |sText|, eMatch.value);
    }
  }

  /** Otherwise the range wraps `html[i..j]`, from the first start snippet
      to the end of the first end snippet after it. */
  lemma StepWrap(html: string, raw: string, r: Term, i: nat, j: nat)
    requires r.Range? && FirstFrom(html, StartSnippet(r, raw), 0, i)
    requires j >= |EndSnippet(r, raw)|
    requires FirstFrom(html, EndSnippet(r, raw), i + |StartSnippet(r, raw)|, j - |EndSnippet(r, raw)|)
    ensures Step(html, raw, r) == html[..i] + OpenTag(r) + html[i..j] + CloseTag + html[j..]
  {
    IndexOfAt(html, StartSnippet(r, raw), 0, i);
    WrapAt(html, i, StartSnippet(r, raw), EndSnippet(r, raw), OpenTag(r), CloseTag, j);
  }

  lemma WrapAt(html: string, i: nat, sText: string, eText: string, open: string, close: string, j: nat)
    requires OccursAt(html, sText, i)
    requires j >= |eText| && FirstFrom(html, eText, i + |sText|, j - |eText|)
    ensures Wrap(html, i, sText, eText, open, close) == html[..i] + open + html[i..j] + close + html[j..]
  {
    IndexOfAfter(html, eText, i + |sText|, j - |eText|);
    WrapFound(html, i, sText, eText, open, close, j - |eText| - (i + |sText|));
    SurroundIs(html, i, j, sText, eText, open, close);
  }

  /** The first occurrence from `from` on is the first one in `s[from..]`. */
  lemma IndexOfAfter(s: string, pat: string, from: nat, m: nat)
    requires FirstFrom(s, pat, from, m)
    ensures IndexOf(s[from..], pat, 0) == Some(m - from)
  {
    OccursAfter(s, pat, from, m - from);
    forall k: nat | k < m - from ensures !OccursAt(s[from..], pat, k) {
      OccursAfter(s, pat, from, k);
    }
    IndexOfAt(s[from..], pat, 0, m - from);
  }

  lemma WrapFound(html: string, i: nat, sText: string, eText: string, open: string, close: string, k: nat)
    requires i + |sText| <= |html|
    requires IndexOf(html[i + |sText|..], eText, 0) == Some(k)
    ensures Wrap(html, i, sText, eText, open, close) == Surround(html, i, i + |sText| + k + |eText|, sText, eText, open, close)
  {
    var afterS := html[i + |sText|..];
    assert OccursAt(afterS, eText, k);
    assert i + |sText| + k + |eText| <= |html|;
  }

  /** The replacement only adds `open` before and `close` after the text
      from `i` to `j`, which starts with `sText` and ends with `eText`. */
  lemma SurroundIs(html: string, i: nat, j: nat, sText: string, eText: string, open: string, close: string)
    requires i + |sText| <= j - |eText| && j <= |html|
    requires OccursAt(html, sText, i) && OccursAt(html, eText, j - |eText|)
    ensures Surround(html, i, j, sText, eText, open, close) == html[..i] + open + html[i..j] + close + html[j..]
  {
    var middle := html[i + |sText|..j - |eText|];
    calc {
      Surround(html, i, j, sText, eText, open, close);
      html[..i] + (open + sText + middle + eText + close) + html[j..];
      { Regroup(html[..i], open, sText, middle, eText, close, html[j..]); }
      html[..i] + open + (sText + middle + eText) + close + html[j..];
      { SliceSplit(html, i, i + |sText|, j - |eText|, j); }
      html[..i] + open + html[i..j] + close + html[j..];
    }
  }

  /** `s[a..d]` cut at `b` and `c`. */
  lemma SliceSplit(s: string, a: nat, b: nat, c: nat, d: nat)
    requires a <= b <= c <= d <= |s|
    ensures s[a..d] == s[a..b] + s[b..c] + s[c..d]
  {
  }

  lemma Regroup(a: string, o: string, s: string, m: string, e: string, c: string, b: string)
    ensures a + (o + s + m + e + c) + b == a + o + (s + m + e) + c + b
  {
  }

  // Only markup is inserted: a step is a list of insertions, and removing
  // them again gives back the input.

  datatype Insertion = Insertion(at: nat, text: string)

  function InsertAt(s: string, ins: Insertion): string
    requires ins.at <= |s|
  {
    s[..ins.at] + ins.text + s[ins.at..]
  }

  /** Deletes `n` characters at `at`. */
  function Erase(s: string, at: nat, n: nat): string {
    var a := if at < |s| then at else |s|;
    var b := if at + n < |s| then at + n else |s|;
    s[..a] + s[b..]
  }

  ghost predicate Applicable(s: string, edits: seq<Insertion>)
    decreases |edits|
  {
    edits == [] || (edits[0].at <= |s| && Applicable(InsertAt(s, edits[0]), edits[1..]))
  }

  /** The insertions applied one after another. */
  function Apply(s: string, edits: seq<Insertion>): string
    requires Applicable(s, edits)
    decreases |edits|
  {
    if edits == [] then s else Apply(InsertAt(s, edits[0]), edits[1..])
  }

  /** The insertions removed again, the last one first. */
  function Undo(s: string, edits: seq<Insertion>): string
    decreases |edits|
  {
    if edits == [] then s else Erase(Undo(s, edits[1..]), edits[0].at, |edits[0].text|)
  }

  lemma {:induction false} UndoApply(s: string, edits: seq<Insertion>)
    requires Applicable(s, edits)
    ensures Undo(Apply(s, edits), edits) == s
    decreases |edits|
  {
    if edits != [] {
      var t := InsertAt(s, edits[0]);
      UndoApply(t, edits[1..]);
      assert t[..edits[0].at] + t[edits[0].at + |edits[0].text|..] == s;
    }
  }

  lemma {:induction false} ApplyConcat(s: string, a: seq<Insertion>, b: seq<Insertion>)
    requires Applicable(s, a) && Applicable(Apply(s, a), b)
    ensures Applicable(s, a + b) && Apply(s, a + b) == Apply(Apply(s, a), b)
    decreases |a|
  {
    if a == [] {
      assert a + b == b;
    } else {
      assert (a + b)[0] == a[0];
      assert (a + b)[1..] == a[1..] + b;
      ApplyConcat(InsertAt(s, a[0]), a[1..], b);
    }
  }

  /** An inserted text is a span tag: the closing tag, or a text opening
      with `<span` and ending with `>` (an opening tag, or the marker span). */
  predicate IsMarkup(t: string) {
    t == CloseTag || (|t| > 5 && t[..5] == "<span" && t[|t| - 1] == '>')
  }

  ghost predicate MarkupOnly(edits: seq<Insertion>) {
    forall k :: 0 <= k < |edits| ==> IsMarkup(edits[k].text)
  }

  lemma TagsAreMarkup(r: Term)
    ensures IsMarkup(CloseTag)
    ensures r.AnchorTerm? ==> IsMarkup(Marker(r.anchorId))
    ensures r.Range? ==> IsMarkup(OpenTag(r))
  {
    if r.AnchorTerm? {
      assert Marker(r.anchorId)[..5] == "<span";
    } else {
      assert OpenTag(r)[..5] == "<span";
    }
  }

  /** The insertions a wrapping step makes: the closing tag at the end of
      the match, then the opening tag at its start. */
  function WrapEdits(html: string, i: nat, sText: string, eText: string, open: string, close: string): seq<Insertion>
    requires i + |sText| <= |html|
  {
    var eMatch := IndexOf(html[i + |sText|..], eText, 0);
    if eMatch.None? then []
    else [Insertion(i + |sText| + eMatch.value + |eText|, close), Insertion(i, open)]
  }

  lemma WrapInserts(html: string, i: nat, sText: string, eText: string, open: string, close: string)
    requires OccursAt(html, sText, i)
    ensures Applicable(html, WrapEdits(html, i, sText, eText, open, close))
    ensures Apply(html, WrapEdits(html, i, sText, eText, open, close)) == Wrap(html, i, sText, eText, open, close)
  {
    var from := i + |sText|;
    var eMatch := IndexOf(html[from..], eText, 0);
    if eMatch.Some? {
      var k := eMatch.value;
      var j := from + k + |eText|;
      OccursAfter(html, eText, from, k);
      assert WrapEdits(html, i, sText, eText, open, close) == [Insertion(j, close), Insertion(i, open)];
      WrapFound(html, i, sText, eText, open, close, k);
      SurroundIs(html, i, j, sText, eText, open, close);
      InsertTwice(html, i, j, open, close);
    } else {
      assert WrapEdits(html, i, sText, eText, open, close) == [];
      assert Wrap(html, i, sText, eText, open, close) == html;
    }
  }

  /** The closing tag at `j`, then the opening tag at `i <= j`. */
  lemma InsertTwice(html: string, i: nat, j: nat, open: string, close: string)
    requires i <= j <= |html|
    ensures Applicable(html, [Insertion(j, close), Insertion(i, open)])
    ensures Apply(html, [Insertion(j, close), Insertion(i, open)]) == html[..i] + open + html[i..j] + close + html[j..]
  {
    var edits := [Insertion(j, close), Insertion(i, open)];
    var rest := [Insertion(i, open)];
    assert edits[1..] == rest && rest[1..] == [];
    var once := InsertAt(html, Insertion(j, close));
    var twice := InsertAt(once, Insertion(i, open));
    assert Applicable(once, rest);
    assert Apply(once, rest) == Apply(twice, []) == twice;
    InsertTwiceSeq(html, i, j, open, close);
  }

  lemma InsertTwiceSeq(h: string, i: nat, j: nat, o: string, c: string)
    requires i <= j <= |h|
    ensures var once := h[..j] + c + h[j..]; once[..i] + o + once[i..] == h[..i] + o + h[i..j] + c + h[j..]
  {
    var once := h[..j] + c + h[j..];
    assert once[..i] == h[..i];
    assert once[i..] == h[i..j] + c + h[j..];
  }

  /** The insertions one step makes: none, the marker, or a wrap's two tags. */
  function StepEdits(html: string, raw: string, r: Term): seq<Insertion> {
    var sText := StartSnippet(r, raw);
    match IndexOf(html, sText, 0)
    case None => []
    case Some(i) =>
      if r.AnchorTerm? then [Insertion(i, Marker(r.anchorId))]
      else WrapEdits(html, i, sText, EndSnippet(r, raw), OpenTag(r), CloseTag)
  }

  /** Each step is exactly its insertions, all of them markup. */
  lemma StepInserts(html: string, raw: string, r: Term)
    ensures Applicable(html, StepEdits(html, raw, r))
    ensures Apply(html, StepEdits(html, raw, r)) == Step(html, raw, r)
    ensures MarkupOnly(StepEdits(html, raw, r))
  {
    var sText := StartSnippet(r, raw);
    TagsAreMarkup(r);
    match IndexOf(html, sText, 0)
    case None =>
    case Some(i) =>
      if r.AnchorTerm? {
        var edits := StepEdits(html, raw, r);
        assert Apply(html, edits) == InsertAt(html, edits[0]);
      } else {
        WrapInserts(html, i, sText, EndSnippet(r, raw), OpenTag(r), CloseTag);
      }
  }

  /** All insertions of the loop, in the order they are made. */
  function AllEdits(html: string, raw: string, rs: seq<Term>): seq<Insertion>
    decreases |rs|
  {
    if rs == [] then []
    else
      AllEdits(html, raw, rs[..|rs| - 1]) +
      StepEdits(AnnotateAll(html, raw, rs[..|rs| - 1]), raw, rs[|rs| - 1])
  }

  lemma {:induction false} AnnotateAllInserts(html: string, raw: string, rs: seq<Term>)
    ensures Applicable(html, AllEdits(html, raw, rs))
    ensures Apply(html, AllEdits(html, raw, rs)) == AnnotateAll(html, raw, rs)
    ensures MarkupOnly(AllEdits(html, raw, rs))
    decreases |rs|
  {
    if rs != [] {
      var init := rs[..|rs| - 1];
      var prev := AnnotateAll(html, raw, init);
      AnnotateAllInserts(html, raw, init);
      StepInserts(prev, raw, rs[|rs| - 1]);
      ApplyConcat(html, AllEdits(html, raw, init), StepEdits(prev, raw, rs[|rs| - 1]));
    }
  }

  /** Deleting the inserted markup from the annotated HTML gives back the
      input HTML exactly. */
  lemma AnnotateErases(html: string, raw: string, ranges: seq<Term>)
    ensures MarkupOnly(AllEdits(html, raw, SortBy(ranges, StartsLater)))
    ensures Undo(AnnotateAll(html, raw, SortBy(ranges, StartsLater)),
                 AllEdits(html, raw, SortBy(ranges, StartsLater))) == html
  {
    var rs := SortBy(ranges, StartsLater);
    AnnotateAllInserts(html, raw, rs);
    UndoApply(html, AllEdits(html, raw, rs));
  }
}
