/** The chapter selection in the page address: writing it as a sorted,
    comma-separated list, reading it back, and opening a chapter by number.
    Query parameters follow the URLSearchParams interface of the WHATWG URL
    Standard (section 6.2): an ordered list of name-value pairs. */
module UrlRouter {
  import opened Wrappers
  import opened JsString
  import opened Collections
  import opened ChapterManager

  type Params = seq<(string, string)>

  /** `params.get(name)`: the value of the first pair with that name. */
  function Get(ps: Params, name: string): Option<string>
    decreases |ps|
  {
    if |ps| == 0 then None else if ps[0].0 == name then Some(ps[0].1) else Get(ps[1..], name)
  }

  /** `params.delete(name)`: every pair with that name removed. */
  function Delete(ps: Params, name: string): (r: Params)
    ensures Get(r, name) == None
    ensures forall other :: other != name ==> Get(r, other) == Get(ps, other)
    decreases |ps|
  {
    if |ps| == 0 then []
    else if ps[0].0 == name then Delete(ps[1..], name)
    else
      var rest := Delete(ps[1..], name);
      assert ([ps[0]] + rest)[1..] == rest;
      [ps[0]] + rest
  }

  /** Sets the first pair named `name` to `value` and drops the later ones. */
  function SetFirst(ps: Params, name: string, value: string): Params
    decreases |ps|
  {
    if |ps| == 0 then []
    else if ps[0].0 == name then [(name, value)] + Delete(ps[1..], name)
    else [ps[0]] + SetFirst(ps[1..], name, value)
  }

  /** `params.set(name, value)`: the first pair of that name gets the value
      and the others go, or the pair is appended when there is none. */
  function Set(ps: Params, name: string, value: string): (r: Params)
    ensures Get(r, name) == Some(value)
    ensures forall other :: other != name ==> Get(r, other) == Get(ps, other)
  {
    if Get(ps, name).Some? then
      SetFirstSpec(ps, name, value);
      SetFirst(ps, name, value)
    else
      GetAppend(ps, name, value);
      ps + [(name, value)]
  }

  lemma {:induction false} SetFirstSpec(ps: Params, name: string, value: string)
    requires Get(ps, name).Some?
    ensures Get(SetFirst(ps, name, value), name) == Some(value)
    ensures forall other :: other != name ==> Get(SetFirst(ps, name, value), other) == Get(ps, other)
    decreases |ps|
  {
    if ps[0].0 != name {
      SetFirstSpec(ps[1..], name, value);
    }
  }

  lemma {:induction false} GetAppend(ps: Params, name: string, value: string)
    requires Get(ps, name).None?
    ensures Get(ps + [(name, value)], name) == Some(value)
    ensures forall other :: other != name ==> Get(ps + [(name, value)], other) == Get(ps, other)
    decreases |ps|
  {
    if |ps| > 0 {
      GetAppend(ps[1..], name, value);
      assert (ps + [(name, value)])[1..] == ps[1..] + [(name, value)];
    }
  }

  /** The numeric comparison `(a, b) => a - b`. */
  predicate Ascending(a: int, b: int) { a <= b }

  /** `Array.from(selectedChapters).sort((a, b) => a - b)`. */
  function SortedChapters(selected: seq<int>): seq<int> {
    SortBy(selected, Ascending)
  }

  /** Number#toString of each number. */
  function Strings(xs: seq<int>): (r: seq<string>)
    ensures |r| == |xs| && forall k :: 0 <= k < |xs| ==> r[k] == IntToString(xs[k])
  {
    seq(|xs|, k requires 0 <= k < |xs| => IntToString(xs[k]))
  }

  /** `chaptersArray.join(',')`. */
  function ChaptersParam(selected: seq<int>): string {
    Join(Strings(SortedChapters(selected)), ",")
  }

  /** The `chapters` parameter: the joined list, or deleted when nothing is
      selected. */
  function WithChapters(ps: Params, selected: seq<int>): (r: Params)
    ensures Get(r, "chapters") == if |selected| > 0 then Some(ChaptersParam(selected)) else None
    ensures forall other :: other != "chapters" ==> Get(r, other) == Get(ps, other)
  {
    if |selected| > 0 then Set(ps, "chapters", ChaptersParam(selected)) else Delete(ps, "chapters")
  }

  /** `updateWithChapters(bookName, selectedChapters)`. */
  function UpdateWithChapters(ps: Params, bookName: string, selected: seq<int>): (r: Params)
    ensures Get(r, "book") == Some(bookName)
    ensures Get(r, "processing") == None
    ensures Get(r, "chapters") == if |selected| > 0 then Some(ChaptersParam(selected)) else None
    ensures forall other :: other != "book" && other != "processing" && other != "chapters" ==>
      Get(r, other) == Get(ps, other)
  {
    WithChapters(Delete(Set(ps, "book", bookName), "processing"), selected)
  }

  /** `updateUrlWithChapters()` of the single-page app: the same update,
      except that without a selected book (null or empty) the address is
      left alone. */
  function UpdateUrlWithChapters(ps: Params, selectedBook: Option<string>, selected: seq<int>): (r: Params)
    ensures selectedBook.None? || |selectedBook.value| == 0 ==> r == ps
    ensures selectedBook.Some? && |selectedBook.value| > 0 ==>
      Get(r, "book") == Some(selectedBook.value)
      && Get(r, "processing") == None
      && Get(r, "chapters") == (if |selected| > 0 then Some(ChaptersParam(selected)) else None)
      && forall other :: other != "book" && other != "processing" && other != "chapters" ==>
           Get(r, other) == Get(ps, other)
  {
    if selectedBook.None? || |selectedBook.value| == 0 then ps
    else UpdateWithChapters(ps, selectedBook.value, selected)
  }

  /** The address of the chapter-list step of the single-page app: the book
      set, the open chapter dropped, the selection written as above. */
  function ChapterListParams(ps: Params, bookName: string, selected: seq<int>): (r: Params)
    ensures Get(r, "book") == Some(bookName)
    ensures Get(r, "chapter") == None
    ensures Get(r, "chapters") == if |selected| > 0 then Some(ChaptersParam(selected)) else None
    ensures forall other :: other != "book" && other != "chapter" && other != "chapters" ==>
      Get(r, other) == Get(ps, other)
  {
    WithChapters(Delete(Set(ps, "book", bookName), "chapter"), selected)
  }

  // ---------------------------------------------------------------------
  // Reading the list back

  /** `parseInt(n.trim())` of each piece, NaN dropped. */
  function ParseAll(pieces: seq<string>): seq<int>
    decreases |pieces|
  {
    if |pieces| == 0 then []
    else
      match ParseInt(Trim(pieces[0]), 0)
      case Some(n) => [n] + ParseAll(pieces[1..])
      case None => ParseAll(pieces[1..])
  }

  /** `chaptersParam.split(',').map(n => parseInt(n.trim())).filter(n => !isNaN(n))`. */
  function ParseChapters(chaptersParam: string): seq<int> {
    ParseAll(Split(chaptersParam, ','))
  }

  /** `restoreSelectedChapters(chaptersParam)`: the selection is cleared and
      refilled with the numbers read from the parameter. */
  method RestoreSelectedChapters(selection: Selection, chaptersParam: string)
    requires selection.Valid()
    modifies selection
    ensures selection.Valid()
    ensures selection.chapters == AddAll([], ParseChapters(chaptersParam))
  {
    var chapterNums := ParseChapters(chaptersParam);
    selection.DeselectAll();
    for k := 0 to |chapterNums|
      invariant selection.Valid()
      invariant selection.chapters == AddAll([], chapterNums[..k])
    {
      assert chapterNums[..k + 1][..k] == chapterNums[..k];
      selection.Add(chapterNums[k]);
    }
    assert chapterNums[..|chapterNums|] == chapterNums;
  }

  /** A written number has no comma and no white space at either end. */
  lemma IntStringShape(i: int)
    ensures ',' !in IntToString(i)
    ensures |IntToString(i)| > 0 && !IsWhite(IntToString(i)[0]) && !IsWhite(IntToString(i)[|IntToString(i)| - 1])
  {
    var n: nat := if i < 0 then -i else i;
    DecDigits(n);
    var s := IntToString(i);
    if i < 0 {
      assert s == "-" + Dec(n);
      forall k | 0 <= k < |s| ensures s[k] != ',' {
        if k > 0 { assert s[k] == Dec(n)[k - 1]; }
      }
    }
  }

  /** Parsing written numbers gives the numbers back. */
  lemma {:induction false} ParseAllStrings(xs: seq<int>)
    ensures ParseAll(Strings(xs)) == xs
    decreases |xs|
  {
    if |xs| > 0 {
      var s := IntToString(xs[0]);
      IntStringShape(xs[0]);
      TrimUnchanged(s);
      ParseIntToString(xs[0], 0);
      ParseAllStrings(xs[1..]);
      assert Strings(xs)[1..] == Strings(xs[1..]);
    }
  }

  /** Reading back a written list of numbers, in any order and of any sign,
      gives that list. */
  lemma ParseJoined(xs: seq<int>)
    requires |xs| > 0
    ensures ParseChapters(Join(Strings(xs), ",")) == xs
  {
    forall k | 0 <= k < |xs| ensures ',' !in Strings(xs)[k] {
      IntStringShape(xs[k]);
    }
    SplitJoin(Strings(xs), ',');
    ParseAllStrings(xs);
  }

  lemma AscendingTotal()
    ensures TotalPreorder(Ascending)
  {
  }

  /** The written list is ascending and holds each selected number as often
      as the selection does. */
  lemma ChaptersParamSorted(selected: seq<int>)
    ensures SortedBy(SortedChapters(selected), Ascending)
    ensures multiset(SortedChapters(selected)) == multiset(selected)
  {
    AscendingTotal();
    SortBySorted(selected, Ascending);
  }

  /** Reading the parameter written for a non-empty selection gives the
      selection back in ascending order. */
  lemma ChaptersRoundTrip(selected: seq<int>)
    requires |selected| > 0
    ensures ParseChapters(ChaptersParam(selected)) == SortedChapters(selected)
  {
    SortByPermutation(selected, Ascending);
    ParseJoined(SortedChapters(selected));
  }

  /** Restoring from the written parameter rebuilds the same set of chapters. */
  lemma RestoreAfterUpdate(selected: seq<int>)
    requires |selected| > 0
    ensures forall n :: n in AddAll([], ParseChapters(ChaptersParam(selected))) <==> n in selected
  {
    ChaptersRoundTrip(selected);
    ChaptersParamSorted(selected);
    AddAllSpec([], SortedChapters(selected));
    forall n ensures n in SortedChapters(selected) <==> n in selected {
      assert n in SortedChapters(selected) <==> n in multiset(SortedChapters(selected));
    }
  }

  // ---------------------------------------------------------------------
  // openChapterByParam

  /** The first chapter, in list order, whose display or real number is `n`. */
  function FindChapter(chapters: seq<ListedChapter>, n: int): (r: Option<nat>)
    ensures r.Some? ==> (r.value < |chapters|
      && (chapters[r.value].displayNumber == n || chapters[r.value].realNumber == n)
      && forall j :: 0 <= j < r.value ==> chapters[j].displayNumber != n && chapters[j].realNumber != n)
    ensures r.None? ==> forall j :: 0 <= j < |chapters| ==> chapters[j].displayNumber != n && chapters[j].realNumber != n
    decreases |chapters|
  {
    if |chapters| == 0 then None
    else if chapters[0].displayNumber == n || chapters[0].realNumber == n then Some(0)
    else match FindChapter(chapters[1..], n)
      case None => None
      case Some(k) => Some(k + 1)
  }

  /** `openChapterByParam(chapterParam)`: the chapter to open, nothing for a
      parameter that is not a number or that no chapter carries. */
  function OpenChapterByParam(chapters: seq<ListedChapter>, chapterParam: string): (r: Option<ListedChapter>)
    ensures ParseInt(chapterParam, 0).None? ==> r.None?
    ensures ParseInt(chapterParam, 0).Some? ==>
      var n := ParseInt(chapterParam, 0).value;
      (r.None? <==> forall j :: 0 <= j < |chapters| ==> chapters[j].displayNumber != n && chapters[j].realNumber != n)
      && (r.Some? ==> r.value in chapters && (r.value.displayNumber == n || r.value.realNumber == n))
  {
    match ParseInt(chapterParam, 0)
    case None => None
    case Some(n) =>
      match FindChapter(chapters, n)
      case None => None
      case Some(k) => Some(chapters[k])
  }
}
