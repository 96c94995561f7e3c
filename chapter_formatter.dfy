/** The console chapter listing: which chapters are offered, the dense
    display numbering of the visible ones and its two-column layout. */
module ChapterFormatter {
  import opened Wrappers
  import opened JsString

  /** A chapter of the book, by name and content length. */
  datatype BookChapter = BookChapter(name: string, length: nat)

  // ---------------------------------------------------------------------
  // getValidChapterNumbers

  const ExcludedNames: seq<string> := ["COPYRIGHT", "CONTENTS", "NOTES", "ACKNOWLEDGMENTS", "INDEX"]

  const DefaultMinLength: int := 500

  predicate Offered(c: BookChapter, minContentLength: int) {
    c.length >= minContentLength && ToUpper(c.name) !in ExcludedNames
  }

  /** The 1-based positions of the offered chapters, in book order. */
  function ValidChapterNumbers(chapters: seq<BookChapter>, minContentLength: int): seq<nat>
    decreases |chapters|
  {
    if |chapters| == 0 then []
    else
      ValidChapterNumbers(chapters[..|chapters| - 1], minContentLength)
      + (if Offered(chapters[|chapters| - 1], minContentLength) then [|chapters|] else [])
  }

  /** Ascending positions, holding exactly the offered chapters. */
  lemma {:induction false} ValidChapterNumbersSpec(chapters: seq<BookChapter>, minContentLength: int)
    ensures forall i, j :: 0 <= i < j < |ValidChapterNumbers(chapters, minContentLength)| ==>
      ValidChapterNumbers(chapters, minContentLength)[i] < ValidChapterNumbers(chapters, minContentLength)[j]
    ensures forall n :: n in ValidChapterNumbers(chapters, minContentLength) <==>
      1 <= n <= |chapters| && Offered(chapters[n - 1], minContentLength)
    decreases |chapters|
  {
    if |chapters| > 0 {
      var init := chapters[..|chapters| - 1];
      ValidChapterNumbersSpec(init, minContentLength);
      var r0 := ValidChapterNumbers(init, minContentLength);
      var r := ValidChapterNumbers(chapters, minContentLength);
      assert r == r0 + (if Offered(chapters[|chapters| - 1], minContentLength) then [|chapters|] else []);
      forall i | 0 <= i < |r0| ensures r0[i] < |chapters| {
        assert r0[i] in r0;
      }
      forall n ensures n in r <==> 1 <= n <= |chapters| && Offered(chapters[n - 1], minContentLength) {
        if 1 <= n < |chapters| {
          assert chapters[n - 1] == init[n - 1];
        }
      }
    }
  }

  // ---------------------------------------------------------------------
  // formatChapterInfo: the visible chapters and their display numbers.

  /** The input numbers whose chapter is long enough, in input order. */
  function Visible(nums: seq<int>, book: seq<BookChapter>, minContentLength: int): (v: seq<int>)
    requires forall k :: 0 <= k < |nums| ==> 1 <= nums[k] <= |book|
    ensures |v| <= |nums|
    decreases |nums|
  {
    if |nums| == 0 then []
    else
      var num := nums[|nums| - 1];
      Visible(nums[..|nums| - 1], book, minContentLength)
      + (if book[num - 1].length >= minContentLength then [num] else [])
  }

  /** `displayToRealMap`: display number `d` to the d-th visible chapter. */
  function DisplayMap(v: seq<int>): map<int, int>
    decreases |v|
  {
    if |v| == 0 then map[] else DisplayMap(v[..|v| - 1])[|v| := v[|v| - 1]]
  }

  /** `realToDisplayMap`: a chapter number to its (last) display number. */
  function RealMap(v: seq<int>): map<int, int>
    decreases |v|
  {
    if |v| == 0 then map[] else RealMap(v[..|v| - 1])[v[|v| - 1] := |v|]
  }

  /** The chapters of column `c`: the visible ones whose display number
      minus one leaves remainder `c` modulo the column count. */
  function Column(v: seq<int>, c: nat): seq<int>
    decreases |v|
  {
    if |v| == 0 then []
    else Column(v[..|v| - 1], c) + (if (|v| - 1) % Columns == c then [v[|v| - 1]] else [])
  }

  const Columns: nat := 2

  /** What `formatChapterInfo` computes besides the text: the two columns
      (of real chapter numbers), the number of rows and both maps. */
  datatype Info = Info(columns: seq<seq<int>>, maxRows: nat, displayToReal: map<int, int>, realToDisplay: map<int, int>)

  method FormatChapterInfo(chapters: seq<int>, bookChapters: seq<BookChapter>, minContentLength: int) returns (info: Info)
    requires forall k :: 0 <= k < |chapters| ==> 1 <= chapters[k] <= |bookChapters|
    ensures var v := Visible(chapters, bookChapters, minContentLength);
      info == Info([Column(v, 0), Column(v, 1)], |Column(v, 0)|, DisplayMap(v), RealMap(v))
  {
    var columns, displayToRealMap, realToDisplayMap := VisitChapters(chapters, bookChapters, minContentLength);
    ghost var v := Visible(chapters, bookChapters, minContentLength);
    ColumnSizes(v);
    var maxRows := Max(|columns[0]|, |columns[1]|);
    info := Info(columns, maxRows, displayToRealMap, realToDisplayMap);
  }

  /** The loop of `formatChapterInfo` over the chapter numbers. */
  method VisitChapters(chapters: seq<int>, bookChapters: seq<BookChapter>, minContentLength: int)
    returns (columns: seq<seq<int>>, displayToRealMap: map<int, int>, realToDisplayMap: map<int, int>)
    requires forall k :: 0 <= k < |chapters| ==> 1 <= chapters[k] <= |bookChapters|
    ensures var v := Visible(chapters, bookChapters, minContentLength);
      columns == [Column(v, 0), Column(v, 1)] && displayToRealMap == DisplayMap(v) && realToDisplayMap == RealMap(v)
  {
    columns := [[], []];
    var visibleChapterCount := 0;
    displayToRealMap, realToDisplayMap := map[], map[];
    for index := 0 to |chapters|
      invariant Tracks(Visible(chapters[..index], bookChapters, minContentLength),
                       visibleChapterCount, displayToRealMap, realToDisplayMap, columns)
    {
      VisibleStep(chapters, bookChapters, minContentLength, index);
      ghost var v0 := Visible(chapters[..index], bookChapters, minContentLength);
      var num := chapters[index];
      var contentLength := bookChapters[num - 1].length;
      if contentLength >= minContentLength {
        TracksSnoc(v0, num, visibleChapterCount, displayToRealMap, realToDisplayMap, columns);
        visibleChapterCount := visibleChapterCount + 1;
        displayToRealMap := displayToRealMap[visibleChapterCount := num];
        realToDisplayMap := realToDisplayMap[num := visibleChapterCount];
        var columnIndex := (visibleChapterCount - 1) % Columns;
        columns := columns[columnIndex := columns[columnIndex] + [num]];
      }
    }
    assert chapters[..|chapters|] == chapters;
  }

  /** The loop's variables for the visible chapters `v`: their count, both
      maps and the two columns. */
  ghost predicate Tracks(v: seq<int>, count: int, displayToReal: map<int, int>, realToDisplay: map<int, int>, columns: seq<seq<int>>) {
    count == |v| && displayToReal == DisplayMap(v) && realToDisplay == RealMap(v)
    && |columns| == Columns && columns[0] == Column(v, 0) && columns[1] == Column(v, 1)
  }

  /** One more visible chapter, as the loop body records it. */
  lemma TracksSnoc(v: seq<int>, num: int, count: int, displayToReal: map<int, int>, realToDisplay: map<int, int>, columns: seq<seq<int>>)
    requires Tracks(v, count, displayToReal, realToDisplay, columns)
    ensures var c := count % Columns;
      Tracks(v + [num], count + 1, displayToReal[count + 1 := num], realToDisplay[num := count + 1],
             columns[c := columns[c] + [num]])
  {
    VisibleSnoc(v, num);
  }

  /** Math.max of two lengths. */
  function Max(a: nat, b: nat): nat {
    if a >= b then a else b
  }

  lemma VisibleStep(nums: seq<int>, book: seq<BookChapter>, minContentLength: int, i: nat)
    requires forall k :: 0 <= k < |nums| ==> 1 <= nums[k] <= |book|
    requires i < |nums|
    ensures book[nums[i] - 1].length < minContentLength ==>
      Visible(nums[..i + 1], book, minContentLength) == Visible(nums[..i], book, minContentLength)
    ensures book[nums[i] - 1].length >= minContentLength ==>
      Visible(nums[..i + 1], book, minContentLength) == Visible(nums[..i], book, minContentLength) + [nums[i]]
  {
    assert nums[..i + 1][..i] == nums[..i];
    var v0 := Visible(nums[..i], book, minContentLength);
    assert v0 + [] == v0;
  }

  /** One more visible chapter: the next display number, and the column
      its position selects. */
  lemma VisibleSnoc(v: seq<int>, num: int)
    ensures DisplayMap(v + [num]) == DisplayMap(v)[|v| + 1 := num]
    ensures RealMap(v + [num]) == RealMap(v)[num := |v| + 1]
    ensures Column(v + [num], 0) == Column(v, 0) + (if |v| % Columns == 0 then [num] else [])
    ensures Column(v + [num], 1) == Column(v, 1) + (if |v| % Columns == 1 then [num] else [])
  {
    MapsSnoc(v, num);
    ColumnSnoc(v, num, 0);
    ColumnSnoc(v, num, 1);
  }

  lemma MapsSnoc(v: seq<int>, num: int)
    ensures DisplayMap(v + [num]) == DisplayMap(v)[|v| + 1 := num]
    ensures RealMap(v + [num]) == RealMap(v)[num := |v| + 1]
  {
    var w := v + [num];
    assert w[..|w| - 1] == v;
    assert w[|w| - 1] == num && |w| == |v| + 1;
    assert DisplayMap(w) == DisplayMap(w[..|w| - 1])[|w| := w[|w| - 1]];
    assert RealMap(w) == RealMap(w[..|w| - 1])[w[|w| - 1] := |w|];
  }

  lemma ColumnSnoc(v: seq<int>, num: int, c: nat)
    ensures Column(v + [num], c) == Column(v, c) + (if |v| % Columns == c then [num] else [])
  {
    assert (v + [num])[..|v|] == v;
  }

  /** The first column takes the odd display numbers and the second the
      even ones, so the first is the longer and sets the row count. */
  lemma {:induction false} ColumnSizes(v: seq<int>)
    ensures |Column(v, 0)| == (|v| + 1) / 2 && |Column(v, 1)| == |v| / 2
    ensures forall k :: 0 <= k < |Column(v, 0)| ==> Column(v, 0)[k] == v[2 * k]
    ensures forall k :: 0 <= k < |Column(v, 1)| ==> Column(v, 1)[k] == v[2 * k + 1]
    decreases |v|
  {
    if |v| > 0 {
      var init := v[..|v| - 1];
      ColumnSizes(init);
      forall k | 0 <= k < |init| ensures init[k] == v[k] { }
    }
  }

  /** The display map is dense: exactly the keys 1..N, key d holding the
      d-th visible chapter. */
  lemma {:induction false} DisplayMapDense(v: seq<int>)
    ensures forall d :: d in DisplayMap(v) <==> 1 <= d <= |v|
    ensures forall d :: 1 <= d <= |v| ==> DisplayMap(v)[d] == v[d - 1]
    decreases |v|
  {
    if |v| > 0 {
      DisplayMapDense(v[..|v| - 1]);
    }
  }

  /** The real map holds the visible chapters and each one's display
      number points back at it, the last one when it repeats. */
  lemma {:induction false} RealMapInverse(v: seq<int>)
    ensures forall r :: r in RealMap(v) <==> r in v
    ensures forall r :: r in RealMap(v) ==> (1 <= RealMap(v)[r] <= |v| && v[RealMap(v)[r] - 1] == r
      && forall k :: RealMap(v)[r] <= k < |v| ==> v[k] != r)
    decreases |v|
  {
    if |v| > 0 {
      var init := v[..|v| - 1];
      RealMapInverse(init);
      assert v == init + [v[|v| - 1]];
    }
  }

  /** `realToDisplay(displayToReal(d)) = d` on 1..N when no chapter number
      repeats, and `displayToReal(realToDisplay(r)) = r` for every mapped r. */
  lemma MapsCompose(v: seq<int>)
    ensures forall r :: r in RealMap(v) ==> RealMap(v)[r] in DisplayMap(v) && DisplayMap(v)[RealMap(v)[r]] == r
    ensures (forall i, j :: 0 <= i < j < |v| ==> v[i] != v[j]) ==>
      forall d :: d in DisplayMap(v) ==> DisplayMap(v)[d] in RealMap(v) && RealMap(v)[DisplayMap(v)[d]] == d
  {
    DisplayMapDense(v);
    RealMapInverse(v);
  }

  /** A chapter number below the threshold is visible in neither map. */
  lemma {:induction false} ShortChapterHidden(nums: seq<int>, book: seq<BookChapter>, minContentLength: int, n: int)
    requires forall k :: 0 <= k < |nums| ==> 1 <= nums[k] <= |book|
    requires 1 <= n <= |book| && book[n - 1].length < minContentLength
    ensures n !in Visible(nums, book, minContentLength)
    decreases |nums|
  {
    if |nums| > 0 {
      ShortChapterHidden(nums[..|nums| - 1], book, minContentLength, n);
    }
  }

  /** Visible numbers keep the input order, so ascending input numbers give
      display numbers in the same order as chapter numbers. */
  lemma {:induction false} VisibleAscending(nums: seq<int>, book: seq<BookChapter>, minContentLength: int)
    requires forall k :: 0 <= k < |nums| ==> 1 <= nums[k] <= |book|
    requires forall i, j :: 0 <= i < j < |nums| ==> nums[i] < nums[j]
    ensures forall i, j :: 0 <= i < j < |Visible(nums, book, minContentLength)| ==>
      Visible(nums, book, minContentLength)[i] < Visible(nums, book, minContentLength)[j]
    ensures forall x :: x in Visible(nums, book, minContentLength) ==> x in nums
    decreases |nums|
  {
    if |nums| > 0 {
      var init := nums[..|nums| - 1];
      VisibleAscending(init, book, minContentLength);
      var v0 := Visible(init, book, minContentLength);
      var v := Visible(nums, book, minContentLength);
      assert v == v0 + (if book[nums[|nums| - 1] - 1].length >= minContentLength then [nums[|nums| - 1]] else []);
      forall x | x in v0 ensures x < nums[|nums| - 1] && x in nums {
        assert x in init;
        var k :| 0 <= k < |init| && init[k] == x;
        assert nums[k] == x;
      }
      forall i | 0 <= i < |v0| ensures v[i] == v0[i] && v0[i] < nums[|nums| - 1] {
        assert v0[i] in v0;
      }
    }
  }

  lemma DisplayMonotone(v: seq<int>, r1: int, r2: int)
    requires forall i, j :: 0 <= i < j < |v| ==> v[i] < v[j]
    requires r1 in RealMap(v) && r2 in RealMap(v) && r1 < r2
    ensures RealMap(v)[r1] < RealMap(v)[r2]
  {
    RealMapInverse(v);
  }

  /** The listing the server builds offers every valid chapter: with the
      same threshold, all valid numbers are visible, numbered 1..N in order. */
  lemma {:induction false} ServerNumbering(book: seq<BookChapter>)
    ensures var nums := ValidChapterNumbers(book, DefaultMinLength);
      (forall k :: 0 <= k < |nums| ==> 1 <= nums[k] <= |book|)
      && Visible(nums, book, DefaultMinLength) == nums
    decreases |book|
  {
    var nums := ValidChapterNumbers(book, DefaultMinLength);
    ValidChapterNumbersSpec(book, DefaultMinLength);
    forall k | 0 <= k < |nums| ensures 1 <= nums[k] <= |book| && book[nums[k] - 1].length >= DefaultMinLength {
      assert nums[k] in nums;
    }
    VisibleAll(nums, book, DefaultMinLength);
  }

  lemma {:induction false} VisibleAll(nums: seq<int>, book: seq<BookChapter>, minContentLength: int)
    requires forall k :: 0 <= k < |nums| ==> 1 <= nums[k] <= |book| && book[nums[k] - 1].length >= minContentLength
    ensures Visible(nums, book, minContentLength) == nums
    decreases |nums|
  {
    if |nums| > 0 {
      VisibleAll(nums[..|nums| - 1], book, minContentLength);
      assert nums[..|nums| - 1] + [nums[|nums| - 1]] == nums;
    }
  }

  // ---------------------------------------------------------------------
  // mapDisplayNumberToReal / mapRealNumberToDisplay

  /** `Map.prototype.get`: `None` (undefined) outside the map, never an error. */
  function Lookup(m: map<int, int>, k: int): (r: Option<int>)
    ensures r.Some? <==> k in m
    ensures r.Some? ==> r.value == m[k]
  {
    if k in m then Some(m[k]) else None
  }

  /** Display numbers outside 1..N map to nothing; inside, to the visible chapter. */
  lemma DisplayLookup(v: seq<int>, d: int)
    ensures Lookup(DisplayMap(v), d) == if 1 <= d <= |v| then Some(v[d - 1]) else None
  {
    DisplayMapDense(v);
  }
}
