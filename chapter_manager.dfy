/** The chapter list of a book: splitting it around the section groups, the
    set of selected chapters with its toggles, and the process button. */
module ChapterManager {
  import opened JsString

  /** A chapter as the book listing reports it; `group` is `""` for none. */
  datatype ListedChapter = ListedChapter(realNumber: int, displayNumber: int, name: string, processed: bool, group: string)

  // ---------------------------------------------------------------------
  // groupChapters

  /** `chapters.findIndex(ch => ch.group)`, -1 when no chapter has a group. */
  function FirstGroupIndex(cs: seq<ListedChapter>): (r: int)
    ensures -1 <= r < |cs|
    ensures r >= 0 ==> cs[r].group != "" && forall j :: 0 <= j < r ==> cs[j].group == ""
    ensures r == -1 ==> forall j :: 0 <= j < |cs| ==> cs[j].group == ""
    decreases |cs|
  {
    if |cs| == 0 then -1
    else if cs[0].group != "" then 0
    else
      var r := FirstGroupIndex(cs[1..]);
      if r == -1 then -1 else r + 1
  }

  /** The ungrouped chapters at positions below `first`, in order. */
  function UngroupedBelow(cs: seq<ListedChapter>, first: int): seq<ListedChapter>
    decreases |cs|
  {
    if |cs| == 0 then []
    else
      var c := cs[|cs| - 1];
      UngroupedBelow(cs[..|cs| - 1], first) + (if c.group == "" && |cs| - 1 < first then [c] else [])
  }

  /** The ungrouped chapters at positions from `first` on, in order. */
  function UngroupedFrom(cs: seq<ListedChapter>, first: int): seq<ListedChapter>
    decreases |cs|
  {
    if |cs| == 0 then []
    else
      var c := cs[|cs| - 1];
      UngroupedFrom(cs[..|cs| - 1], first) + (if c.group == "" && !(|cs| - 1 < first) then [c] else [])
  }

  /** The chapters of group `g`, in order. */
  function InGroup(cs: seq<ListedChapter>, g: string): seq<ListedChapter>
    decreases |cs|
  {
    if |cs| == 0 then []
    else InGroup(cs[..|cs| - 1], g) + (if cs[|cs| - 1].group == g then [cs[|cs| - 1]] else [])
  }

  /** The group names in order of first appearance: the keys of `grouped`. */
  function GroupKeys(cs: seq<ListedChapter>): seq<string>
    decreases |cs|
  {
    if |cs| == 0 then []
    else
      var g := cs[|cs| - 1].group;
      var keys := GroupKeys(cs[..|cs| - 1]);
      keys + (if g != "" && g !in keys then [g] else [])
  }

  /** The `grouped` object the loop builds. */
  function GroupMap(cs: seq<ListedChapter>): map<string, seq<ListedChapter>>
    decreases |cs|
  {
    if |cs| == 0 then map[]
    else
      var c := cs[|cs| - 1];
      var m := GroupMap(cs[..|cs| - 1]);
      if c.group != "" then m[c.group := (if c.group in m then m[c.group] else []) + [c]] else m
  }

  /** `groupChapters(chapters)`: the chapters before the first grouped one,
      each group's chapters (with the groups' key order), and the other
      ungrouped chapters. */
  method GroupChapters(chapters: seq<ListedChapter>)
    returns (chaptersBeforeGroups: seq<ListedChapter>, grouped: map<string, seq<ListedChapter>>,
             groupOrder: seq<string>, chaptersAfterGroups: seq<ListedChapter>)
    ensures chaptersBeforeGroups == UngroupedBelow(chapters, FirstGroupIndex(chapters))
    ensures chaptersAfterGroups == UngroupedFrom(chapters, FirstGroupIndex(chapters))
    ensures grouped == GroupMap(chapters) && groupOrder == GroupKeys(chapters)
  {
    var firstGroupIndex := FirstGroupIndex(chapters);
    chaptersBeforeGroups, grouped, groupOrder, chaptersAfterGroups := [], map[], [], [];
    for idx := 0 to |chapters|
      invariant chaptersBeforeGroups == UngroupedBelow(chapters[..idx], firstGroupIndex)
      invariant chaptersAfterGroups == UngroupedFrom(chapters[..idx], firstGroupIndex)
      invariant grouped == GroupMap(chapters[..idx]) && groupOrder == GroupKeys(chapters[..idx])
      invariant forall g :: g in grouped <==> g in groupOrder
    {
      assert chapters[..idx + 1][..idx] == chapters[..idx];
      var chapter := chapters[idx];
      if chapter.group != "" {
        if chapter.group !in grouped {
          grouped := grouped[chapter.group := []];
          groupOrder := groupOrder + [chapter.group];
        }
        grouped := grouped[chapter.group := grouped[chapter.group] + [chapter]];
      } else {
        if idx < firstGroupIndex {
          chaptersBeforeGroups := chaptersBeforeGroups + [chapter];
        } else {
          chaptersAfterGroups := chaptersAfterGroups + [chapter];
        }
      }
    }
    assert chapters[..|chapters|] == chapters;
  }

  /** The keys of `grouped` are the group names, each holding its chapters. */
  lemma {:induction false} GroupKeysMap(cs: seq<ListedChapter>)
    ensures forall g :: g in GroupMap(cs) <==> g in GroupKeys(cs)
    ensures forall g :: g in GroupMap(cs) ==> GroupMap(cs)[g] == InGroup(cs, g)
    ensures forall g :: g in GroupKeys(cs) <==> g != "" && exists j :: 0 <= j < |cs| && cs[j].group == g
    decreases |cs|
  {
    if |cs| > 0 {
      var init := cs[..|cs| - 1];
      GroupKeysMap(init);
      forall g ensures (g in GroupKeys(cs) <==> g != "" && exists j :: 0 <= j < |cs| && cs[j].group == g) {
        if g != "" && (exists j :: 0 <= j < |cs| && cs[j].group == g) {
          var j :| 0 <= j < |cs| && cs[j].group == g;
          if j < |init| {
            assert init[j].group == g;
          }
        }
        if g in GroupKeys(init) {
          var j :| 0 <= j < |init| && init[j].group == g;
          assert cs[j].group == g;
        }
      }
      forall g | g in GroupMap(cs) ensures GroupMap(cs)[g] == InGroup(cs, g) {
        if g !in GroupMap(init) {
          InGroupAbsent(init, g);
        }
      }
    }
  }

  /** A name no chapter carries has no chapters. */
  lemma {:induction false} InGroupAbsent(cs: seq<ListedChapter>, g: string)
    requires forall j :: 0 <= j < |cs| ==> cs[j].group != g
    ensures InGroup(cs, g) == []
    decreases |cs|
  {
    if |cs| > 0 {
      InGroupAbsent(cs[..|cs| - 1], g);
    }
  }

  /** What comes before the groups is exactly the chapters in front of the
      first grouped one; when no chapter has a group, everything comes after. */
  lemma PartitionAroundFirstGroup(cs: seq<ListedChapter>)
    ensures FirstGroupIndex(cs) >= 0 ==> UngroupedBelow(cs, FirstGroupIndex(cs)) == cs[..FirstGroupIndex(cs)]
    ensures FirstGroupIndex(cs) == -1 ==>
      UngroupedBelow(cs, -1) == [] && UngroupedFrom(cs, -1) == cs && GroupKeys(cs) == []
  {
    var f := FirstGroupIndex(cs);
    if f >= 0 {
      BelowIsPrefix(cs, f, |cs|);
      assert cs[..|cs|] == cs;
    } else {
      NoGroups(cs);
    }
  }

  lemma {:induction false} BelowIsPrefix(cs: seq<ListedChapter>, f: nat, n: nat)
    requires f < |cs| && n <= |cs|
    requires forall j :: 0 <= j < f ==> cs[j].group == ""
    ensures UngroupedBelow(cs[..n], f) == cs[..if n < f then n else f]
    decreases n
  {
    if n > 0 {
      BelowIsPrefix(cs, f, n - 1);
      assert cs[..n][..n - 1] == cs[..n - 1];
      if n <= f {
        assert cs[..n] == cs[..n - 1] + [cs[n - 1]];
      }
    }
  }

  lemma {:induction false} NoGroups(cs: seq<ListedChapter>)
    requires forall j :: 0 <= j < |cs| ==> cs[j].group == ""
    ensures UngroupedBelow(cs, -1) == [] && UngroupedFrom(cs, -1) == cs && GroupKeys(cs) == []
    decreases |cs|
  {
    if |cs| > 0 {
      var init := cs[..|cs| - 1];
      NoGroups(init);
      assert cs == init + [cs[|cs| - 1]];
    }
  }

  /** Total size of the lists of the given groups. */
  function GroupSizes(cs: seq<ListedChapter>, keys: seq<string>): nat
    decreases |keys|
  {
    if |keys| == 0 then 0 else GroupSizes(cs, keys[..|keys| - 1]) + |InGroup(cs, keys[|keys| - 1])|
  }

  /** One chapter more adds one to the lists of the group it carries. */
  lemma {:induction false} GroupSizesSnoc(cs: seq<ListedChapter>, c: ListedChapter, keys: seq<string>)
    requires forall i, j :: 0 <= i < j < |keys| ==> keys[i] != keys[j]
    ensures GroupSizes(cs + [c], keys) == GroupSizes(cs, keys) + (if c.group in keys then 1 else 0)
    decreases |keys|
  {
    assert (cs + [c])[..|cs|] == cs;
    if |keys| > 0 {
      var init := keys[..|keys| - 1];
      GroupSizesSnoc(cs, c, init);
      assert keys == init + [keys[|keys| - 1]];
    }
  }

  lemma {:induction false} GroupKeysDistinct(cs: seq<ListedChapter>)
    ensures forall i, j :: 0 <= i < j < |GroupKeys(cs)| ==> GroupKeys(cs)[i] != GroupKeys(cs)[j]
    ensures forall i :: 0 <= i < |GroupKeys(cs)| ==> GroupKeys(cs)[i] != ""
    decreases |cs|
  {
    if |cs| > 0 {
      GroupKeysDistinct(cs[..|cs| - 1]);
    }
  }

  /** One chapter more adds one to the group lists exactly when it has a group. */
  lemma GroupSizesStep(init: seq<ListedChapter>, c: ListedChapter)
    ensures GroupSizes(init + [c], GroupKeys(init + [c]))
         == GroupSizes(init, GroupKeys(init)) + (if c.group != "" then 1 else 0)
  {
    var cs := init + [c];
    var keys := GroupKeys(init);
    assert cs[..|cs| - 1] == init;
    GroupKeysDistinct(init);
    GroupSizesSnoc(init, c, keys);
    if c.group != "" && c.group !in keys {
      var g := c.group;
      GroupKeysMap(init);
      InGroupAbsent(init, g);
      assert GroupKeys(cs) == keys + [g];
      assert (keys + [g])[..|keys|] == keys;
      assert InGroup(cs, g) == [c];
      assert GroupSizes(cs, keys + [g]) == GroupSizes(cs, keys) + 1;
    } else {
      assert GroupKeys(cs) == keys;
      assert c.group in keys <==> c.group != "";
    }
  }

  /** Every chapter lands in exactly one list: the three parts together are
      as long as the input, and each part only takes its own chapters. */
  lemma {:induction false} PartitionSizes(cs: seq<ListedChapter>, first: int)
    ensures |UngroupedBelow(cs, first)| + |UngroupedFrom(cs, first)| + GroupSizes(cs, GroupKeys(cs)) == |cs|
    decreases |cs|
  {
    if |cs| > 0 {
      var init := cs[..|cs| - 1];
      PartitionSizes(init, first);
      assert cs == init + [cs[|cs| - 1]];
      GroupSizesStep(init, cs[|cs| - 1]);
    }
  }

  // ---------------------------------------------------------------------
  // The selection: a Set of chapter numbers in insertion order.

  /** `s.add(x)` for every x of `xs` in turn. */
  function AddAll(s: seq<int>, xs: seq<int>): seq<int>
    decreases |xs|
  {
    if |xs| == 0 then s
    else
      var t := AddAll(s, xs[..|xs| - 1]);
      if xs[|xs| - 1] in t then t else t + [xs[|xs| - 1]]
  }

  predicate Distinct(s: seq<int>) {
    forall i, j :: 0 <= i < j < |s| ==> s[i] != s[j]
  }

  /** Adding keeps the set duplicate-free and holds exactly the old and the
      added numbers. */
  lemma {:induction false} AddAllSpec(s: seq<int>, xs: seq<int>)
    requires Distinct(s)
    ensures Distinct(AddAll(s, xs))
    ensures forall x :: x in AddAll(s, xs) <==> x in s || x in xs
    decreases |xs|
  {
    if |xs| > 0 {
      var init := xs[..|xs| - 1];
      AddAllSpec(s, init);
      assert xs == init + [xs[|xs| - 1]];
    }
  }

  /** `s.delete(x)`. */
  function Remove(s: seq<int>, x: int): (r: seq<int>)
    decreases |s|
  {
    if |s| == 0 then []
    else (if s[0] == x then [] else [s[0]]) + Remove(s[1..], x)
  }

  lemma {:induction false} RemoveSpec(s: seq<int>, x: int)
    requires Distinct(s)
    ensures Distinct(Remove(s, x))
    ensures forall y :: y in Remove(s, x) <==> y in s && y != x
    decreases |s|
  {
    if |s| > 0 {
      RemoveSpec(s[1..], x);
      assert s == [s[0]] + s[1..];
      assert s[0] !in s[1..] by {
        forall j | 0 <= j < |s[1..]| ensures s[1..][j] != s[0] {
          assert s[1..][j] == s[j + 1];
        }
      }
    }
  }

  class Selection {
    /** `selectedChapters`, in insertion order. */
    var chapters: seq<int>

    ghost predicate Valid()
      reads this
    {
      Distinct(chapters)
    }

    constructor ()
      ensures Valid() && chapters == []
    {
      chapters := [];
    }

    /** `toggleChapter`: flips the membership of one chapter number. */
    method Toggle(chapterNum: int)
      requires Valid()
      modifies this
      ensures Valid()
      ensures chapters == if chapterNum in old(chapters) then Remove(old(chapters), chapterNum)
                          else old(chapters) + [chapterNum]
      ensures forall n :: n in chapters <==> (n in old(chapters) <==> n != chapterNum)
    {
      if chapterNum in chapters {
        RemoveSpec(chapters, chapterNum);
        chapters := Remove(chapters, chapterNum);
      } else {
        chapters := chapters + [chapterNum];
      }
    }

    /** `selectAllChapters`: clears the selection when its size equals the
        number of listed items, otherwise selects exactly the items. */
    method SelectAll(items: seq<int>)
      requires Valid()
      modifies this
      ensures Valid()
      ensures |old(chapters)| == |items| ==> chapters == []
      ensures |old(chapters)| != |items| ==> chapters == AddAll([], items)
      ensures |old(chapters)| != |items| ==> forall n :: n in chapters <==> n in items
    {
      var selectedCount := |chapters|;
      chapters := [];
      if selectedCount != |items| {
        AddAllSpec([], items);
        for i := 0 to |items|
          invariant chapters == AddAll([], items[..i])
        {
          assert items[..i + 1][..i] == items[..i];
          if items[i] !in chapters {
            chapters := chapters + [items[i]];
          }
        }
        assert items[..|items|] == items;
      }
    }

    /** `selectedChapters.add(chapterNum)`. */
    method Add(chapterNum: int)
      requires Valid()
      modifies this
      ensures Valid()
      ensures chapters == AddAll(old(chapters), [chapterNum])
    {
      if chapterNum !in chapters {
        chapters := chapters + [chapterNum];
      }
    }

    /** `deselectAllChapters`, also `selectedChapters.clear()`. */
    method DeselectAll()
      modifies this
      ensures Valid() && chapters == []
    {
      chapters := [];
    }

    /** `selectProcessedChapters`: when a processed item is selected the
        selection becomes the unprocessed items, otherwise the processed ones. */
    method SelectProcessed(processedItems: seq<int>, unprocessedItems: seq<int>)
      requires Valid()
      modifies this
      ensures Valid()
      ensures var anySelected := exists k :: 0 <= k < |processedItems| && processedItems[k] in old(chapters);
        chapters == AddAll([], if anySelected then unprocessedItems else processedItems)
      ensures (exists k :: 0 <= k < |processedItems| && processedItems[k] in old(chapters)) ==>
        forall n :: n in chapters <==> n in unprocessedItems
      ensures (forall k :: 0 <= k < |processedItems| ==> processedItems[k] !in old(chapters)) ==>
        forall n :: n in chapters <==> n in processedItems
    {
      var processedSelected := false;
      for k := 0 to |processedItems|
        invariant processedSelected <==> exists j :: 0 <= j < k && processedItems[j] in chapters
      {
        if processedItems[k] in chapters {
          processedSelected := true;
        }
      }
      var source := if processedSelected then unprocessedItems else processedItems;
      chapters := [];
      AddAllSpec([], source);
      for i := 0 to |source|
        invariant chapters == AddAll([], source[..i])
      {
        assert source[..i + 1][..i] == source[..i];
        if source[i] !in chapters {
          chapters := chapters + [source[i]];
        }
      }
      assert source[..|source|] == source;
    }
  }

  // ---------------------------------------------------------------------
  // updateProcessButton

  /** The noun after the count: `главу` for one, `главы` for two to four,
      `глав` otherwise. */
  function ChapterNoun(count: nat): string {
    if count == 1 then "главу" else if 2 <= count < 5 then "главы" else "глав"
  }

  /** The button's disabled flag and label for a selection of `count` chapters. */
  function ProcessButton(count: nat): (r: (bool, string))
    ensures r.0 <==> count == 0
    ensures r.1 == "Обработать " + Dec(count) + " " + ChapterNoun(count)
  {
    assert Dec(0) == "0" && Dec(1) == "1";
    var text := if count == 0 then "Обработать 0 глав"
                else if count == 1 then "Обработать 1 главу"
                else if count < 5 then "Обработать " + Dec(count) + " главы"
                else "Обработать " + Dec(count) + " глав";
    (count == 0, text)
  }
}
