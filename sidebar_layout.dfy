/** The right-hand sidebar of the chapter reader (renderRightTags in
    static/modules/ChapterReader.js): the cards listing the terms and the
    comments, ordered by their position in the text, and the `layout` pass
    that puts each card level with its anchor and then pushes cards down
    until they no longer overlap. Geometry is in integer pixels. */
module SidebarLayout {
  import opened Wrappers
  import opened JsString
  import opened Collections
  import opened Json
  import opened AnnotationRanges

  // ---------------------------------------------------------------------
  // The cards.

  /** A card as `layout` sees it: its `data-anchor`, its `style.top` read
      back by `parseInt(card.style.top) || 0`, and its height. */
  datatype Card = Card(anchor: string, top: int, height: int)

  function Max0(x: int): int { if x < 0 then 0 else x }

  /** `Math.max(0, Math.floor(ar.top - mainRect.top + side.scrollTop))` for
      a card whose anchor element was found; other cards keep their top.
      `anchors` maps the ids of the anchor elements to their tops. */
  function Aim(c: Card, anchors: map<string, int>, mainTop: int, scrollTop: int): Card {
    if c.anchor != "" && c.anchor in anchors then c.(top := Max0(anchors[c.anchor] - mainTop + scrollTop))
    else c
  }

  /** The first `cards.forEach` of `layout`, card by card. */
  function AimAll(cs: seq<Card>, anchors: map<string, int>, mainTop: int, scrollTop: int): (r: seq<Card>)
    ensures |r| == |cs|
    ensures forall i :: 0 <= i < |cs| ==> r[i] == Aim(cs[i], anchors, mainTop, scrollTop)
  {
    if |cs| == 0 then [] else [Aim(cs[0], anchors, mainTop, scrollTop)] + AimAll(cs[1..], anchors, mainTop, scrollTop)
  }

  method AimCards(cs: array<Card>, anchors: map<string, int>, mainTop: int, scrollTop: int)
    modifies cs
    ensures cs[..] == AimAll(old(cs[..]), anchors, mainTop, scrollTop)
  {
    for i := 0 to cs.Length
      invariant forall j :: 0 <= j < i ==> cs[j] == Aim(old(cs[j]), anchors, mainTop, scrollTop)
      invariant forall j :: i <= j < cs.Length ==> cs[j] == old(cs[j])
    {
      var c := cs[i];
      if c.anchor != "" && c.anchor in anchors {
        var top := anchors[c.anchor] - mainTop + scrollTop;
        cs[i] := c.(top := if 0 > top then 0 else top);
      }
    }
  }

  /** `(a, b) => top(a) - top(b)` as "a may stay before b". */
  predicate TopLe(a: Card, b: Card) { a.top <= b.top }

  /** `cards.sort(...)`: the array is reordered to the stable sort of its
      contents. */
  method SortCards(cs: array<Card>)
    modifies cs
    ensures cs[..] == SortBy(old(cs[..]), TopLe)
  {
    var sorted := SortBy(cs[..], TopLe);
    SortByPermutation(cs[..], TopLe);
    for i := 0 to cs.Length
      invariant forall j :: 0 <= j < i ==> cs[j] == sorted[j]
    {
      cs[i] := sorted[i];
    }
  }

  // ---------------------------------------------------------------------
  // The compaction pass.

  /** `lastBottom` (None is -Infinity) and the cards placed so far. */
  datatype Pass = Pass(done: seq<Card>, lastBottom: Option<int>)

  /** One card of the pass: moved to `lastBottom + 4` if it starts above. */
  function Place(c: Card, lastBottom: Option<int>): Card {
    if lastBottom.Some? && c.top < lastBottom.value + 4 then c.(top := lastBottom.value + 4) else c
  }

  function Next(p: Pass, c: Card): Pass {
    var placed := Place(c, p.lastBottom);
    Pass(p.done + [placed], Some(placed.top + placed.height))
  }

  /** The pass over `cs` in order; `lastBottom` is then the bottom of the
      last card placed. */
  function Compaction(cs: seq<Card>): (p: Pass)
    ensures |p.done| == |cs|
    ensures |cs| == 0 ==> p.lastBottom.None?
    ensures |cs| > 0 ==> p.lastBottom == Some(p.done[|cs| - 1].top + cs[|cs| - 1].height)
    decreases |cs|
  {
    if |cs| == 0 then Pass([], None)
    else
      var prev := Compaction(cs[..|cs| - 1]);
      var placed := Place(cs[|cs| - 1], prev.lastBottom);
      assert (prev.done + [placed])[|cs| - 1] == placed;
      Next(prev, cs[|cs| - 1])
  }

  lemma CompactionStep(cs: seq<Card>, i: nat)
    requires i < |cs|
    ensures Compaction(cs[..i + 1]) == Next(Compaction(cs[..i]), cs[i])
  {
    assert cs[..i + 1][..i] == cs[..i];
  }

  lemma PassStep(cs: seq<Card>, i: nat, done: seq<Card>, lastBottom: Option<int>)
    requires i < |cs| && Compaction(cs[..i]).done == done && Compaction(cs[..i]).lastBottom == lastBottom
    ensures Compaction(cs[..i + 1]).done == done + [Place(cs[i], lastBottom)]
    ensures Compaction(cs[..i + 1]).lastBottom == Some(Place(cs[i], lastBottom).top + cs[i].height)
  {
    CompactionStep(cs, i);
  }

  /** The second `cards.forEach` of `layout`. */
  method CompactCards(cs: array<Card>)
    modifies cs
    ensures cs[..] == Compaction(old(cs[..])).done
  {
    ghost var orig := cs[..];
    var lastBottom: Option<int> := None;
    for i := 0 to cs.Length
      invariant Compaction(orig[..i]).done == cs[..i]
      invariant Compaction(orig[..i]).lastBottom == lastBottom
      invariant forall j :: i <= j < cs.Length ==> cs[j] == orig[j]
    {
      PassStep(orig, i, cs[..i], lastBottom);
      ghost var placed := Place(orig[i], lastBottom);
      var t := cs[i].top;
      var h := cs[i].height;
      if lastBottom.Some? && t < lastBottom.value + 4 {
        cs[i] := cs[i].(top := lastBottom.value + 4);
      }
      lastBottom := Some(cs[i].top + h);
      assert cs[i] == placed;
      assert cs[..i + 1] == cs[..i] + [cs[i]];
    }
    assert orig[..cs.Length] == orig;
  }

  /** The `layout` closure: aim, sort by top, compact. */
  method Layout(cs: array<Card>, anchors: map<string, int>, mainTop: int, scrollTop: int)
    modifies cs
    ensures cs[..] == Compaction(SortBy(AimAll(old(cs[..]), anchors, mainTop, scrollTop), TopLe)).done
  {
    AimCards(cs, anchors, mainTop, scrollTop);
    SortCards(cs);
    CompactCards(cs);
  }

  // What the pass guarantees.

  lemma {:induction false} CompactionPrefix(cs: seq<Card>, m: nat)
    requires m <= |cs|
    ensures Compaction(cs[..m]).done == Compaction(cs).done[..m]
    decreases |cs| - m
  {
    if m < |cs| {
      CompactionPrefix(cs, m + 1);
      CompactionStep(cs, m);
      assert Compaction(cs[..m + 1]).done[..m] == Compaction(cs[..m]).done;
    } else {
      assert cs[..m] == cs;
    }
  }

  /** Card by card: the first keeps its top; every later one ends at the
      larger of its own top and 4 below the previous card's bottom. Only the
      top changes. */
  lemma {:induction false} CompactionAt(cs: seq<Card>, k: nat)
    requires k < |cs|
    ensures Compaction(cs).done[k] == cs[k].(top := Compaction(cs).done[k].top)
    ensures k == 0 ==> Compaction(cs).done[k].top == cs[k].top
    ensures k > 0 ==>
      var prev := Compaction(cs).done[k - 1];
      Compaction(cs).done[k].top == if cs[k].top < prev.top + prev.height + 4 then prev.top + prev.height + 4 else cs[k].top
  {
    var p := Compaction(cs[..k]);
    var r := Compaction(cs).done;
    CompactionStep(cs, k);
    CompactionPrefix(cs, k + 1);
    assert r[k] == Compaction(cs[..k + 1]).done[k] == (p.done + [Place(cs[k], p.lastBottom)])[k];
    if k > 0 {
      CompactionPrefix(cs, k);
      assert p.done[k - 1] == r[k - 1];
      assert cs[..k][k - 1] == cs[k - 1];
      CompactionAt(cs, k - 1);
    } else {
      assert p.lastBottom.None?;
    }
  }

  /** The gap: every card after the first starts at least 4 px below the
      previous card's bottom. */
  lemma CompactionGap(cs: seq<Card>, k: nat)
    requires 0 < k < |cs|
    ensures var r := Compaction(cs).done; r[k].top >= r[k - 1].top + r[k - 1].height + 4
  {
    CompactionAt(cs, k);
    CompactionAt(cs, k - 1);
  }

  /** A card only ever moves down, and a card already clear of the bound
      keeps its top. */
  lemma CompactionMovesDown(cs: seq<Card>, k: nat)
    requires k < |cs|
    ensures Compaction(cs).done[k].top >= cs[k].top
    ensures k > 0 ==>
      var prev := Compaction(cs).done[k - 1];
      (cs[k].top >= prev.top + prev.height + 4 <==> Compaction(cs).done[k].top == cs[k].top)
  {
    CompactionAt(cs, k);
    if k > 0 {
      CompactionAt(cs, k - 1);
    }
  }

  /** With non-negative heights the laid-out cards are strictly ordered by
      top, and the pass keeps the sorted order of the cards. */
  lemma CompactionOrdered(cs: seq<Card>, i: nat, j: nat)
    requires i < j < |cs|
    requires forall k :: 0 <= k < |cs| ==> cs[k].height >= 0
    ensures Compaction(cs).done[i].top < Compaction(cs).done[j].top
    decreases j - i
  {
    CompactionGap(cs, j);
    CompactionAt(cs, j - 1);
    if i < j - 1 {
      CompactionOrdered(cs, i, j - 1);
    }
  }

  /** The sort puts the aimed cards in ascending order of top and loses or
      adds none. */
  lemma SortedCards(cs: seq<Card>)
    ensures SortedBy(SortBy(cs, TopLe), TopLe)
    ensures multiset(SortBy(cs, TopLe)) == multiset(cs)
  {
    assert TotalPreorder(TopLe);
    SortBySorted(cs, TopLe);
  }

  // ---------------------------------------------------------------------
  // The cards' contents, in text order.

  /** An entry of `items`: its position in the text and its markup. */
  datatype Item = Item(order: int, html: string)

  /** The Russian names of the four term types. */
  function TypeName(key: string): Option<string> {
    if key == "def" then Some("Определение")
    else if key == "ex" then Some("История")
    else if key == "tip" then Some("Совет")
    else if key == "q" then Some("Сомнительное")
    else None
  }

  /** `ru[type] || type || 'Метка'` for the lower-cased type. */
  function ChipLabel(typ: Option<string>): (l: string)
  {
    var t := ToLower(if typ.Some? then typ.value else "");
    match TypeName(t)
    case Some(name) => name
    case None => if t != "" then t else "Метка"
  }

  function Chip(typ: Option<string>): string {
    var t := ToLower(if typ.Some? then typ.value else "");
    "<span class=\"tag-type-chip " + t + "\">" + ChipLabel(typ) + "</span>"
  }

  /** The card of a located range: ordered by its start `s`, anchored at the
      span id `tag_<rid>` that the overlay gives the range. */
  function TermCard(t: Term, escape: string -> string): Item
    requires t.Range?
  {
    Item(t.s, "<div class=\"tag-right-item\" data-anchor=\"tag_" + Dec(t.rid) + "\">" + Chip(t.typ)
              + "<span>" + escape(ToJsString(t.t)) + "</span></div>")
  }

  /** The card of a placed comment: ordered by `_pos`. */
  function CommentCard(c: Comment, escape: string -> string): Item {
    Item(c.pos, "<div class=\"tag-right-item quote\" data-anchor=\"" + c.anchorId + "\">"
                + escape(if c.t != "" then c.t else "Комментарий") + "</div>")
  }

  /** `terms.forEach(...)`: one card per term that is not an anchor-only entry. */
  function TermCards(ts: seq<Term>, escape: string -> string): seq<Item>
    decreases |ts|
  {
    if |ts| == 0 then []
    else
      var init := TermCards(ts[..|ts| - 1], escape);
      var t := ts[|ts| - 1];
      if t.AnchorTerm? then init else init + [TermCard(t, escape)]
  }

  /** `comments.forEach(...)`: one card per comment that found its anchor. */
  function CommentCards(cs: seq<Comment>, escape: string -> string): seq<Item>
    decreases |cs|
  {
    if |cs| == 0 then []
    else
      var init := CommentCards(cs[..|cs| - 1], escape);
      var c := cs[|cs| - 1];
      if c.anchorId == "" then init else init + [CommentCard(c, escape)]
  }

  /** The two loops filling `items`. */
  method CollectItems(terms: seq<Term>, comments: seq<Comment>, escape: string -> string) returns (items: seq<Item>)
    ensures items == TermCards(terms, escape) + CommentCards(comments, escape)
  {
    items := [];
    for i := 0 to |terms|
      invariant items == TermCards(terms[..i], escape)
    {
      assert terms[..i + 1][..i] == terms[..i];
      var t := terms[i];
      if !t.AnchorTerm? {
        items := items + [TermCard(t, escape)];
      }
    }
    assert terms[..|terms|] == terms;
    var termItems := items;
    for i := 0 to |comments|
      invariant items == termItems + CommentCards(comments[..i], escape)
    {
      assert comments[..i + 1][..i] == comments[..i];
      var c := comments[i];
      if c.anchorId != "" {
        items := items + [CommentCard(c, escape)];
      }
    }
    assert comments[..|comments|] == comments;
  }

  /** `(a, b) => a.order - b.order` as "a may stay before b". */
  predicate OrderLe(a: Item, b: Item) { a.order <= b.order }

  function Htmls(items: seq<Item>): seq<string>
    decreases |items|
  {
    if |items| == 0 then [] else [items[0].html] + Htmls(items[1..])
  }

  /** The sidebar's `innerHTML` after `renderRightTags`. */
  method RenderSidebar(terms: seq<Term>, comments: seq<Comment>, escape: string -> string) returns (html: string)
    ensures html == Join(Htmls(SortBy(TermCards(terms, escape) + CommentCards(comments, escape), OrderLe)), "")
  {
    if |terms| == 0 && |comments| == 0 {
      return "";
    }
    var items := CollectItems(terms, comments, escape);
    items := SortBy(items, OrderLe);
    html := Join(Htmls(items), "");
  }

  /** Exactly the terms that are not anchor-only entries get a card. */
  lemma {:induction false} TermCardsCount(ts: seq<Term>, escape: string -> string)
    ensures |TermCards(ts, escape)| == |ts| - CountAnchors(ts)
    decreases |ts|
  {
    if ts != [] {
      TermCardsCount(ts[..|ts| - 1], escape);
    }
  }

  /** The cards of the terms, in the terms' order. */
  lemma {:induction false} TermCardsAt(ts: seq<Term>, escape: string -> string, k: nat)
    requires k < |ts| && ts[k].Range?
    ensures TermCard(ts[k], escape) in TermCards(ts, escape)
    decreases |ts|
  {
    if k < |ts| - 1 {
      TermCardsAt(ts[..|ts| - 1], escape, k);
    }
  }

  /** The sidebar lists the cards in ascending text position, ties in the
      order they were collected (terms before comments), none lost. */
  lemma ItemsOrdered(items: seq<Item>, p: Item -> bool)
    requires forall a, b :: p(a) && p(b) ==> a.order == b.order
    ensures SortedBy(SortBy(items, OrderLe), OrderLe)
    ensures multiset(SortBy(items, OrderLe)) == multiset(items)
    ensures Filter(SortBy(items, OrderLe), p) == Filter(items, p)
  {
    assert TotalPreorder(OrderLe);
    SortBySorted(items, OrderLe);
    SortByStable(items, OrderLe, p);
  }
}
