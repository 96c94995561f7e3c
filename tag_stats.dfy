// The tag summary appended to a chapter's meta line (calculateTagStats).

module TagStats {
  import opened Wrappers
  import opened JsString
  import opened Json
  import opened AnnotationRanges

  /** The counter object's keys, in the order its entries are listed. */
  const Kinds: seq<string> := ["def", "ex", "tip", "q", "comment"]

  /** The Russian label of a counted kind. */
  function Label(k: string): (r: string)
    ensures k != [] ==> r != []
  {
    if k == "def" then "определения"
    else if k == "ex" then "истории"
    else if k == "tip" then "советы"
    else if k == "q" then "сомнительное"
    else if k == "comment" then "комментарии"
    else k
  }

  /** `(item.type || '').toLowerCase()`; an anchor-only entry has type `comment`. */
  function TypeKey(t: Term): string {
    match t
    case Range(_, _, _, _, _, _, _, typ) => if typ.Some? then ToLower(typ.value) else ""
    case AnchorTerm(_, _, _) => "comment"
  }

  /** How many terms have kind `k`. */
  function CountType(ts: seq<Term>, k: string): (n: nat)
    ensures n <= |ts|
    decreases |ts|
  {
    if |ts| == 0 then 0 else CountType(ts[..|ts| - 1], k) + (if TypeKey(ts[|ts| - 1]) == k then 1 else 0)
  }

  /** The counter after the term pass, with `comment` overwritten by the
      number of comments. */
  function ByType(tags: Tags): (r: seq<nat>)
    ensures |r| == |Kinds|
  {
    [CountType(tags.terms, "def"), CountType(tags.terms, "ex"), CountType(tags.terms, "tip"),
     CountType(tags.terms, "q"), |tags.comments|]
  }

  /** The `label: count` entries of the positive counts, in key order. */
  function Parts(ks: seq<string>, vs: seq<nat>): seq<string>
    requires |ks| == |vs|
    decreases |ks|
  {
    if |ks| == 0 then []
    else (if vs[0] > 0 then [Label(ks[0]) + ": " + Dec(vs[0])] else []) + Parts(ks[1..], vs[1..])
  }

  /** ` (label: n, ...)` for the non-zero kinds, or nothing when all are zero. */
  function Bracketed(tags: Tags): string {
    var parts := Join(Parts(Kinds, ByType(tags)), ", ");
    if parts == "" then "" else " (" + parts + ")"
  }

  /** The summary for a given total: empty when it is zero, otherwise the
      total followed by the bracketed entries. */
  /** The opening of a non-empty summary: `. Теги: ` and the total. */
  function Head(total: nat): string {
    ". Теги: " + Dec(total)
  }

  function Summary(total: nat, tags: Tags): (r: string)
    ensures |r| == 0 <==> total == 0
    ensures total > 0 ==> StartsWith(r, Head(total))
  {
    if total == 0 then ""
    else
      var head := Head(total);
      assert (head + Bracketed(tags))[..|head|] == head;
      head + Bracketed(tags)
  }

  /** A missing tag object reads as no terms and no comments. */
  function OrEmpty(tags: Option<Tags>): Tags {
    if tags.Some? then tags.value else Tags([], [])
  }

  // ---------------------------------------------------------------------
  // The total as written: every entry of the term list plus every comment.

  function TotalAsWritten(tags: Tags): nat {
    |tags.terms| + |tags.comments|
  }

  /** `calculateTagStats(tags)` as written: nothing without terms and
      comments, otherwise the summary opens with their combined number. */
  function TagStatsAsWritten(tags: Option<Tags>): (r: string)
    ensures |r| == 0 <==> tags.None? || (|tags.value.terms| == 0 && |tags.value.comments| == 0)
    ensures tags.Some? && |tags.value.terms| + |tags.value.comments| > 0 ==>
      StartsWith(r, Head(|tags.value.terms| + |tags.value.comments|))
  {
    Summary(TotalAsWritten(OrEmpty(tags)), OrEmpty(tags))
  }

  /** The term list handed over holds one anchor-only entry per resolved
      comment, so the written total counts each such comment twice. */
  lemma TotalAsWrittenCountsAnchors(top: Json, raw: string)
    ensures var tags := Tags(Number(Run(TypedRanges(top, ""), raw).res, 0) + Anchors(CommentsOf(top), raw),
                             Views(CommentsOf(top), raw));
      TotalAsWritten(tags) == Total(tags) + Issued(CommentsOf(top), raw)
  {
    var cs := CommentsOf(top);
    var located := Number(Run(TypedRanges(top, ""), raw).res, 0);
    NumberNoAnchors(Run(TypedRanges(top, ""), raw).res, 0);
    AnchorsAllAnchors(cs, raw);
    AnchorsCount(cs, raw);
    CountAnchorsConcat(located, Anchors(cs, raw));
  }

  /** One comment whose anchor resolves, so that the term list holds its
      anchor-only entry: the meta line reports two tags for it. */
  lemma AsWrittenDoubleCount(anchor: Term, c: Comment)
    requires anchor.AnchorTerm?
    ensures var tags := Tags([anchor], [c]);
      TagStatsAsWritten(Some(tags)) == Summary(2, tags) && TagStats(Some(tags)) == Summary(1, tags)
  {
    var tags := Tags([anchor], [c]);
    assert OrEmpty(Some(tags)) == tags;
    assert TotalAsWritten(tags) == 2;
    assert CountAnchors(tags.terms[..0]) == 0;
    assert CountAnchors(tags.terms) == 1;
    assert Total(tags) == 1;
  }

  // ---------------------------------------------------------------------
  // The total as intended: each tag once, anchor-only entries left out.

  function Total(tags: Tags): nat {
    |tags.terms| - CountAnchors(tags.terms) + |tags.comments|
  }

  /** `calculateTagStats(tags)`, counting every tag once: nothing without
      located terms and comments, otherwise the summary opens with the
      number of terms that are not anchor-only plus the number of comments. */
  function TagStats(tags: Option<Tags>): (r: string)
    ensures |r| == 0 <==> tags.None? || (CountAnchors(tags.value.terms) == |tags.value.terms| && |tags.value.comments| == 0)
    ensures tags.Some? && (CountAnchors(tags.value.terms) < |tags.value.terms| || |tags.value.comments| > 0) ==>
      StartsWith(r, Head(|tags.value.terms| - CountAnchors(tags.value.terms) + |tags.value.comments|))
  {
    Summary(Total(OrEmpty(tags)), OrEmpty(tags))
  }

  /** For the tags of a chapter, the total is the number of located ranges
      plus the number of comments. */
  lemma TotalCountsEachTagOnce(top: Json, raw: string)
    ensures var tags := Tags(Number(Run(TypedRanges(top, ""), raw).res, 0) + Anchors(CommentsOf(top), raw),
                             Views(CommentsOf(top), raw));
      Total(tags) == |Run(TypedRanges(top, ""), raw).res| + |CommentsOf(top)|
  {
    var cs := CommentsOf(top);
    var located := Number(Run(TypedRanges(top, ""), raw).res, 0);
    NumberNoAnchors(Run(TypedRanges(top, ""), raw).res, 0);
    AnchorsAllAnchors(cs, raw);
    CountAnchorsConcat(located, Anchors(cs, raw));
  }

  // ---------------------------------------------------------------------
  // Shape of the summary.

  /** No entry is empty, so the joined entries are empty only without entries. */
  lemma {:induction false} PartsNonEmpty(ks: seq<string>, vs: seq<nat>)
    requires |ks| == |vs| && forall i :: 0 <= i < |ks| ==> ks[i] != []
    ensures forall i :: 0 <= i < |Parts(ks, vs)| ==> Parts(ks, vs)[i] != []
    ensures Parts(ks, vs) == [] <==> forall i :: 0 <= i < |vs| ==> vs[i] == 0
    decreases |ks|
  {
    if |ks| > 0 {
      PartsNonEmpty(ks[1..], vs[1..]);
      if vs[0] == 0 {
        assert forall i :: 0 < i < |vs| ==> vs[i] == vs[1..][i - 1];
      }
    }
  }

  /** A positive count shows up as its labelled entry. */
  lemma {:induction false} PartsListsPositive(ks: seq<string>, vs: seq<nat>, i: nat)
    requires |ks| == |vs| && i < |vs| && vs[i] > 0
    ensures Label(ks[i]) + ": " + Dec(vs[i]) in Parts(ks, vs)
    decreases |ks|
  {
    if i > 0 {
      PartsListsPositive(ks[1..], vs[1..], i - 1);
    }
  }

  lemma JoinNonEmpty(xs: seq<string>, sep: string)
    requires xs != [] && xs[0] != []
    ensures Join(xs, sep) != ""
  {
    if |xs| > 1 {
      assert Join(xs, sep)[..|xs[0]|] == xs[0];
    }
  }

  /** The summary is empty exactly when there is nothing to count; otherwise
      it states the total and brackets the non-zero kinds, if any. */
  lemma TagStatsShape(tags: Option<Tags>)
    ensures TagStats(tags) == "" <==> Total(OrEmpty(tags)) == 0
    ensures Total(OrEmpty(tags)) > 0 ==>
      var counts := ByType(OrEmpty(tags));
      var rest := TagStats(tags)[|". Теги: " + Dec(Total(OrEmpty(tags)))|..];
      StartsWith(TagStats(tags), ". Теги: " + Dec(Total(OrEmpty(tags))))
      && (rest == "" <==> forall i :: 0 <= i < |counts| ==> counts[i] == 0)
  {
    var t := OrEmpty(tags);
    var total := Total(t);
    if total > 0 {
      var ps := Parts(Kinds, ByType(t));
      PartsNonEmpty(Kinds, ByType(t));
      if ps != [] {
        JoinNonEmpty(ps, ", ");
      }
      var head := ". Теги: " + Dec(total);
      var tail := Bracketed(t);
      assert TagStats(tags) == head + tail;
      assert (head + tail)[|head|..] == tail;
      assert StartsWith(head + tail, head) by {
        assert (head + tail)[..|head|] == head;
      }
    }
  }
}
