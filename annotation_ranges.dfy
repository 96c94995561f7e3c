/** Turning a chapter's tag document into character ranges of the chapter's
    raw text (the reader's `processTags` and its helpers). */
module AnnotationRanges {
  import opened Wrappers
  import opened JsString
  import opened Json
  import Collections

  // ---------------------------------------------------------------------
  // assignTypes: every object owning both `s` and `e`, typed by its key.

  /** `keys.includes('s') && keys.includes('e')`. */
  predicate IsRange(n: Node) {
    Has(n.fields, "s") && Has(n.fields, "e")
  }

  /** The typed range objects of `v`, in walk order; the `_type` of each is
      the node's key. */
  function TypedRanges(v: Json, key: string): seq<Node>
    decreases v, 1, 0
  {
    match v
    case JArr(items) => TypedItems(items, 0, key)
    case JObj(fields) => (if IsRange(Node(key, fields)) then [Node(key, fields)] else []) + TypedFields(fields, 0)
    case _ => []
  }

  function TypedItems(items: seq<Json>, i: nat, key: string): seq<Node>
    requires i <= |items|
    decreases JArr(items), 0, |items| - i
  {
    if i == |items| then [] else TypedRanges(items[i], key) + TypedItems(items, i + 1, key)
  }

  function TypedFields(fields: Fields, i: nat): seq<Node>
    requires i <= |fields|
    decreases JObj(fields), 0, |fields| - i
  {
    if i == |fields| then [] else TypedRanges(fields[i].1, fields[i].0) + TypedFields(fields, i + 1)
  }

  /** The typed ranges are the walk's objects that own `s` and `e`. */
  lemma {:induction false} TypedRangesFilter(v: Json, key: string)
    ensures TypedRanges(v, key) == Collections.Filter(Nodes(v, key), IsRange)
    decreases v, 1, 0
  {
    match v
    case JArr(items) => TypedItemsFilter(items, 0, key);
    case JObj(fields) =>
      TypedFieldsFilter(fields, 0);
      Collections.FilterConcat([Node(key, fields)], OfFields(fields, 0), IsRange);
      assert [Node(key, fields)][1..] == [];
    case _ =>
  }

  lemma {:induction false} TypedItemsFilter(items: seq<Json>, i: nat, key: string)
    requires i <= |items|
    ensures TypedItems(items, i, key) == Collections.Filter(OfItems(items, i, key), IsRange)
    decreases JArr(items), 0, |items| - i
  {
    if i < |items| {
      TypedRangesFilter(items[i], key);
      TypedItemsFilter(items, i + 1, key);
      Collections.FilterConcat(Nodes(items[i], key), OfItems(items, i + 1, key), IsRange);
    }
  }

  lemma {:induction false} TypedFieldsFilter(fields: Fields, i: nat)
    requires i <= |fields|
    ensures TypedFields(fields, i) == Collections.Filter(OfFields(fields, i), IsRange)
    decreases JObj(fields), 0, |fields| - i
  {
    if i < |fields| {
      TypedRangesFilter(fields[i].1, fields[i].0);
      TypedFieldsFilter(fields, i + 1);
      Collections.FilterConcat(Nodes(fields[i].1, fields[i].0), OfFields(fields, i + 1), IsRange);
    }
  }

  /** A typed range is exactly a reachable object owning `s` and `e`, tagged
      with the key it was reached through. */
  lemma TypedRangesReached(v: Json, key: string, n: Node)
    ensures n in TypedRanges(v, key) <==> Reached(v, key, n) && IsRange(n)
  {
    TypedRangesFilter(v, key);
    NodesReached(v, key, n);
    Collections.FilterMembers(Nodes(v, key), IsRange);
  }

  /** A range object at the root comes first, typed with the empty key. */
  lemma RootRangeUntyped(fields: Fields)
    requires IsRange(Node("", fields))
    ensures TypedRanges(JObj(fields), "")[0] == Node("", fields)
  {
  }

  /** Elements of an array inherit the array's key. */
  lemma ArrayInheritsKey(items: seq<Json>, key: string, i: nat, n: Node)
    requires i < |items| && n in TypedRanges(items[i], key)
    ensures n in TypedRanges(JArr(items), key)
  {
    TypedRangesReached(items[i], key, n);
    TypedRangesReached(JArr(items), key, n);
  }

  /** The recursive walk of `assignTypes(node, parentKey, typed)`, which
      appends to the shared `typed` list. */
  method AssignTypes(node: Json, parentKey: string, typed: seq<Node>) returns (out: seq<Node>)
    ensures out == typed + TypedRanges(node, parentKey)
    decreases node, 1
  {
    match node {
      case JArr(items) =>
        out := AssignItems(items, parentKey, typed);
      case JObj(fields) =>
        var here := Node(parentKey, fields);
        out := typed;
        if IsRange(here) {
          out := out + [here];
        }
        ghost var own := if IsRange(here) then [here] else [];
        assert out == typed + own;
        out := AssignFields(fields, out);
        TypedObject(fields, parentKey, typed, own);
      case _ =>
        out := typed;
    }
  }

  lemma TypedObject(fields: Fields, key: string, typed: seq<Node>, own: seq<Node>)
    requires own == if IsRange(Node(key, fields)) then [Node(key, fields)] else []
    ensures typed + own + TypedFields(fields, 0) == typed + TypedRanges(JObj(fields), key)
  {
  }

  /** `for (const it of node) this.assignTypes(it, parentKey, typed)`. */
  method AssignItems(items: seq<Json>, parentKey: string, typed: seq<Node>) returns (out: seq<Node>)
    ensures out == typed + TypedItems(items, 0, parentKey)
    decreases JArr(items), 0
  {
    out := typed;
    var i := 0;
    while i < |items|
      invariant 0 <= i <= |items|
      invariant out + TypedItems(items, i, parentKey) == typed + TypedItems(items, 0, parentKey)
    {
      ghost var before := out;
      out := AssignTypes(items[i], parentKey, out);
      assert out + TypedItems(items, i + 1, parentKey) == before + TypedItems(items, i, parentKey);
      i := i + 1;
    }
  }

  /** `for (const k of keys) this.assignTypes(node[k], k, typed)`. */
  method AssignFields(fields: Fields, typed: seq<Node>) returns (out: seq<Node>)
    ensures out == typed + TypedFields(fields, 0)
    decreases JObj(fields), 0
  {
    out := typed;
    var i := 0;
    while i < |fields|
      invariant 0 <= i <= |fields|
      invariant out + TypedFields(fields, i) == typed + TypedFields(fields, 0)
    {
      ghost var before := out;
      out := AssignTypes(fields[i].1, fields[i].0, out);
      assert out + TypedFields(fields, i + 1) == before + TypedFields(fields, i);
      i := i + 1;
    }
  }

  // ---------------------------------------------------------------------
  // toRanges: literal snippets located in the raw chapter text.

  /** A range object whose snippets were found: `[s, e)` in the raw text,
      the snippets it was found by, and its text `t` (`it.t || ''`). */
  datatype Located = Located(src: Node, s: nat, e: nat, sText: string, eText: string, t: Json)

  function StartText(n: Node): string { TextOr(Get(n.fields, "s")) }
  function EndText(n: Node): string { TextOr(Get(n.fields, "e")) }

  function TermText(n: Node): Json {
    var t := Get(n.fields, "t");
    if t.None? || Falsy(t.value) then JStr("") else t.value
  }

  /** The snippet facts of a located range: the start snippet occurs at
      `s`, the end snippet ends at `e`, the start snippet ends before the end
      snippet begins, and `e <= |raw|`. */
  predicate Matches(raw: string, l: Located) {
    OccursAt(raw, l.sText, l.s)
    && l.e >= |l.eText| && OccursAt(raw, l.eText, l.e - |l.eText|)
    && l.s + |l.sText| <= l.e - |l.eText| && l.e <= |raw|
  }

  /** In terms of `String.prototype.slice`: `raw.slice(s, s+|sText|)` is the
      start snippet and `raw.slice(e-|eText|, e)` the end snippet. */
  lemma MatchesSlice(raw: string, l: Located)
    requires Matches(raw, l)
    ensures Slice(raw, l.s, l.s + |l.sText|) == l.sText
    ensures Slice(raw, l.e - |l.eText|, l.e) == l.eText
  {
  }

  /** The offsets one iteration of the `toRanges` loop finds: the start
      snippet is searched from the cursor and, failing that, from 0; the end
      snippet from just past the start match. The pair is the start offset
      and the offset just past the end snippet. */
  function Find(raw: string, sText: string, eText: string, lastIdx: nat): Option<(nat, nat)> {
    var fromCursor := IndexOf(raw, sText, lastIdx);
    var sIdx := if fromCursor.Some? then fromCursor else IndexOf(raw, sText, 0);
    if sIdx.None? then None
    else
      var ePos := IndexOf(raw, eText, sIdx.value + |sText|);
      if ePos.None? then None else Some((sIdx.value, ePos.value + |eText|))
  }

  /** Find, step by step as the loop computes it. */
  lemma FindSteps(raw: string, sText: string, eText: string, lastIdx: nat, sIdx: Option<nat>, ePos: Option<nat>)
    requires sIdx == if IndexOf(raw, sText, lastIdx).Some? then IndexOf(raw, sText, lastIdx) else IndexOf(raw, sText, 0)
    requires ePos == IndexOf(raw, eText, if sIdx.Some? then sIdx.value + |sText| else 0)
    ensures Find(raw, sText, eText, lastIdx) == if sIdx.Some? && ePos.Some? then Some((sIdx.value, ePos.value + |eText|)) else None
  {
  }

  /** What Find reports is a match of both snippets, in order. */
  lemma FindSound(raw: string, sText: string, eText: string, lastIdx: nat)
    ensures match Find(raw, sText, eText, lastIdx)
      case None => true
      case Some((s, e)) =>
        OccursAt(raw, sText, s) && s + |sText| <= e - |eText| && OccursAt(raw, eText, e - |eText|)
        && Contains(raw, sText) && Contains(raw, eText)
  {
    if Find(raw, sText, eText, lastIdx).Some? {
      ContainsIff(raw, sText);
      ContainsIff(raw, eText);
    }
  }

  /** One iteration of the `toRanges` loop on entry `n`. */
  function Locate(n: Node, raw: string, lastIdx: nat): Option<Located> {
    match Find(raw, StartText(n), EndText(n), lastIdx)
    case None => None
    case Some((s, e)) => Some(Located(n, s, e, StartText(n), EndText(n), TermText(n)))
  }

  /** A located entry keeps the entry, its snippets and its term, and
      matches the snippets in the text; an entry whose start or end snippet
      occurs nowhere is dropped. */
  lemma LocateSound(n: Node, raw: string, lastIdx: nat)
    ensures var r := Locate(n, raw, lastIdx);
      && (r.Some? ==> r.value.src == n && r.value.sText == StartText(n) && r.value.eText == EndText(n)
                      && r.value.t == TermText(n))
      && (r.Some? ==> Matches(raw, r.value))
      && (!Contains(raw, StartText(n)) || !Contains(raw, EndText(n)) ==> r.None?)
  {
    var sText, eText := StartText(n), EndText(n);
    FindSound(raw, sText, eText, lastIdx);
    match Find(raw, sText, eText, lastIdx)
    case None =>
      assert Locate(n, raw, lastIdx).None?;
    case Some((s, e)) =>
      var l := Located(n, s, e, sText, eText, TermText(n));
      assert Locate(n, raw, lastIdx) == Some(l);
      assert Matches(raw, l);
  }

  lemma LocateFind(n: Node, raw: string, lastIdx: nat, sText: string, eText: string)
    requires sText == StartText(n) && eText == EndText(n)
    ensures Locate(n, raw, lastIdx) ==
      match Find(raw, sText, eText, lastIdx)
      case None => None
      case Some((s, e)) => Some(Located(n, s, e, sText, eText, TermText(n)))
  {
  }

  /** The snippets are not found: the start snippet occurs nowhere, or the
      end snippet does not occur after the start match chosen by the cursor
      rule. */
  predicate NotFound(raw: string, sText: string, eText: string, lastIdx: nat) {
    IndexOf(raw, sText, 0).None?
    || (IndexOf(raw, sText, lastIdx).Some?
        && IndexOf(raw, eText, IndexOf(raw, sText, lastIdx).value + |sText|).None?)
    || (IndexOf(raw, sText, lastIdx).None?
        && IndexOf(raw, eText, IndexOf(raw, sText, 0).value + |sText|).None?)
  }

  /** The entry is dropped exactly when its snippets are not found. */
  lemma LocateDropped(n: Node, raw: string, lastIdx: nat)
    ensures Locate(n, raw, lastIdx).None? <==> NotFound(raw, StartText(n), EndText(n), lastIdx)
  {
    LocateNone(n, raw, lastIdx);
    FindNone(raw, StartText(n), EndText(n), lastIdx);
  }

  lemma LocateNone(n: Node, raw: string, lastIdx: nat)
    ensures Locate(n, raw, lastIdx).None? <==> Find(raw, StartText(n), EndText(n), lastIdx).None?
  {
  }

  lemma FindNone(raw: string, sText: string, eText: string, lastIdx: nat)
    ensures Find(raw, sText, eText, lastIdx).None? <==> NotFound(raw, sText, eText, lastIdx)
  {
    IndexOfFromZero(raw, sText, lastIdx);
  }

  /** A snippet found from some offset is found from 0 as well. */
  lemma IndexOfFromZero(s: string, pat: string, from: nat)
    ensures IndexOf(s, pat, from).Some? ==> IndexOf(s, pat, 0).Some?
  {
    if IndexOf(s, pat, from).Some? {
      var j := IndexOf(s, pat, from).value;
      assert OccursAt(s, pat, j);
      IndexOfFirst(s, pat, 0);
    }
  }

  /** The state of the `toRanges` loop: the kept entries so far and the
      cursor `lastIdx`. */
  datatype Scan = Scan(res: seq<Located>, lastIdx: nat)

  /** One pass of the `toRanges` loop body over entry `n`. */
  function Advance(prev: Scan, n: Node, raw: string): Scan {
    var here := Locate(n, raw, prev.lastIdx);
    if here.Some? then Scan(prev.res + [here.value], here.value.e) else prev
  }

  /** The `toRanges` loop run over `list`. */
  function Run(list: seq<Node>, raw: string): (r: Scan)
    ensures r.lastIdx <= |raw|
    ensures r.lastIdx == if |r.res| == 0 then 0 else r.res[|r.res| - 1].e
  {
    if |list| == 0 then Scan([], 0)
    else
      var prev := Run(list[..|list| - 1], raw);
      LocateBound(list[|list| - 1], raw, prev.lastIdx);
      Advance(prev, list[|list| - 1], raw)
  }

  lemma LocateBound(n: Node, raw: string, lastIdx: nat)
    ensures Locate(n, raw, lastIdx).Some? ==> Locate(n, raw, lastIdx).value.e <= |raw|
  {
    LocateSound(n, raw, lastIdx);
  }

  lemma RunStep(list: seq<Node>, raw: string, i: nat)
    requires i < |list|
    ensures Run(list[..i + 1], raw) == Advance(Run(list[..i], raw), list[i], raw)
  {
    assert list[..i + 1][..i] == list[..i];
  }

  /** The body of the `toRanges` loop for entry `it` and cursor `lastIdx`. */
  method LocateEntry(it: Node, raw: string, lastIdx: nat) returns (r: Option<Located>)
    ensures r == Locate(it, raw, lastIdx)
  {
    var sText := StartText(it);
    var eText := EndText(it);
    var sIdx := IndexOf(raw, sText, lastIdx);
    if sIdx.None? {
      sIdx := IndexOf(raw, sText, 0);
    }
    var ePos := IndexOf(raw, eText, if sIdx.Some? then sIdx.value + |sText| else 0);
    FindSteps(raw, sText, eText, lastIdx, sIdx, ePos);
    LocateFind(it, raw, lastIdx, sText, eText);
    if sIdx.Some? && ePos.Some? {
      var eIdx := ePos.value + |eText|;
      r := Some(Located(it, sIdx.value, eIdx, sText, eText, TermText(it)));
    } else {
      r := None;
    }
  }

  /** `toRanges`: locates each entry in turn, dropping those whose snippets
      are not found and moving the cursor past each kept one. */
  method ToRanges(list: seq<Node>, raw: string) returns (res: seq<Located>)
    ensures res == Run(list, raw).res
  {
    res := [];
    var lastIdx: nat := 0;
    var i := 0;
    while i < |list|
      invariant 0 <= i <= |list|
      invariant Run(list[..i], raw) == Scan(res, lastIdx)
    {
      RunStep(list, raw, i);
      var here := LocateEntry(list[i], raw, lastIdx);
      if here.Some? {
        res := res + [here.value];
        lastIdx := here.value.e;
      }
      i := i + 1;
    }
    assert list[..i] == list;
  }

  function Sources(ls: seq<Located>): (r: seq<Node>)
    ensures |r| == |ls|
  {
    if ls == [] then [] else Sources(ls[..|ls| - 1]) + [ls[|ls| - 1].src]
  }

  /** The located ranges come from the input in input order; entries whose
      snippets were not found are dropped. */
  lemma {:induction false} RunSubseq(list: seq<Node>, raw: string)
    ensures Collections.IsSubseq(Sources(Run(list, raw).res), list)
  {
    if list != [] {
      var init := list[..|list| - 1];
      RunSubseq(init, raw);
      var prev := Run(init, raw);
      var here := Locate(list[|list| - 1], raw, prev.lastIdx);
      if here.Some? {
        var r := prev.res + [here.value];
        assert r[..|r| - 1] == prev.res;
        assert Sources(r) == Sources(prev.res) + [here.value.src];
      } else if prev.res != [] {
        assert Collections.IsSubseq(Sources(prev.res), list) by {
          assert list[..|list| - 1] == init;
        }
      }
    }
  }

  /** Every located range matches its snippets in the raw text. */
  lemma {:induction false} RunSound(list: seq<Node>, raw: string, k: nat)
    requires k < |Run(list, raw).res|
    ensures Matches(raw, Run(list, raw).res[k])
  {
    var init := list[..|list| - 1];
    var prev := Run(init, raw);
    if k < |prev.res| {
      RunSound(init, raw, k);
    } else {
      LocateSound(list[|list| - 1], raw, prev.lastIdx);
    }
  }

  /** The cursor rule: each kept entry starts at or after the end of the
      previous kept entry, unless its start snippet does not occur at or
      after that end (the search then fell back to offset 0). */
  lemma {:induction false} RunCursor(list: seq<Node>, raw: string, k: nat)
    requires k + 1 < |Run(list, raw).res|
    ensures var r := Run(list, raw).res;
      r[k + 1].s >= r[k].e || IndexOf(raw, r[k + 1].sText, r[k].e).None?
  {
    var init := list[..|list| - 1];
    var prev := Run(init, raw);
    RunLast(list, raw);
    if k + 1 < |prev.res| {
      RunCursor(init, raw, k);
      AdvanceKeeps(prev, list[|list| - 1], raw, k);
    } else {
      AdvanceCursor(prev, list[|list| - 1], raw, k);
    }
  }

  /** The run over a non-empty list is the run over all but its last entry,
      advanced over that entry. */
  lemma RunLast(list: seq<Node>, raw: string)
    requires |list| > 0
    ensures Run(list, raw) == Advance(Run(list[..|list| - 1], raw), list[|list| - 1], raw)
  {
  }

  /** Advancing keeps the earlier entries where they are. */
  lemma AdvanceKeeps(prev: Scan, n: Node, raw: string, k: nat)
    requires k + 1 < |prev.res|
    ensures var r := Advance(prev, n, raw).res;
      k + 1 < |r| && r[k] == prev.res[k] && r[k + 1] == prev.res[k + 1]
  {
  }

  /** The entry an advance appends starts at or after the cursor, which is
      the end of the entry before it, unless its start snippet does not occur
      there. */
  lemma AdvanceCursor(prev: Scan, n: Node, raw: string, k: nat)
    requires prev.lastIdx <= |raw|
    requires prev.lastIdx == if |prev.res| == 0 then 0 else prev.res[|prev.res| - 1].e
    requires |prev.res| <= k + 1 < |Advance(prev, n, raw).res|
    ensures var r := Advance(prev, n, raw).res;
      r[k + 1].s >= r[k].e || IndexOf(raw, r[k + 1].sText, r[k].e).None?
  {
    var here := Locate(n, raw, prev.lastIdx);
    assert here.Some? && Advance(prev, n, raw).res == prev.res + [here.value];
    LocateCursor(n, raw, prev.lastIdx);
  }

  /** One step of the cursor rule. */
  lemma LocateCursor(n: Node, raw: string, lastIdx: nat)
    requires lastIdx <= |raw| && Locate(n, raw, lastIdx).Some?
    ensures Locate(n, raw, lastIdx).value.s >= lastIdx || IndexOf(raw, StartText(n), lastIdx).None?
  {
  }

  /** A start snippet found at or after the cursor is its first occurrence
      there, one found by the fallback is its first occurrence overall, and
      the end snippet is its first occurrence after the start match. */
  lemma LocateFirst(n: Node, raw: string, lastIdx: nat)
    requires Locate(n, raw, lastIdx).Some?
    ensures var l := Locate(n, raw, lastIdx).value;
      (IndexOf(raw, l.sText, lastIdx).Some? ==>
         l.s == IndexOf(raw, l.sText, lastIdx).value
         && forall j: nat :: Clamp(lastIdx, |raw|) <= j < l.s ==> !OccursAt(raw, l.sText, j))
      && (IndexOf(raw, l.sText, lastIdx).None? ==> forall j: nat :: j < l.s ==> !OccursAt(raw, l.sText, j))
      && forall j: nat :: l.s + |l.sText| <= j < l.e - |l.eText| ==> !OccursAt(raw, l.eText, j)
  {
    var l := Locate(n, raw, lastIdx).value;
    IndexOfFirst(raw, l.sText, lastIdx);
    IndexOfFirst(raw, l.sText, 0);
    IndexOfFirst(raw, l.eText, l.s + |l.sText|);
  }

  // ---------------------------------------------------------------------
  // collectAndProcessTerms: typed, located ranges numbered by position.

  /** An entry of the chapter's term list: a located range (with `_rid`
      and its `type`, `''` read as undefined) or the anchor-only entry of a
      resolved comment. */
  datatype Term =
    | Range(src: Node, s: nat, e: nat, sText: string, eText: string, t: Json, rid: nat, typ: Option<string>)
    | AnchorTerm(s: nat, e: nat, anchorId: string)

  function TypeOf(key: string): (r: Option<string>)
    ensures r.None? <==> key == ""
    ensures r.Some? ==> r.value == key
  {
    if key == "" then None else Some(key)
  }

  /** `terms.map((it, i) => ({...it, _rid: i, type: it._type || undefined}))`. */
  function Number(ls: seq<Located>, from: nat): (r: seq<Term>)
    ensures |r| == |ls|
    ensures forall k :: 0 <= k < |ls| ==>
      r[k] == Range(ls[k].src, ls[k].s, ls[k].e, ls[k].sText, ls[k].eText, ls[k].t, from + k, TypeOf(ls[k].src.key))
  {
    if ls == [] then []
    else
      var l := ls[0];
      [Range(l.src, l.s, l.e, l.sText, l.eText, l.t, from, TypeOf(l.src.key))] + Number(ls[1..], from + 1)
  }

  /** `collectAndProcessTerms(node, raw)`. */
  method CollectAndProcessTerms(node: Json, raw: string) returns (terms: seq<Term>)
    ensures terms == Number(Run(TypedRanges(node, ""), raw).res, 0)
  {
    var typed := AssignTypes(node, "", []);
    assert typed == TypedRanges(node, "");
    var located := ToRanges(typed, raw);
    terms := Number(located, 0);
  }

  // ---------------------------------------------------------------------
  // collectComments: `{a, t}` objects anchored at their first occurrence.

  predicate IsCommentNode(n: Node) {
    Has(n.fields, "a") && Has(n.fields, "t")
  }

  /** A collected comment `{ a: String(n.a||''), t: String(n.t||'') }`. */
  datatype RawComment = RawComment(a: string, t: string)

  function ToRawComment(n: Node): RawComment {
    RawComment(TextOr(Get(n.fields, "a")), TextOr(Get(n.fields, "t")))
  }

  /** `collectCommentNodes`: the comment objects of `v`, in walk order. */
  function CommentsOf(v: Json): seq<RawComment>
    decreases v, 1, 0
  {
    match v
    case JArr(items) => CommentItems(items, 0)
    case JObj(fields) =>
      (if IsCommentNode(Node("", fields)) then [ToRawComment(Node("", fields))] else []) + CommentFields(fields, 0)
    case _ => []
  }

  function CommentItems(items: seq<Json>, i: nat): seq<RawComment>
    requires i <= |items|
    decreases JArr(items), 0, |items| - i
  {
    if i == |items| then [] else CommentsOf(items[i]) + CommentItems(items, i + 1)
  }

  function CommentFields(fields: Fields, i: nat): seq<RawComment>
    requires i <= |fields|
    decreases JObj(fields), 0, |fields| - i
  {
    if i == |fields| then [] else CommentsOf(fields[i].1) + CommentFields(fields, i + 1)
  }

  function MapRaw(ns: seq<Node>): (r: seq<RawComment>)
    ensures |r| == |ns| && forall k :: 0 <= k < |ns| ==> r[k] == ToRawComment(ns[k])
  {
    if ns == [] then [] else [ToRawComment(ns[0])] + MapRaw(ns[1..])
  }

  lemma MapRawConcat(a: seq<Node>, b: seq<Node>)
    ensures MapRaw(a + b) == MapRaw(a) + MapRaw(b)
  {
  }

  /** The comments are the walk's objects owning `a` and `t` (whatever key
      they hang under), in walk order. */
  lemma {:induction false} CommentsOfFilter(v: Json, key: string)
    ensures CommentsOf(v) == MapRaw(Collections.Filter(Nodes(v, key), IsCommentNode))
    decreases v, 1, 0
  {
    match v
    case JArr(items) => CommentItemsFilter(items, 0, key);
    case JObj(fields) =>
      CommentFieldsFilter(fields, 0);
      Collections.FilterConcat([Node(key, fields)], OfFields(fields, 0), IsCommentNode);
      assert [Node(key, fields)][1..] == [];
      MapRawConcat(Collections.Filter([Node(key, fields)], IsCommentNode), Collections.Filter(OfFields(fields, 0), IsCommentNode));
    case _ =>
  }

  lemma {:induction false} CommentItemsFilter(items: seq<Json>, i: nat, key: string)
    requires i <= |items|
    ensures CommentItems(items, i) == MapRaw(Collections.Filter(OfItems(items, i, key), IsCommentNode))
    decreases JArr(items), 0, |items| - i
  {
    if i < |items| {
      CommentsOfFilter(items[i], key);
      CommentItemsFilter(items, i + 1, key);
      Collections.FilterConcat(Nodes(items[i], key), OfItems(items, i + 1, key), IsCommentNode);
      MapRawConcat(Collections.Filter(Nodes(items[i], key), IsCommentNode), Collections.Filter(OfItems(items, i + 1, key), IsCommentNode));
    }
  }

  lemma {:induction false} CommentFieldsFilter(fields: Fields, i: nat)
    requires i <= |fields|
    ensures CommentFields(fields, i) == MapRaw(Collections.Filter(OfFields(fields, i), IsCommentNode))
    decreases JObj(fields), 0, |fields| - i
  {
    if i < |fields| {
      CommentsOfFilter(fields[i].1, fields[i].0);
      CommentFieldsFilter(fields, i + 1);
      Collections.FilterConcat(Nodes(fields[i].1, fields[i].0), OfFields(fields, i + 1), IsCommentNode);
      MapRawConcat(Collections.Filter(Nodes(fields[i].1, fields[i].0), IsCommentNode), Collections.Filter(OfFields(fields, i + 1), IsCommentNode));
    }
  }

  /** A comment as shown in the sidebar: its text and anchor, the anchor id
      (`''` when unresolved) and the anchor's offset (`-1` when unresolved). */
  datatype Comment = Comment(t: string, a: string, anchorId: string, pos: int)

  /** The anchor's position: the first occurrence of the trimmed anchor, or
      -1 when it is empty or absent. */
  function AnchorPos(c: RawComment, raw: string): (p: int)
    ensures p == -1 || (0 <= p && OccursAt(raw, Trim(c.a), p) && Trim(c.a) != "")
  {
    var aText := Trim(c.a);
    if aText == "" then -1
    else
      var found := IndexOf(raw, aText, 0);
      if found.Some? then found.value else -1
  }

  /** A resolved anchor is placed at the first occurrence; an unresolved one
      is empty after trimming or occurs nowhere. */
  lemma AnchorPosFirst(c: RawComment, raw: string)
    ensures AnchorPos(c, raw) >= 0 ==> forall j: nat :: j < AnchorPos(c, raw) ==> !OccursAt(raw, Trim(c.a), j)
    ensures AnchorPos(c, raw) == -1 ==> Trim(c.a) == "" || !Contains(raw, Trim(c.a))
  {
    IndexOfFirst(raw, Trim(c.a), 0);
  }

  function AnchorId(k: nat): string { "tag_c_" + Dec(k) }

  /** The comment's view when `k` anchors have been issued before it. */
  function View(c: RawComment, raw: string, k: nat): Comment {
    var pos := AnchorPos(c, raw);
    if pos >= 0 then Comment(c.t, c.a, AnchorId(k), pos) else Comment(c.t, c.a, "", -1)
  }

  /** The number of comments among `cs` whose anchor resolves (`cIdx`). */
  function Issued(cs: seq<RawComment>, raw: string): nat {
    if cs == [] then 0
    else Issued(cs[..|cs| - 1], raw) + (if AnchorPos(cs[|cs| - 1], raw) >= 0 then 1 else 0)
  }

  /** The views `comments.map(...)` returns. */
  function Views(cs: seq<RawComment>, raw: string): (r: seq<Comment>)
    ensures |r| == |cs|
  {
    if cs == [] then []
    else
      var init := cs[..|cs| - 1];
      Views(init, raw) + [View(cs[|cs| - 1], raw, Issued(init, raw))]
  }

  /** The anchor-only term a comment pushes when `k` anchors were issued
      before it: one entry when its anchor resolves, none otherwise. */
  function AnchorOf(c: RawComment, raw: string, k: nat): seq<Term> {
    var pos := AnchorPos(c, raw);
    if pos >= 0 then [AnchorTerm(pos, pos + |Trim(c.a)|, AnchorId(k))] else []
  }

  /** The anchor-only terms pushed onto the caller's term list. */
  function Anchors(cs: seq<RawComment>, raw: string): seq<Term> {
    if cs == [] then []
    else
      var init := cs[..|cs| - 1];
      Anchors(init, raw) + AnchorOf(cs[|cs| - 1], raw, Issued(init, raw))
  }

  /** One comment more: Issued, Views and Anchors over `cs[..i + 1]`. */
  lemma CommentStep(cs: seq<RawComment>, raw: string, i: nat)
    requires i < |cs|
    ensures var k := Issued(cs[..i], raw);
      && Issued(cs[..i + 1], raw) == k + (if AnchorPos(cs[i], raw) >= 0 then 1 else 0)
      && Views(cs[..i + 1], raw) == Views(cs[..i], raw) + [View(cs[i], raw, k)]
      && Anchors(cs[..i + 1], raw) == Anchors(cs[..i], raw) + AnchorOf(cs[i], raw, k)
  {
    assert cs[..i + 1][..i] == cs[..i];
  }

  lemma ConcatAssoc<T>(a: seq<T>, b: seq<T>, c: seq<T>)
    ensures (a + b) + c == a + (b + c)
  {
  }

  /** The callback of `comments.map(...)` for comment `c`: `cIdx` anchors
      have been issued so far and `terms` is the caller's term list. */
  method MapComment(c: RawComment, raw: string, cIdx: nat, terms: seq<Term>) returns (view: Comment, cIdxOut: nat, termsOut: seq<Term>)
    ensures view == View(c, raw, cIdx)
    ensures cIdxOut == cIdx + (if AnchorPos(c, raw) >= 0 then 1 else 0)
    ensures termsOut == terms + AnchorOf(c, raw, cIdx)
  {
    var aText := Trim(c.a);
    var pos := -1;
    if aText != "" {
      var found := IndexOf(raw, aText, 0);
      if found.Some? {
        pos := found.value;
      }
    }
    assert pos == AnchorPos(c, raw);
    var anchorId := "";
    cIdxOut := cIdx;
    termsOut := terms;
    if pos >= 0 {
      anchorId := AnchorId(cIdxOut);
      cIdxOut := cIdxOut + 1;
      termsOut := termsOut + [AnchorTerm(pos, pos + |aText|, anchorId)];
    }
    view := Comment(c.t, c.a, anchorId, pos);
  }

  /** `collectComments(node, raw, terms)`: returns the comment views and the
      caller's `terms` list with one anchor-only entry appended per resolved
      comment. */
  method CollectComments(node: Json, raw: string, terms: seq<Term>) returns (comments: seq<Comment>, termsOut: seq<Term>)
    ensures comments == Views(CommentsOf(node), raw)
    ensures termsOut == terms + Anchors(CommentsOf(node), raw)
  {
    var cs := CommentsOf(node);
    comments := [];
    termsOut := terms;
    var cIdx: nat := 0;
    var i := 0;
    while i < |cs|
      invariant 0 <= i <= |cs|
      invariant cIdx == Issued(cs[..i], raw)
      invariant comments == Views(cs[..i], raw)
      invariant termsOut == terms + Anchors(cs[..i], raw)
    {
      CommentStep(cs, raw, i);
      ConcatAssoc(terms, Anchors(cs[..i], raw), AnchorOf(cs[i], raw, cIdx));
      var view;
      view, cIdx, termsOut := MapComment(cs[i], raw, cIdx, termsOut);
      comments := comments + [view];
      i := i + 1;
    }
    assert cs[..i] == cs;
  }

  /** The i-th view keeps the comment's text and anchor; it is resolved
      exactly when the anchor occurs, and then carries the next anchor id
      `tag_c_n`, n being the number of resolved comments before it, and
      the anchor's first offset; otherwise `''` and -1. */
  lemma {:induction false} ViewsAt(cs: seq<RawComment>, raw: string, i: nat)
    requires i < |cs|
    ensures var v := Views(cs, raw)[i];
      v.t == cs[i].t && v.a == cs[i].a && v.pos == AnchorPos(cs[i], raw)
      && (v.anchorId == "" <==> v.pos == -1)
      && (v.pos >= 0 ==> v.anchorId == AnchorId(Issued(cs[..i], raw)))
  {
    var init := cs[..|cs| - 1];
    if i < |init| {
      ViewsAt(init, raw, i);
      assert init[..i] == cs[..i];
    } else {
      assert cs[..i] == init;
    }
  }

  /** Exactly one anchor-only term per resolved comment. */
  lemma {:induction false} AnchorsCount(cs: seq<RawComment>, raw: string)
    ensures |Anchors(cs, raw)| == Issued(cs, raw)
  {
    if cs != [] {
      AnchorsCount(cs[..|cs| - 1], raw);
    }
  }

  /** The j-th anchor-only term belongs to the j-th resolved comment: it has
      id `tag_c_j` and spans `[pos, pos + |anchor|)`, pos being the first
      occurrence of that comment's trimmed anchor in the raw text. */
  lemma {:induction false} AnchorsAt(cs: seq<RawComment>, raw: string, j: nat)
    requires j < |Anchors(cs, raw)|
    ensures var a := Anchors(cs, raw)[j];
      a.AnchorTerm? && a.anchorId == AnchorId(j) && a.s < a.e <= |raw|
      && exists i :: 0 <= i < |cs| && AnchorPos(cs[i], raw) >= 0 && Issued(cs[..i], raw) == j
           && a.s == AnchorPos(cs[i], raw) && a.e == a.s + |Trim(cs[i].a)|
  {
    var init := cs[..|cs| - 1];
    AnchorsCount(init, raw);
    if j < |Anchors(init, raw)| {
      AnchorsAt(init, raw, j);
      var i :| 0 <= i < |init| && AnchorPos(init[i], raw) >= 0 && Issued(init[..i], raw) == j
           && Anchors(init, raw)[j].s == AnchorPos(init[i], raw)
           && Anchors(init, raw)[j].e == Anchors(init, raw)[j].s + |Trim(init[i].a)|;
      assert init[i] == cs[i] && init[..i] == cs[..i];
    } else {
      var i := |cs| - 1;
      assert cs[..i] == init;
    }
  }

  /** The number of anchor-only entries in a term list. */
  function CountAnchors(ts: seq<Term>): (n: nat)
    ensures n <= |ts|
    decreases |ts|
  {
    if |ts| == 0 then 0 else CountAnchors(ts[..|ts| - 1]) + (if ts[|ts| - 1].AnchorTerm? then 1 else 0)
  }

  lemma {:induction false} CountAnchorsConcat(a: seq<Term>, b: seq<Term>)
    ensures CountAnchors(a + b) == CountAnchors(a) + CountAnchors(b)
    decreases |b|
  {
    if |b| == 0 {
      assert a + b == a;
    } else {
      assert (a + b)[..|a + b| - 1] == a + b[..|b| - 1];
      CountAnchorsConcat(a, b[..|b| - 1]);
    }
  }

  /** Numbered ranges hold no anchor-only entry. */
  lemma {:induction false} NumberNoAnchors(ls: seq<Located>, from: nat)
    ensures CountAnchors(Number(ls, from)) == 0
    decreases |ls|
  {
    if ls != [] {
      var l := ls[0];
      NumberNoAnchors(ls[1..], from + 1);
      CountAnchorsConcat([Range(l.src, l.s, l.e, l.sText, l.eText, l.t, from, TypeOf(l.src.key))], Number(ls[1..], from + 1));
      assert [Range(l.src, l.s, l.e, l.sText, l.eText, l.t, from, TypeOf(l.src.key))][..0] == [];
    }
  }

  /** The entries a comment pass pushes are all anchor-only. */
  lemma {:induction false} AnchorsAllAnchors(cs: seq<RawComment>, raw: string)
    ensures CountAnchors(Anchors(cs, raw)) == |Anchors(cs, raw)|
    decreases |cs|
  {
    if cs != [] {
      var init := cs[..|cs| - 1];
      var last := AnchorOf(cs[|cs| - 1], raw, Issued(init, raw));
      AnchorsAllAnchors(init, raw);
      CountAnchorsConcat(Anchors(init, raw), last);
      if last != [] {
        assert last[..0] == [];
      }
    }
  }

  // ---------------------------------------------------------------------
  // processTags

  datatype Tags = Tags(terms: seq<Term>, comments: seq<Comment>)

  /** `processTags(tagJson, chapter)`: the located terms followed by the
      anchor-only terms of the resolved comments, and the comment views. */
  method ProcessTags(tagJson: Json, raw: string) returns (tags: Tags)
    ensures var top := TagRoot(tagJson);
      tags.terms == Number(Run(TypedRanges(top, ""), raw).res, 0) + Anchors(CommentsOf(top), raw)
      && tags.comments == Views(CommentsOf(top), raw)
  {
    var top := TagRoot(tagJson);
    var terms := CollectAndProcessTerms(top, raw);
    var comments, all := CollectComments(top, raw, terms);
    tags := Tags(all, comments);
  }
}
