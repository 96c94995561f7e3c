/** The tag document a chapter's annotations come from: a parsed JSON value,
    its JavaScript truthiness and `String(...)` conversion, and the pre-order
    walk over its objects that both the range collector and the comment
    collector perform. */
module Json {
  import opened Wrappers
  import JsString

  /** A JSON value. An object is the list of its fields in `Object.keys`
      order; numbers are integers. */
  datatype Json =
    | JNull
    | JBool(b: bool)
    | JNum(n: int)
    | JStr(str: string)
    | JArr(items: seq<Json>)
    | JObj(fields: seq<(string, Json)>)

  type Fields = seq<(string, Json)>

  /** `!v` in JavaScript. */
  predicate Falsy(v: Json) {
    v == JNull || v == JBool(false) || v == JNum(0) || v == JStr("")
  }

  /** Property lookup `obj[k]`: the value of the field named `k`, or
      `undefined` (None). */
  function Get(fields: Fields, k: string): (r: Option<Json>)
    ensures r.None? <==> forall i :: 0 <= i < |fields| ==> fields[i].0 != k
    ensures r.Some? ==> exists i :: 0 <= i < |fields| && fields[i] == (k, r.value)
  {
    if fields == [] then None
    else if fields[0].0 == k then Some(fields[0].1)
    else
      var r := Get(fields[1..], k);
      assert r.Some? ==> exists i :: 0 <= i < |fields| && fields[i] == (k, r.value) by {
        if r.Some? {
          var i :| 0 <= i < |fields[1..]| && fields[1..][i] == (k, r.value);
          assert fields[i + 1] == (k, r.value);
        }
      }
      r
  }

  predicate Has(fields: Fields, k: string) {
    Get(fields, k).Some?
  }

  /** `String(v)`: arrays join their elements with `,` (null elements give
      the empty string), every plain object prints as `[object Object]`. */
  function ToJsString(v: Json): string {
    match v
    case JNull => "null"
    case JBool(b) => if b then "true" else "false"
    case JNum(n) => JsString.IntToString(n)
    case JStr(s) => s
    case JArr(items) => JoinItems(items, 0)
    case JObj(_) => "[object Object]"
  }

  function JoinItems(items: seq<Json>, i: nat): string
    requires i <= |items|
    decreases JArr(items), |items| - i
  {
    if i == |items| then ""
    else
      var piece := if items[i] == JNull then "" else ToJsString(items[i]);
      if i + 1 == |items| then piece else piece + "," + JoinItems(items, i + 1)
  }

  /** `String(x || '')` for a property that may be missing. */
  function TextOr(x: Option<Json>): (r: string)
    ensures x.None? || Falsy(x.value) ==> r == ""
    ensures x.Some? && x.value.JStr? ==> r == x.value.str
  {
    if x.None? || Falsy(x.value) then "" else ToJsString(x.value)
  }

  /** One object met by the walk, with the property key it was reached
      through (array elements inherit the key of their array; the root has
      the key the walk started with). */
  datatype Node = Node(key: string, fields: Fields)

  /** The objects of `v` in pre-order: an object comes before the objects
      nested in its properties, which are visited in key order; array
      elements in index order. */
  function Nodes(v: Json, key: string): seq<Node>
    decreases v, 1, 0
  {
    match v
    case JArr(items) => OfItems(items, 0, key)
    case JObj(fields) => [Node(key, fields)] + OfFields(fields, 0)
    case _ => []
  }

  function OfItems(items: seq<Json>, i: nat, key: string): seq<Node>
    requires i <= |items|
    decreases JArr(items), 0, |items| - i
  {
    if i == |items| then [] else Nodes(items[i], key) + OfItems(items, i + 1, key)
  }

  function OfFields(fields: Fields, i: nat): seq<Node>
    requires i <= |fields|
    decreases JObj(fields), 0, |fields| - i
  {
    if i == |fields| then [] else Nodes(fields[i].1, fields[i].0) + OfFields(fields, i + 1)
  }

  /** Independent description of the objects reachable from `v`. */
  ghost predicate Reached(v: Json, key: string, n: Node)
    decreases v
  {
    match v
    case JArr(items) => exists i :: 0 <= i < |items| && Reached(items[i], key, n)
    case JObj(fields) =>
      n == Node(key, fields) ||
      exists i :: 0 <= i < |fields| && Reached(fields[i].1, fields[i].0, n)
    case _ => false
  }

  /** The walk visits exactly the reachable objects, each with the key it
      hangs under. */
  lemma {:induction false} NodesReached(v: Json, key: string, n: Node)
    ensures n in Nodes(v, key) <==> Reached(v, key, n)
    decreases v, 1, 0
  {
    match v
    case JArr(items) => ItemsReached(items, 0, key, n);
    case JObj(fields) => FieldsReached(fields, 0, n);
    case _ =>
  }

  lemma {:induction false} ItemsReached(items: seq<Json>, i: nat, key: string, n: Node)
    requires i <= |items|
    ensures n in OfItems(items, i, key) <==> exists j :: i <= j < |items| && Reached(items[j], key, n)
    decreases JArr(items), 0, |items| - i
  {
    if i < |items| {
      NodesReached(items[i], key, n);
      ItemsReached(items, i + 1, key, n);
    }
  }

  lemma {:induction false} FieldsReached(fields: Fields, i: nat, n: Node)
    requires i <= |fields|
    ensures n in OfFields(fields, i) <==> exists j :: i <= j < |fields| && Reached(fields[j].1, fields[j].0, n)
    decreases JObj(fields), 0, |fields| - i
  {
    if i < |fields| {
      NodesReached(fields[i].1, fields[i].0, n);
      FieldsReached(fields, i + 1, n);
    }
  }

  /** `tagJson?.data || tagJson`: the document root the collectors start at. */
  function TagRoot(tagJson: Json): (r: Json)
    ensures tagJson.JObj? && Get(tagJson.fields, "data").Some? && !Falsy(Get(tagJson.fields, "data").value)
            ==> r == Get(tagJson.fields, "data").value
    ensures tagJson.JObj? && (Get(tagJson.fields, "data").None? || Falsy(Get(tagJson.fields, "data").value))
            ==> r == tagJson
    ensures !tagJson.JObj? ==> r == tagJson
  {
    match tagJson
    case JObj(fields) =>
      var d := Get(fields, "data");
      if d.Some? && !Falsy(d.value) then d.value else tagJson
    case _ => tagJson
  }
}
