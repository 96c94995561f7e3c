/** The export of Moon+ Reader highlights: colour codes, grouping notes by
    book, Markdown escaping, title matching by token overlap, and the note
    filter and ordering. */
module MoonReaderNotes {
  import opened Wrappers
  import opened JsString
  import opened Collections

  // ---------------------------------------------------------------------
  // intToHexColor / mapColor

  /** `n < 0 ? 0xFFFFFFFF + n + 1 : n`, then `& 0x00FFFFFF`: the bitwise and
      works on the 32-bit pattern, so the low 24 bits remain. */
  function Rgb(n: int): (rgb: nat)
    ensures rgb < 0x1000000
  {
    var u := if n < 0 then 0xFFFFFFFF + n + 1 else n;
    u % 0x1000000
  }

  /** Lifting a negative code by 2^32 keeps its low 24 bits. */
  lemma RgbLowBits(n: int)
    ensures Rgb(n) == n % 0x1000000
  {
    if n < 0 {
      assert 0xFFFFFFFF + n + 1 == n + 256 * 0x1000000;
    }
  }

  /** `intToHexColor(code)`; `None` for a missing or non-numeric code. */
  function IntToHexColor(code: Option<int>): Option<string> {
    match code
    case None => None
    case Some(n) => Some(ToLower("#" + PadStart(RadixString(Rgb(n), 16), 6, '0')))
  }

  predicate IsLowerHex(c: char) {
    ('0' <= c <= '9') || ('a' <= c <= 'f')
  }

  /** Number#toString(16) writes lower-case digits. */
  lemma {:induction false} RadixStringLower(n: nat)
    ensures forall i :: 0 <= i < |RadixString(n, 16)| ==> IsLowerHex(RadixString(n, 16)[i])
    decreases n
  {
    if n >= 16 {
      RadixStringLower(n / 16);
    }
  }

  /** Leading zeros do not change the value of a digit string. */
  lemma {:induction false} LeadingZeros(k: nat, s: string)
    requires AllDigits(s, 16)
    ensures AllDigits(Repeat('0', k) + s, 16)
    ensures DigitsValue(Repeat('0', k) + s, 16) == DigitsValue(s, 16)
    decreases |s|
  {
    var t := Repeat('0', k) + s;
    assert AllDigits(t, 16) by {
      forall i | 0 <= i < |t| ensures IsDigitIn(t[i], 16) {
        if i < k { assert t[i] == '0'; } else { assert t[i] == s[i - k]; }
      }
    }
    if |s| == 0 {
      assert t == Repeat('0', k);
      ZerosValue(k);
    } else {
      var init := s[..|s| - 1];
      LeadingZeros(k, init);
      assert t[..|t| - 1] == Repeat('0', k) + init;
      assert s[..|s| - 1] == init;
    }
  }

  lemma {:induction false} ZerosValue(k: nat)
    ensures AllDigits(Repeat('0', k), 16) && DigitsValue(Repeat('0', k), 16) == 0
    decreases k
  {
    if k > 0 {
      ZerosValue(k - 1);
      assert Repeat('0', k)[..k - 1] == Repeat('0', k - 1);
    }
  }

  /** The colour is `#` and six lower-case hexadecimal digits that denote the
      low 24 bits of the code. */
  lemma HexColorShape(n: int)
    ensures var r := IntToHexColor(Some(n)).value;
      |r| == 7 && r[0] == '#' && (forall i :: 1 <= i < 7 ==> IsLowerHex(r[i]))
      && AllDigits(r[1..], 16) && DigitsValue(r[1..], 16) == n % 0x1000000
  {
    var rgb := Rgb(n);
    RgbLowBits(n);
    var h := RadixString(rgb, 16);
    RadixStringValue(rgb, 16);
    assert Pow(16, 6) == 0x1000000;
    RadixStringLength(rgb, 16, 6);
    var p := PadStart(h, 6, '0');
    LeadingZeros(6 - |h|, h);
    var s := "#" + p;
    RadixStringLower(rgb);
    forall i | 1 <= i < 7 ensures IsLowerHex(s[i]) && LowerChar(s[i]) == s[i] {
      assert s[i] == p[i - 1];
      if i - 1 >= 6 - |h| {
        assert p[i - 1] == h[i - 1 - (6 - |h|)];
      }
    }
    var r := ToLower(s);
    assert r == s;
    assert r[1..] == p;
  }

  /** `mapColor(code)`: the six known codes by name, any other number by its
      colour. */
  function MapColor(code: Option<int>): Option<string> {
    match code
    case None => None
    case Some(n) =>
      if n == 0 then Some("yellow") else if n == 1 then Some("green") else if n == 2 then Some("blue")
      else if n == 3 then Some("pink") else if n == 4 then Some("underline") else if n == 5 then Some("strike")
      else IntToHexColor(code)
  }

  /** A known code gets a name, every other number a `#rrggbb` colour. */
  lemma MapColorCases(n: int)
    ensures MapColor(Some(n)).Some?
    ensures !(0 <= n <= 5) ==> MapColor(Some(n)) == IntToHexColor(Some(n)) && MapColor(Some(n)).value[0] == '#'
  {
    HexColorShape(n);
  }

  // ---------------------------------------------------------------------
  // groupBy

  /** The keys in order of first appearance. */
  function KeysOf<T>(arr: seq<T>, keyFn: T -> string): seq<string>
    decreases |arr|
  {
    if |arr| == 0 then []
    else
      var keys := KeysOf(arr[..|arr| - 1], keyFn);
      var k := keyFn(arr[|arr| - 1]);
      if k in keys then keys else keys + [k]
  }

  /** The items with key `k`, in input order. */
  function WithKey<T>(arr: seq<T>, keyFn: T -> string, k: string): seq<T>
    decreases |arr|
  {
    if |arr| == 0 then []
    else WithKey(arr[..|arr| - 1], keyFn, k) + (if keyFn(arr[|arr| - 1]) == k then [arr[|arr| - 1]] else [])
  }

  /** `groupBy(arr, keyFn)`: a map from each key to its items, with the
      Map's key order. */
  method GroupBy<T>(arr: seq<T>, keyFn: T -> string) returns (order: seq<string>, m: map<string, seq<T>>)
    ensures order == KeysOf(arr, keyFn)
    ensures forall k :: k in m <==> k in order
    ensures forall k :: k in m ==> m[k] == WithKey(arr, keyFn, k)
  {
    order, m := [], map[];
    for i := 0 to |arr|
      invariant order == KeysOf(arr[..i], keyFn)
      invariant forall k :: k in m <==> k in order
      invariant forall k :: k in m ==> m[k] == WithKey(arr[..i], keyFn, k)
    {
      var item := arr[i];
      var k := keyFn(item);
      var list := if k in m then m[k] else [];
      GroupStep(arr, keyFn, i, k, order, m);
      m := m[k := list + [item]];
      if k !in order {
        order := order + [k];
      }
    }
    assert arr[..|arr|] == arr;
  }

  lemma GroupStep<T>(arr: seq<T>, keyFn: T -> string, i: nat, k: string, order: seq<string>, m: map<string, seq<T>>)
    requires i < |arr| && k == keyFn(arr[i])
    requires order == KeysOf(arr[..i], keyFn)
    requires forall k' :: k' in m <==> k' in order
    requires forall k' :: k' in m ==> m[k'] == WithKey(arr[..i], keyFn, k')
    ensures KeysOf(arr[..i + 1], keyFn) == if k in order then order else order + [k]
    ensures forall k' :: k' != k ==> WithKey(arr[..i + 1], keyFn, k') == WithKey(arr[..i], keyFn, k')
    ensures WithKey(arr[..i + 1], keyFn, k) == (if k in m then m[k] else []) + [arr[i]]
  {
    assert arr[..i + 1][..i] == arr[..i];
    if k !in m {
      KeysOfIff(arr[..i], keyFn);
      WithKeyAbsent(arr[..i], keyFn, k);
    }
  }

  /** A key is listed exactly when some item has it. */
  lemma {:induction false} KeysOfIff<T>(arr: seq<T>, keyFn: T -> string)
    ensures forall k :: k in KeysOf(arr, keyFn) <==> exists j :: 0 <= j < |arr| && keyFn(arr[j]) == k
    decreases |arr|
  {
    if |arr| > 0 {
      var init := arr[..|arr| - 1];
      KeysOfIff(init, keyFn);
      forall k ensures k in KeysOf(arr, keyFn) <==> exists j :: 0 <= j < |arr| && keyFn(arr[j]) == k {
        if exists j :: 0 <= j < |arr| && keyFn(arr[j]) == k {
          var j :| 0 <= j < |arr| && keyFn(arr[j]) == k;
          if j < |init| { assert keyFn(init[j]) == k; }
        }
        if k in KeysOf(init, keyFn) {
          var j :| 0 <= j < |init| && keyFn(init[j]) == k;
          assert arr[j] == init[j];
        }
      }
    }
  }

  lemma {:induction false} WithKeyAbsent<T>(arr: seq<T>, keyFn: T -> string, k: string)
    requires forall j :: 0 <= j < |arr| ==> keyFn(arr[j]) != k
    ensures WithKey(arr, keyFn, k) == []
    decreases |arr|
  {
    if |arr| > 0 {
      WithKeyAbsent(arr[..|arr| - 1], keyFn, k);
    }
  }

  lemma {:induction false} KeysOfDistinct<T>(arr: seq<T>, keyFn: T -> string)
    ensures forall i, j :: 0 <= i < j < |KeysOf(arr, keyFn)| ==> KeysOf(arr, keyFn)[i] != KeysOf(arr, keyFn)[j]
    decreases |arr|
  {
    if |arr| > 0 {
      KeysOfDistinct(arr[..|arr| - 1], keyFn);
    }
  }

  /** The total size of the lists of the given keys. */
  function ListSizes<T>(arr: seq<T>, keyFn: T -> string, keys: seq<string>): nat
    decreases |keys|
  {
    if |keys| == 0 then 0 else ListSizes(arr, keyFn, keys[..|keys| - 1]) + |WithKey(arr, keyFn, keys[|keys| - 1])|
  }

  lemma {:induction false} ListSizesSnoc<T>(arr: seq<T>, x: T, keyFn: T -> string, keys: seq<string>)
    requires forall i, j :: 0 <= i < j < |keys| ==> keys[i] != keys[j]
    ensures ListSizes(arr + [x], keyFn, keys) == ListSizes(arr, keyFn, keys) + (if keyFn(x) in keys then 1 else 0)
    decreases |keys|
  {
    assert (arr + [x])[..|arr|] == arr;
    if |keys| > 0 {
      var init := keys[..|keys| - 1];
      ListSizesSnoc(arr, x, keyFn, init);
      assert keys == init + [keys[|keys| - 1]];
    }
  }

  /** The lists together hold every item exactly once. */
  lemma {:induction false} GroupsCoverItems<T>(arr: seq<T>, keyFn: T -> string)
    ensures ListSizes(arr, keyFn, KeysOf(arr, keyFn)) == |arr|
    decreases |arr|
  {
    if |arr| > 0 {
      var init := arr[..|arr| - 1];
      var x := arr[|arr| - 1];
      var keys := KeysOf(init, keyFn);
      GroupsCoverItems(init, keyFn);
      KeysOfDistinct(init, keyFn);
      assert arr == init + [x];
      ListSizesSnoc(init, x, keyFn, keys);
      if keyFn(x) !in keys {
        KeysOfIff(init, keyFn);
        WithKeyAbsent(init, keyFn, keyFn(x));
        assert KeysOf(arr, keyFn) == keys + [keyFn(x)];
        assert (keys + [keyFn(x)])[..|keys|] == keys;
        assert WithKey(arr, keyFn, keyFn(x)) == [x];
      }
    }
  }

  // ---------------------------------------------------------------------
  // escapeMd

  /** One `replace(/c/g, '\\c')` pass. */
  function EscapeChar(s: string, c: char): string
    decreases |s|
  {
    if |s| == 0 then "" else (if s[0] == c then ['\\', c] else [s[0]]) + EscapeChar(s[1..], c)
  }

  /** `escapeMd(s)`: `''` for a missing value, otherwise the four passes for
      `|`, `*`, `_` and the backtick. */
  function EscapeMd(s: Option<string>): string {
    match s
    case None => ""
    case Some(t) => EscapeChar(EscapeChar(EscapeChar(EscapeChar(t, '|'), '*'), '_'), '`')
  }

  /** A single pass that puts a backslash before every character of `cs`. */
  function EscapeAll(s: string, cs: set<char>): string
    decreases |s|
  {
    if |s| == 0 then "" else (if s[0] in cs then ['\\', s[0]] else [s[0]]) + EscapeAll(s[1..], cs)
  }

  lemma {:induction false} EscapeCharConcat(a: string, b: string, c: char)
    ensures EscapeChar(a + b, c) == EscapeChar(a, c) + EscapeChar(b, c)
    decreases |a|
  {
    if |a| > 0 {
      EscapeCharConcat(a[1..], b, c);
      assert (a + b)[1..] == a[1..] + b;
    } else {
      assert a + b == b;
    }
  }

  /** A later pass leaves the earlier backslashes alone, so the passes add up
      to one pass over the union of the characters. */
  lemma {:induction false} EscapeCharAfterAll(s: string, cs: set<char>, c: char)
    requires c != '\\' && c !in cs
    ensures EscapeChar(EscapeAll(s, cs), c) == EscapeAll(s, cs + {c})
    decreases |s|
  {
    if |s| > 0 {
      var head := if s[0] in cs then ['\\', s[0]] else [s[0]];
      EscapeCharAfterAll(s[1..], cs, c);
      EscapeCharConcat(head, EscapeAll(s[1..], cs), c);
      if s[0] in cs {
        assert EscapeChar(head, c) == ['\\', s[0]] by {
          assert head[1..] == [s[0]];
          assert EscapeChar([s[0]], c) == [s[0]] + EscapeChar([s[0]][1..], c);
        }
      } else {
        assert EscapeChar(head, c) == (if s[0] == c then ['\\', c] else [s[0]]) + EscapeChar(head[1..], c);
      }
    }
  }

  lemma {:induction false} EscapeAllNone(s: string)
    ensures EscapeAll(s, {}) == s
    decreases |s|
  {
    if |s| > 0 {
      EscapeAllNone(s[1..]);
      assert s == [s[0]] + s[1..];
    }
  }

  /** `escapeMd` puts a backslash before each `|`, `*`, `_` and backtick and
      changes nothing else. */
  lemma EscapeMdOnePass(t: string)
    ensures EscapeMd(Some(t)) == EscapeAll(t, {'|', '*', '_', '`'})
  {
    EscapeAllNone(t);
    EscapeCharAfterAll(t, {}, '|');
    assert {} + {'|'} == {'|'};
    EscapeCharAfterAll(t, {'|'}, '*');
    assert {'|'} + {'*'} == {'|', '*'};
    EscapeCharAfterAll(t, {'|', '*'}, '_');
    assert {'|', '*'} + {'_'} == {'|', '*', '_'};
    EscapeCharAfterAll(t, {'|', '*', '_'}, '`');
    assert {'|', '*', '_'} + {'`'} == {'|', '*', '_', '`'};
  }

  /** The escaped text grows by one backslash per escaped character. */
  lemma {:induction false} EscapeAllLength(s: string, cs: set<char>)
    ensures |EscapeAll(s, cs)| == |s| + CountWhere(s, c => c in cs)
    decreases |s|
  {
    if |s| > 0 {
      EscapeAllLength(s[1..], cs);
    }
  }

  // ---------------------------------------------------------------------
  // normalize / similarity

  predicate IsAlnum(c: char) {
    ('a' <= c <= 'z') || ('0' <= c <= '9')
  }

  /** Drops the leading characters outside `[a-z0-9]`. */
  function DropRun(s: string): (r: string)
    ensures |r| <= |s| && r == s[|s| - |r|..]
    ensures r == [] || IsAlnum(r[0])
    ensures forall i :: 0 <= i < |s| - |r| ==> !IsAlnum(s[i])
    decreases |s|
  {
    if |s| > 0 && !IsAlnum(s[0]) then DropRun(s[1..]) else s
  }

  /** `replace(/[^a-z0-9]+/g, ' ')`: every maximal run outside `[a-z0-9]`
      becomes one space. */
  function CollapseRuns(s: string): string
    decreases |s|
  {
    if |s| == 0 then ""
    else if IsAlnum(s[0]) then [s[0]] + CollapseRuns(s[1..])
    else [' '] + CollapseRuns(DropRun(s[1..]))
  }

  /** `normalize(str)`, a missing value read as `''`. */
  function Normalize(str: Option<string>): string {
    Trim(CollapseRuns(ToLower(if str.Some? then str.value else "")))
  }

  /** Letters, digits and spaces, with no two spaces in a row. */
  predicate Collapsed(s: string) {
    (forall i :: 0 <= i < |s| ==> IsAlnum(s[i]) || s[i] == ' ')
    && (forall i :: 0 <= i < |s| - 1 ==> s[i] != ' ' || s[i + 1] != ' ')
  }

  /** The runs collapse to letters, digits and single spaces. */
  lemma {:induction false} CollapseRunsShape(s: string)
    ensures Collapsed(CollapseRuns(s))
    decreases |s|
  {
    if |s| > 0 {
      if IsAlnum(s[0]) {
        CollapseRunsShape(s[1..]);
        var r := CollapseRuns(s[1..]);
        assert CollapseRuns(s) == [s[0]] + r;
      } else {
        var d := DropRun(s[1..]);
        CollapseRunsShape(d);
        var r := CollapseRuns(d);
        assert CollapseRuns(s) == [' '] + r;
        if |d| > 0 {
          assert r[0] == d[0];
        }
      }
    }
  }

  lemma CollapsedSlice(s: string, a: nat, b: nat)
    requires a <= b <= |s| && Collapsed(s)
    ensures Collapsed(s[a..b])
  {
    var t := s[a..b];
    forall i | 0 <= i < |t| ensures t[i] == s[a + i] {
    }
  }

  /** Collapsed, and no space at either end. */
  predicate NormalForm(r: string) {
    Collapsed(r) && (r == [] || (r[0] != ' ' && r[|r| - 1] != ' '))
  }

  /** Normalised text is letters, digits and single inner spaces, with no
      space at either end. */
  lemma NormalizeShape(str: Option<string>)
    ensures NormalForm(Normalize(str))
  {
    var lower := ToLower(if str.Some? then str.value else "");
    CollapseRunsShape(lower);
    TrimCollapsed(CollapseRuns(lower));
  }

  lemma TrimCollapsed(c: string)
    requires Collapsed(c)
    ensures NormalForm(Trim(c))
  {
    TrimSpec(c);
    var r := Trim(c);
    var a: nat :| TrimmedAt(c, r, a);
    CollapsedSlice(c, a, a + |r|);
  }

  /** The distinct elements in order of first appearance: a Set built by `add`. */
  function Distinct<T(==)>(xs: seq<T>): seq<T>
    decreases |xs|
  {
    if |xs| == 0 then []
    else
      var d := Distinct(xs[..|xs| - 1]);
      if xs[|xs| - 1] in d then d else d + [xs[|xs| - 1]]
  }

  lemma {:induction false} DistinctSpec<T>(xs: seq<T>)
    ensures forall i, j :: 0 <= i < j < |Distinct(xs)| ==> Distinct(xs)[i] != Distinct(xs)[j]
    ensures forall x :: x in Distinct(xs) <==> x in xs
    decreases |xs|
  {
    if |xs| > 0 {
      DistinctSpec(xs[..|xs| - 1]);
      assert xs == xs[..|xs| - 1] + [xs[|xs| - 1]];
    }
  }

  predicate NonEmpty(t: string) { |t| > 0 }

  /** `new Set(normalize(a).split(' ').filter(Boolean))`, as its elements in
      insertion order. */
  function Tokens(a: Option<string>): seq<string> {
    Distinct(Filter(Split(Normalize(a), ' '), NonEmpty))
  }

  function TokenSet(a: Option<string>): set<string> {
    ToSet(Tokens(a))
  }

  /** The elements of a sequence as a set. */
  function ToSet(xs: seq<string>): set<string>
    decreases |xs|
  {
    if |xs| == 0 then {} else ToSet(xs[..|xs| - 1]) + {xs[|xs| - 1]}
  }

  lemma {:induction false} ToSetMembers(xs: seq<string>)
    ensures forall x :: x in ToSet(xs) <==> x in xs
    decreases |xs|
  {
    if |xs| > 0 {
      ToSetMembers(xs[..|xs| - 1]);
      assert xs == xs[..|xs| - 1] + [xs[|xs| - 1]];
    }
  }

  /** The Jaccard index as a fraction: shared tokens over all tokens, and 0
      (written 0/1) when either side has none. */
  function Jaccard(A: set<string>, B: set<string>): (r: (nat, nat))
    ensures r.1 > 0 && r.0 <= r.1
  {
    if |A| == 0 || |B| == 0 then (0, 1)
    else
      assert A <= A + B;
      SubsetCard(A * B, A + B);
      (|A * B|, |A + B|)
  }

  lemma SubsetCard<T>(a: set<T>, b: set<T>)
    requires a <= b
    ensures |a| <= |b|
  {
    assert b == a + (b - a);
  }

  /** The index does not depend on the order of its arguments. */
  lemma JaccardSymmetric(A: set<string>, B: set<string>)
    ensures Jaccard(A, B) == Jaccard(B, A)
  {
    assert A * B == B * A && A + B == B + A;
  }

  /** `similarity(a, b)` as the fraction `inter / union`. */
  method Similarity(a: Option<string>, b: Option<string>) returns (inter: nat, union: nat)
    ensures (inter, union) == Jaccard(TokenSet(a), TokenSet(b))
  {
    var setA := TokenSet(a);
    var setB := TokenSet(b);
    if |setA| == 0 || |setB| == 0 {
      return 0, 1;
    }
    DistinctSpec(Filter(Split(Normalize(a), ' '), NonEmpty));
    inter := CountShared(Tokens(a), setB);
    union := |setA + setB|;
  }

  /** The loop `for (const t of A) if (B.has(t)) inter++` over distinct
      tokens counts the shared ones. */
  method CountShared(xs: seq<string>, B: set<string>) returns (inter: nat)
    requires forall i, j :: 0 <= i < j < |xs| ==> xs[i] != xs[j]
    ensures inter == |ToSet(xs) * B|
  {
    inter := 0;
    for k := 0 to |xs|
      invariant inter == |ToSet(xs[..k]) * B|
    {
      CountStep(xs, k, B);
      if xs[k] in B {
        inter := inter + 1;
      }
    }
    assert xs[..|xs|] == xs;
  }

  lemma CountStep(xs: seq<string>, k: nat, B: set<string>)
    requires k < |xs| && forall i, j :: 0 <= i < j < |xs| ==> xs[i] != xs[j]
    ensures |ToSet(xs[..k + 1]) * B| == |ToSet(xs[..k]) * B| + (if xs[k] in B then 1 else 0)
  {
    var s0 := ToSet(xs[..k]);
    assert xs[..k + 1][..k] == xs[..k];
    assert ToSet(xs[..k + 1]) == s0 + {xs[k]};
    ToSetMembers(xs[..k]);
    assert xs[k] !in s0;
    if xs[k] in B {
      assert ToSet(xs[..k + 1]) * B == s0 * B + {xs[k]};
    } else {
      assert ToSet(xs[..k + 1]) * B == s0 * B;
    }
  }

  /** The similarity lies between 0 and 1, is symmetric, and is 0 when
      either text has no token. */
  lemma SimilarityProperties(a: Option<string>, b: Option<string>)
    ensures Jaccard(TokenSet(a), TokenSet(b)).0 <= Jaccard(TokenSet(a), TokenSet(b)).1
    ensures Jaccard(TokenSet(a), TokenSet(b)) == Jaccard(TokenSet(b), TokenSet(a))
    ensures TokenSet(a) == {} ==> Jaccard(TokenSet(a), TokenSet(b)).0 == 0
  {
    JaccardSymmetric(TokenSet(a), TokenSet(b));
  }

  // ---------------------------------------------------------------------
  // The note filter and the order within a book

  /** A note as written to the JSON output: `time` is the date text and
      `timeMs` the stored time. A missing text is `""` and a missing number
      0, which is how the filter, the grouping keys and the order read them. */
  datatype Note = Note(book: string, filename: string, original: string, note: string,
                       time: string, timeMs: int, position: int)

  /** A note is kept when its quoted text or its own note is not blank. */
  predicate Kept(x: Note) {
    Trim(x.original) != "" || Trim(x.note) != ""
  }

  function FilterNotes(all: seq<Note>): seq<Note> {
    Filter(all, Kept)
  }

  /** `it.book || it.filename || 'Unknown'`. */
  function BookKey(x: Note): string {
    if x.book != "" then x.book else if x.filename != "" then x.filename else "Unknown"
  }

  /** The comparator `(timeMs) - (timeMs) || (position) - (position)` as "may
      stay before": earlier time first, then lower position. */
  predicate NoteLe(a: Note, b: Note) {
    a.timeMs < b.timeMs || (a.timeMs == b.timeMs && a.position <= b.position)
  }

  function SortNotes(items: seq<Note>): seq<Note> {
    SortBy(items, NoteLe)
  }

  lemma NoteLeTotal()
    ensures TotalPreorder(NoteLe)
  {
  }

  /** A book's notes come out ordered by time, then position, and they are
      the same notes. */
  lemma SortNotesSpec(items: seq<Note>)
    ensures forall i, j :: 0 <= i < j < |SortNotes(items)| ==>
      SortNotes(items)[i].timeMs < SortNotes(items)[j].timeMs
      || (SortNotes(items)[i].timeMs == SortNotes(items)[j].timeMs && SortNotes(items)[i].position <= SortNotes(items)[j].position)
    ensures multiset(SortNotes(items)) == multiset(items)
  {
    NoteLeTotal();
    SortBySorted(items, NoteLe);
  }

  /** Exactly the notes with some non-blank text pass the filter. */
  lemma FilterNotesSpec(all: seq<Note>)
    ensures forall x :: x in FilterNotes(all) <==> x in all && (Trim(x.original) != "" || Trim(x.note) != "")
  {
    FilterMembers(all, Kept);
  }
}
