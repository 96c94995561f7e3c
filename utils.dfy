/** General helpers of the page: escaping a literal for a regular
    expression, and writing a number with its digits in groups of three. */
module Utils {
  import opened JsString
  import opened Collections

  // ---------------------------------------------------------------------
  // escapeRegex

  /** The characters `.*+?^${}()|[]\` that have a meaning in a pattern. */
  predicate RegexSpecial(c: char) {
    c == '.' || c == '*' || c == '+' || c == '?' || c == '^' || c == '$' || c == '{' || c == '}'
    || c == '(' || c == ')' || c == '|' || c == '[' || c == ']' || c == '\\'
  }

  /** `escapeRegex(s)`: a backslash before every special character. */
  function EscapeRegex(s: string): string
    decreases |s|
  {
    if |s| == 0 then ""
    else (if RegexSpecial(s[0]) then ['\\', s[0]] else [s[0]]) + EscapeRegex(s[1..])
  }

  /** The escaped text grows by one character per special character. */
  lemma {:induction false} EscapeRegexLength(s: string)
    ensures |EscapeRegex(s)| == |s| + CountWhere(s, RegexSpecial)
    decreases |s|
  {
    if |s| > 0 {
      EscapeRegexLength(s[1..]);
    }
  }

  /** Drops the backslash in front of each escaped special character. */
  function Unescape(t: string): string
    decreases |t|
  {
    if |t| == 0 then ""
    else if |t| >= 2 && t[0] == '\\' && RegexSpecial(t[1]) then [t[1]] + Unescape(t[2..])
    else [t[0]] + Unescape(t[1..])
  }

  /** Removing the escapes gives the original text back. */
  lemma {:induction false} UnescapeEscape(s: string)
    ensures Unescape(EscapeRegex(s)) == s
    decreases |s|
  {
    if |s| > 0 {
      var rest := EscapeRegex(s[1..]);
      UnescapeEscape(s[1..]);
      if RegexSpecial(s[0]) {
        var t := ['\\', s[0]] + rest;
        assert t[2..] == rest;
      } else {
        var t := [s[0]] + rest;
        assert t[1..] == rest;
        assert t[0] != '\\';
      }
      assert s == [s[0]] + s[1..];
    }
  }

  // ---------------------------------------------------------------------
  // formatNumber

  /** The text the pattern `\B(?=(\d{3})+(?!\d))` turns the first `n` digits
      of an `L`-digit run into: a space goes before the digit at position i
      when 0 < i and the digits from i on are a positive multiple of three. */
  function Spaced(ds: string, L: int, n: nat): string
    requires n <= |ds|
  {
    if n == 0 then ""
    else Spaced(ds, L, n - 1) + (if 0 < n - 1 && (L - (n - 1)) % 3 == 0 then [' ', ds[n - 1]] else [ds[n - 1]])
  }

  /** The digits with the pattern's spaces put in. */
  function FormatDigits(ds: string): string {
    Spaced(ds, |ds|, |ds|)
  }

  /** `formatNumber(n)` for an integer: the sign comes first and takes no space. */
  function FormatNumber(i: int): string {
    if i < 0 then "-" + FormatDigits(Dec(-i)) else FormatDigits(Dec(i))
  }

  /** The digit groups, read from the right: three digits each, the first
      one taking what is left. */
  function Chunks(ds: string): (r: seq<string>)
    ensures |r| >= 1
    decreases |ds|
  {
    if |ds| <= 3 then [ds] else Chunks(ds[..|ds| - 3]) + [ds[|ds| - 3..]]
  }

  /** The first group has one to three digits, the others exactly three, and
      together they are the digits. */
  lemma {:induction false} ChunksShape(ds: string)
    requires |ds| > 0
    ensures 1 <= |Chunks(ds)[0]| <= 3
    ensures forall k :: 1 <= k < |Chunks(ds)| ==> |Chunks(ds)[k]| == 3
    ensures Flatten(Chunks(ds)) == ds
    decreases |ds|
  {
    if |ds| > 3 {
      var init := ds[..|ds| - 3];
      ChunksShape(init);
      FlattenSnoc(Chunks(init), ds[|ds| - 3..]);
      assert init + ds[|ds| - 3..] == ds;
    }
  }

  lemma {:induction false} FlattenSnoc<T>(xss: seq<seq<T>>, ys: seq<T>)
    ensures Flatten(xss + [ys]) == Flatten(xss) + ys
    decreases |xss|
  {
    if |xss| == 0 {
      assert Flatten([ys][1..]) == [];
    } else {
      FlattenSnoc(xss[1..], ys);
      assert (xss + [ys])[1..] == xss[1..] + [ys];
    }
  }

  lemma {:induction false} JoinSnoc(xs: seq<string>, y: string, sep: string)
    requires |xs| >= 1
    ensures Join(xs + [y], sep) == Join(xs, sep) + sep + y
    decreases |xs|
  {
    if |xs| > 1 {
      JoinSnoc(xs[1..], y, sep);
      assert (xs + [y])[1..] == xs[1..] + [y];
    }
  }

  /** Only the first `n` digits matter. */
  lemma {:induction false} SpacedPrefix(ds: string, L: int, n: nat, m: nat)
    requires n <= m <= |ds|
    ensures Spaced(ds, L, n) == Spaced(ds[..m], L, n)
    decreases n
  {
    if n > 0 {
      SpacedPrefix(ds, L, n - 1, m);
    }
  }

  /** Three digits fewer to the right do not move any earlier space. */
  lemma {:induction false} SpacedShift(ds: string, L: int, n: nat)
    requires n + 3 <= L && n <= |ds|
    ensures Spaced(ds, L, n) == Spaced(ds, L - 3, n)
    decreases n
  {
    if n > 0 {
      SpacedShift(ds, L, n - 1);
      assert (L - (n - 1)) % 3 == (L - 3 - (n - 1)) % 3;
    }
  }

  /** Up to three digits get no space. */
  lemma {:induction false} SpacedShort(ds: string, n: nat)
    requires n <= |ds| <= 3
    ensures Spaced(ds, |ds|, n) == ds[..n]
    decreases n
  {
    if n > 0 {
      SpacedShort(ds, n - 1);
      assert ds[..n] == ds[..n - 1] + [ds[n - 1]];
    }
  }

  /** The last three digits of a longer run follow a space. */
  lemma SpacedLastThree(ds: string)
    requires |ds| > 3
    ensures Spaced(ds, |ds|, |ds|) == Spaced(ds, |ds|, |ds| - 3) + " " + ds[|ds| - 3..]
  {
    var L := |ds|;
    var p := Spaced(ds, L, L - 3);
    assert (L - (L - 3)) % 3 == 0 && (L - (L - 2)) % 3 == 2 && (L - (L - 1)) % 3 == 1;
    assert Spaced(ds, L, L - 2) == p + [' ', ds[L - 3]];
    assert Spaced(ds, L, L - 1) == p + [' ', ds[L - 3]] + [ds[L - 2]];
    assert Spaced(ds, L, L) == p + [' ', ds[L - 3]] + [ds[L - 2]] + [ds[L - 1]];
    ThreeChars(ds[L - 3..], p);
  }

  lemma ThreeChars(t: string, p: string)
    requires |t| == 3
    ensures p + [' ', t[0]] + [t[1]] + [t[2]] == p + " " + t
  {
  }

  /** The pattern's spaces separate exactly the three-digit groups. */
  lemma {:induction false} FormatDigitsChunks(ds: string)
    ensures FormatDigits(ds) == Join(Chunks(ds), " ")
    decreases |ds|
  {
    var L := |ds|;
    if L <= 3 {
      SpacedShort(ds, L);
      assert ds[..L] == ds;
    } else {
      var init := ds[..L - 3];
      FormatDigitsChunks(init);
      calc {
        FormatDigits(ds);
        { SpacedLastThree(ds); }
        Spaced(ds, L, L - 3) + " " + ds[L - 3..];
        { SpacedShift(ds, L, L - 3); SpacedPrefix(ds, L - 3, L - 3, L - 3); }
        FormatDigits(init) + " " + ds[L - 3..];
        Join(Chunks(init), " ") + " " + ds[L - 3..];
        { JoinSnoc(Chunks(init), ds[L - 3..], " "); }
        Join(Chunks(ds), " ");
      }
    }
  }

  /** `s` without its spaces. */
  function RemoveSpaces(s: string): string
    decreases |s|
  {
    if |s| == 0 then "" else (if s[0] == ' ' then "" else [s[0]]) + RemoveSpaces(s[1..])
  }

  lemma {:induction false} RemoveSpacesConcat(a: string, b: string)
    ensures RemoveSpaces(a + b) == RemoveSpaces(a) + RemoveSpaces(b)
    decreases |a|
  {
    if |a| > 0 {
      RemoveSpacesConcat(a[1..], b);
      assert (a + b)[1..] == a[1..] + b;
    } else {
      assert a + b == b;
    }
  }

  lemma {:induction false} RemoveSpacesNone(s: string)
    requires ' ' !in s
    ensures RemoveSpaces(s) == s
    decreases |s|
  {
    if |s| > 0 {
      RemoveSpacesNone(s[1..]);
      assert s == [s[0]] + s[1..];
    }
  }

  lemma {:induction false} RemoveSpacesJoin(xs: seq<string>)
    requires |xs| >= 1 && forall k :: 0 <= k < |xs| ==> ' ' !in xs[k]
    ensures RemoveSpaces(Join(xs, " ")) == Flatten(xs)
    decreases |xs|
  {
    var a := xs[0];
    RemoveSpacesNone(a);
    if |xs| == 1 {
      assert Flatten(xs[1..]) == [];
      AppendNothing(a);
    } else {
      var j := Join(xs[1..], " ");
      RemoveSpacesJoin(xs[1..]);
      assert Join(xs, " ") == (a + " ") + j;
      RemoveSpacesConcat(a + " ", j);
      RemoveSpacesConcat(a, " ");
      assert RemoveSpaces(" ") == "";
      AppendNothing(a);
    }
  }

  lemma AppendNothing(a: string)
    ensures a + "" == a
  {
  }

  /** Every group is a piece of the digits, so it holds no space. */
  lemma {:induction false} ChunksNoSpace(ds: string)
    requires ' ' !in ds
    ensures forall k :: 0 <= k < |Chunks(ds)| ==> ' ' !in Chunks(ds)[k]
    decreases |ds|
  {
    if |ds| > 3 {
      var init := ds[..|ds| - 3];
      assert ' ' !in init by {
        forall j | 0 <= j < |init| ensures init[j] != ' ' { assert init[j] == ds[j]; }
      }
      var last := ds[|ds| - 3..];
      assert ' ' !in last by {
        forall j | 0 <= j < 3 ensures last[j] != ' ' { assert last[j] == ds[|ds| - 3 + j]; }
      }
      ChunksNoSpace(init);
    }
  }

  /** For a non-negative number: splitting at the spaces gives the groups
      (one to three digits first, then three each), and dropping the spaces
      gives `n.toString()`. */
  lemma FormatNumberGroups(n: nat)
    ensures Split(FormatNumber(n), ' ') == Chunks(Dec(n))
    ensures 1 <= |Chunks(Dec(n))[0]| <= 3 && forall k :: 1 <= k < |Chunks(Dec(n))| ==> |Chunks(Dec(n))[k]| == 3
    ensures RemoveSpaces(FormatNumber(n)) == Dec(n)
  {
    var ds := Dec(n);
    DecDigits(n);
    assert ' ' !in ds by {
      forall j | 0 <= j < |ds| ensures ds[j] != ' ' { assert IsAsciiDigit(ds[j]); }
    }
    FormatDigitsChunks(ds);
    ChunksNoSpace(ds);
    ChunksShape(ds);
    SplitJoin(Chunks(ds), ' ');
    RemoveSpacesJoin(Chunks(ds));
  }
}
