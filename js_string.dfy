/** The String built-ins of JavaScript that the application relies on, stated
    over `seq<char>`: indexOf, slice, trim, split/join, case mapping (ASCII),
    Number#toString and parseInt. */
module JsString {
  import opened Wrappers

  /** `position` clamped to [0, n], as String.prototype.indexOf clamps it. */
  function Clamp(position: int, n: nat): (r: nat)
    ensures r <= n
    ensures 0 <= position <= n ==> r == position
  {
    if position < 0 then 0 else if position > n then n else position
  }

  /** `pat` occurs in `s` starting at offset `i`. */
  predicate OccursAt(s: string, pat: string, i: nat) {
    i + |pat| <= |s| && s[i..i + |pat|] == pat
  }

  /** String.prototype.indexOf(pat, from): the first occurrence of `pat` at or
      after the clamped `from`; None stands for -1. */
  function IndexOf(s: string, pat: string, from: int): (r: Option<nat>)
    ensures r.Some? ==> Clamp(from, |s|) <= r.value && OccursAt(s, pat, r.value)
  {
    SearchFound(s, pat, Clamp(from, |s|));
    Search(s, pat, Clamp(from, |s|))
  }

  /** The scan behind indexOf, from offset `k` on. */
  function Search(s: string, pat: string, k: nat): Option<nat>
    decreases |s| - k
  {
    if k + |pat| > |s| then None
    else if s[k..k + |pat|] == pat then Some(k)
    else Search(s, pat, k + 1)
  }

  lemma {:induction false} SearchFound(s: string, pat: string, k: nat)
    ensures var r := Search(s, pat, k); r.Some? ==> k <= r.value && OccursAt(s, pat, r.value)
    decreases |s| - k
  {
    if k + |pat| <= |s| && s[k..k + |pat|] != pat {
      SearchFound(s, pat, k + 1);
    }
  }

  lemma {:induction false} SearchFirst(s: string, pat: string, k: nat)
    ensures forall j: nat :: k <= j && (Search(s, pat, k).None? || j < Search(s, pat, k).value)
              ==> !OccursAt(s, pat, j)
    decreases |s| - k
  {
    if k + |pat| <= |s| && s[k..k + |pat|] != pat {
      SearchFirst(s, pat, k + 1);
    }
  }

  /** The occurrence indexOf reports is the first one at or after the
      clamped `from`, and -1 means there is none. */
  lemma IndexOfFirst(s: string, pat: string, from: int)
    ensures forall j: nat :: Clamp(from, |s|) <= j && (IndexOf(s, pat, from).None? || j < IndexOf(s, pat, from).value)
              ==> !OccursAt(s, pat, j)
  {
    SearchFirst(s, pat, Clamp(from, |s|));
  }

  /** The converse: a first occurrence at or after the clamped `from` is what
      indexOf reports. */
  lemma IndexOfAt(s: string, pat: string, from: int, i: nat)
    requires Clamp(from, |s|) <= i && OccursAt(s, pat, i)
    requires forall j: nat :: Clamp(from, |s|) <= j < i ==> !OccursAt(s, pat, j)
    ensures IndexOf(s, pat, from) == Some(i)
  {
    IndexOfFirst(s, pat, from);
  }

  /** String.prototype.includes(pat). */
  predicate Contains(s: string, pat: string) {
    IndexOf(s, pat, 0).Some?
  }

  lemma ContainsIff(s: string, pat: string)
    ensures Contains(s, pat) <==> exists i: nat :: OccursAt(s, pat, i)
  {
    IndexOfFirst(s, pat, 0);
    if exists i: nat :: OccursAt(s, pat, i) {
      var i: nat :| OccursAt(s, pat, i);
      assert Clamp(0, |s|) <= i;
    }
  }

  /** A one-character pattern occurs exactly where that character is. */
  lemma OccursAtChar(s: string, c: char, i: nat)
    ensures OccursAt(s, [c], i) <==> i < |s| && s[i] == c
  {
    if i < |s| {
      assert s[i..i + 1] == [s[i]];
    }
  }

  /** String.prototype.startsWith(p). */
  predicate StartsWith(s: string, p: string) {
    |p| <= |s| && s[..|p|] == p
  }

  /** String.prototype.slice(start, end) for non-negative arguments. */
  function Slice(s: string, start: nat, end: nat): (r: string)
    ensures |r| <= |s|
    ensures start <= end <= |s| ==> r == s[start..end]
  {
    var a := if start < |s| then start else |s|;
    var b := if end < |s| then end else |s|;
    if a < b then s[a..b] else []
  }

  /** `k` copies of `c`. */
  function Repeat(c: char, k: nat): (r: string)
    ensures |r| == k && forall i :: 0 <= i < k ==> r[i] == c
  {
    seq(k, i => c)
  }

  /** String.prototype.padStart(width, fill) with a one-character fill. */
  function PadStart(s: string, width: nat, fill: char): (r: string)
    ensures |r| == if |s| >= width then |s| else width
    ensures r == Repeat(fill, |r| - |s|) + s
  {
    if |s| >= width then s else Repeat(fill, width - |s|) + s
  }

  /** The characters String.prototype.trim removes: WhiteSpace and
      LineTerminator of ECMA-262 section 12.2/12.3 (also what `\s` matches). */
  predicate IsWhite(c: char) {
    c == '\t' || c == '\n' || c == '\U{000B}' || c == '\U{000C}' || c == '\r' || c == ' '
    || c == '\U{00A0}' || c == '\U{1680}' || ('\U{2000}' <= c <= '\U{200A}')
    || c == '\U{2028}' || c == '\U{2029}' || c == '\U{202F}' || c == '\U{205F}'
    || c == '\U{3000}' || c == '\U{FEFF}'
  }

  /** String.prototype.trimStart. */
  function TrimStart(s: string): string {
    if |s| > 0 && IsWhite(s[0]) then TrimStart(s[1..]) else s
  }

  /** trimStart removes exactly the leading white space: what remains is a
      suffix of `s` that is empty or starts with a non-white character. */
  lemma {:induction false} TrimStartSpec(s: string)
    ensures var r := TrimStart(s);
      && |r| <= |s| && r == s[|s| - |r|..]
      && (forall i :: 0 <= i < |s| - |r| ==> IsWhite(s[i]))
      && (r == [] || !IsWhite(r[0]))
    decreases |s|
  {
    if s != [] && IsWhite(s[0]) {
      TrimStartSpec(s[1..]);
    }
  }

  /** String.prototype.trimEnd. */
  function TrimEnd(s: string): string {
    if |s| > 0 && IsWhite(s[|s| - 1]) then TrimEnd(s[..|s| - 1]) else s
  }

  /** trimEnd removes exactly the trailing white space. */
  lemma {:induction false} TrimEndSpec(s: string)
    ensures var r := TrimEnd(s);
      && |r| <= |s| && r == s[..|r|]
      && (forall i :: |r| <= i < |s| ==> IsWhite(s[i]))
      && (r == [] || !IsWhite(r[|r| - 1]))
    decreases |s|
  {
    if s != [] && IsWhite(s[|s| - 1]) {
      TrimEndSpec(s[..|s| - 1]);
    }
  }

  /** String.prototype.trim. */
  function Trim(s: string): string {
    TrimEnd(TrimStart(s))
  }

  /** `r` is `s` with white space before offset `a` and after `r` removed. */
  predicate TrimmedAt(s: string, r: string, a: nat) {
    a + |r| <= |s| && r == s[a..a + |r|]
    && (forall i :: 0 <= i < a ==> IsWhite(s[i]))
    && (forall i :: a + |r| <= i < |s| ==> IsWhite(s[i]))
  }

  /** trim keeps a contiguous part of `s`, removes only white space around
      it, and the result neither starts nor ends with white space. */
  lemma TrimSpec(s: string)
    ensures exists a: nat :: TrimmedAt(s, Trim(s), a)
    ensures Trim(s) == [] || (!IsWhite(Trim(s)[0]) && !IsWhite(Trim(s)[|Trim(s)| - 1]))
  {
    var t := TrimStart(s);
    TrimStartSpec(s);
    TrimEndSpec(t);
    var r := TrimEnd(t);
    var a: nat := |s| - |t|;
    TrimTail(s, t, r, a);
    if r != [] {
      assert r[0] == t[0];
    }
    assert TrimmedAt(s, Trim(s), a);
  }

  lemma TrimTail(s: string, t: string, r: string, a: nat)
    requires a <= |s| && t == s[a..] && |r| <= |t| && r == t[..|r|]
    requires forall i :: |r| <= i < |t| ==> IsWhite(t[i])
    ensures a + |r| <= |s| && r == s[a..a + |r|]
    ensures forall i :: a + |r| <= i < |s| ==> IsWhite(s[i])
  {
    forall i | a + |r| <= i < |s| ensures IsWhite(s[i]) {
      assert s[i] == t[i - a];
    }
  }

  /** A string that neither starts nor ends with white space trims to itself. */
  lemma TrimUnchanged(s: string)
    requires s == [] || (!IsWhite(s[0]) && !IsWhite(s[|s| - 1]))
    ensures Trim(s) == s
  {
  }

  /** toLowerCase, for the ASCII letters. */
  function LowerChar(c: char): char {
    if 'A' <= c <= 'Z' then (c as int + 32) as char else c
  }

  /** toUpperCase, for the ASCII letters. */
  function UpperChar(c: char): char {
    if 'a' <= c <= 'z' then (c as int - 32) as char else c
  }

  function ToLower(s: string): (r: string)
    ensures |r| == |s| && forall i :: 0 <= i < |s| ==> r[i] == LowerChar(s[i])
  {
    seq(|s|, i requires 0 <= i < |s| => LowerChar(s[i]))
  }

  function ToUpper(s: string): (r: string)
    ensures |r| == |s| && forall i :: 0 <= i < |s| ==> r[i] == UpperChar(s[i])
  {
    seq(|s|, i requires 0 <= i < |s| => UpperChar(s[i]))
  }

  /** Array.prototype.join(sep) over strings. */
  function Join(xs: seq<string>, sep: string): string {
    if |xs| == 0 then "" else if |xs| == 1 then xs[0] else xs[0] + sep + Join(xs[1..], sep)
  }

  /** String.prototype.split with a one-character separator: the pieces
      between the separators, never containing one, that join back to `s`. */
  function Split(s: string, sep: char): (r: seq<string>)
    ensures |r| >= 1
    ensures forall k :: 0 <= k < |r| ==> sep !in r[k]
    ensures Join(r, [sep]) == s
    decreases |s|
  {
    IndexOfFirst(s, [sep], 0);
    match IndexOf(s, [sep], 0)
    case None =>
      assert sep !in s by {
        forall j | 0 <= j < |s| ensures s[j] != sep { OccursAtChar(s, sep, j); }
      }
      [s]
    case Some(i) =>
      OccursAtChar(s, sep, i);
      assert sep !in s[..i] by {
        forall j | 0 <= j < i ensures s[..i][j] != sep { OccursAtChar(s, sep, j); }
      }
      var rest := Split(s[i + 1..], sep);
      assert s == s[..i] + [sep] + s[i + 1..];
      [s[..i]] + rest
  }

  /** Splitting a join of separator-free pieces gives the pieces back. */
  lemma {:induction false} SplitJoin(xs: seq<string>, sep: char)
    requires |xs| >= 1
    requires forall k :: 0 <= k < |xs| ==> sep !in xs[k]
    ensures Split(Join(xs, [sep]), sep) == xs
    decreases |xs|
  {
    var s := Join(xs, [sep]);
    if |xs| == 1 {
      match IndexOf(s, [sep], 0)
      case None =>
      case Some(i) => OccursAtChar(s, sep, i); assert false;
    } else {
      var n := |xs[0]|;
      var tail := Join(xs[1..], [sep]);
      assert s == xs[0] + [sep] + tail;
      OccursAtChar(s, sep, n);
      forall j: nat | j < n ensures !OccursAt(s, [sep], j) {
        OccursAtChar(s, sep, j);
        assert s[j] == xs[0][j];
      }
      IndexOfFirst(s, [sep], 0);
      assert IndexOf(s, [sep], 0) == Some(n);
      assert s[..n] == xs[0];
      assert s[n + 1..] == tail;
      SplitJoin(xs[1..], sep);
    }
  }

  // ---------------------------------------------------------------------
  // Digits, Number#toString and parseInt

  predicate IsAsciiDigit(c: char) { '0' <= c <= '9' }

  /** The value of a digit character in radixes up to 36. */
  function DigitValue(c: char): Option<nat> {
    if '0' <= c <= '9' then Some(c as int - '0' as int)
    else if 'a' <= c <= 'z' then Some(c as int - 'a' as int + 10)
    else if 'A' <= c <= 'Z' then Some(c as int - 'A' as int + 10)
    else None
  }

  predicate IsDigitIn(c: char, radix: nat) {
    DigitValue(c).Some? && DigitValue(c).value < radix
  }

  predicate AllDigits(s: string, radix: nat) {
    forall i :: 0 <= i < |s| ==> IsDigitIn(s[i], radix)
  }

  /** The lower-case digit character of value `d`. */
  function DigitChar(d: nat): (c: char)
    requires d < 36
    ensures DigitValue(c) == Some(d)
    ensures d < 10 ==> IsAsciiDigit(c)
  {
    if d < 10 then ('0' as int + d) as char else ('a' as int + d - 10) as char
  }

  /** Number.prototype.toString(radix) of a non-negative integer. */
  function RadixString(n: nat, radix: nat): (r: string)
    requires 2 <= radix <= 36
    ensures |r| >= 1
    decreases n
  {
    if n < radix then [DigitChar(n)] else RadixString(n / radix, radix) + [DigitChar(n % radix)]
  }

  /** RadixString writes radix digits, and they denote the number. */
  lemma {:induction false} RadixStringValue(n: nat, radix: nat)
    requires 2 <= radix <= 36
    ensures AllDigits(RadixString(n, radix), radix)
    ensures DigitsValue(RadixString(n, radix), radix) == n
    decreases n
  {
    if n < radix {
      DigitsValueSnoc([], DigitChar(n), radix);
      assert [] + [DigitChar(n)] == RadixString(n, radix);
    } else {
      var k, m := n / radix, n % radix;
      DivLess(n, radix);
      RadixStringValue(k, radix);
      DivMod(n, radix);
      ValueStep(RadixString(k, radix), m, radix, k, n);
    }
  }

  /** The value of one more digit `m` after the digits of `k`. */
  lemma ValueStep(q: string, m: nat, radix: nat, k: nat, n: nat)
    requires 2 <= radix <= 36 && m < radix && k * radix + m == n
    requires AllDigits(q, radix) && DigitsValue(q, radix) == k
    ensures AllDigits(q + [DigitChar(m)], radix)
    ensures DigitsValue(q + [DigitChar(m)], radix) == n
  {
    DigitsValueSnoc(q, DigitChar(m), radix);
  }

  function Pow(radix: nat, k: nat): nat {
    if k == 0 then 1 else radix * Pow(radix, k - 1)
  }

  /** A number below radix^k takes at most k digits. */
  lemma {:induction false} RadixStringLength(n: nat, radix: nat, k: nat)
    requires 2 <= radix <= 36 && 1 <= k && n < Pow(radix, k)
    ensures |RadixString(n, radix)| <= k
    decreases n
  {
    if n >= radix {
      var q, p := n / radix, Pow(radix, k - 1);
      DivMod(n, radix);
      if k == 1 {
        assert false;
      }
      if q >= p {
        MulMonotone(p, q, radix);
        assert false;
      }
      DivLess(n, radix);
      RadixStringLength(q, radix, k - 1);
    }
  }

  lemma MulMonotone(p: nat, q: nat, radix: nat)
    requires p <= q
    ensures p * radix <= q * radix
  {
  }

  lemma DivLess(n: nat, radix: nat)
    requires 2 <= radix <= n
    ensures n / radix < n
  {
    DivMod(n, radix);
    var k := n / radix;
    if k >= n {
      MulAtLeast(k, radix);
      assert false;
    }
  }

  lemma {:induction false} MulAtLeast(k: nat, radix: nat)
    requires radix >= 2
    ensures k * radix >= 2 * k
    decreases k
  {
    if k > 0 {
      MulAtLeast(k - 1, radix);
      assert k * radix == (k - 1) * radix + radix;
    }
  }

  lemma DivMod(n: nat, radix: nat)
    requires radix > 0
    ensures (n / radix) * radix + n % radix == n
  {
  }

  lemma DigitsValueSnoc(q: string, c: char, radix: nat)
    requires AllDigits(q, radix) && IsDigitIn(c, radix)
    ensures AllDigits(q + [c], radix)
    ensures DigitsValue(q + [c], radix) == DigitsValue(q, radix) * radix + DigitValue(c).value
  {
    assert (q + [c])[..|q|] == q;
  }

  /** The value a digit string denotes. */
  function DigitsValue(ds: string, radix: nat): nat
    requires AllDigits(ds, radix)
  {
    if |ds| == 0 then 0
    else DigitsValue(ds[..|ds| - 1], radix) * radix + DigitValue(ds[|ds| - 1]).value
  }

  /** Number.prototype.toString() of a non-negative integer. */
  function Dec(n: nat): string {
    RadixString(n, 10)
  }

  /** Decimal notation is a non-empty string of ASCII digits. */
  lemma DecDigits(n: nat)
    ensures |Dec(n)| >= 1 && forall i :: 0 <= i < |Dec(n)| ==> IsAsciiDigit(Dec(n)[i])
  {
    RadixStringValue(n, 10);
    var r := Dec(n);
    forall i | 0 <= i < |r| ensures IsAsciiDigit(r[i]) {
      assert IsDigitIn(r[i], 10);
    }
  }

  /** Number.prototype.toString() of an integer, in plain decimal form. */
  function IntToString(i: int): string {
    if i < 0 then "-" + Dec(-i) else Dec(i)
  }

  /** The longest prefix of `s` made of radix digits. */
  function LeadingDigits(s: string, radix: nat): (z: string)
    ensures |z| <= |s| && z == s[..|z|] && AllDigits(z, radix)
    ensures |z| == |s| || !IsDigitIn(s[|z|], radix)
  {
    if |s| > 0 && IsDigitIn(s[0], radix) then
      var z := [s[0]] + LeadingDigits(s[1..], radix);
      assert s == [s[0]] + s[1..];
      z
    else []
  }

  /** parseInt(s, radix), with radix 0 standing for an absent radix; None
      stands for NaN. */
  function ParseInt(s: string, radix: int): Option<int> {
    var t := TrimStart(s);
    var negative := |t| > 0 && t[0] == '-';
    var u := if |t| > 0 && (t[0] == '-' || t[0] == '+') then t[1..] else t;
    match ParseUnsigned(u, radix)
    case None => None
    case Some(v) => Some(if negative then 0 - v else v)
  }

  /** parseInt after the sign: an optional `0x` prefix (radix absent or 16),
      then the longest run of digits of the radix. */
  function ParseUnsigned(u: string, radix: int): Option<nat> {
    if radix != 0 && (radix < 2 || radix > 36) then None
    else
      var hex := (radix == 0 || radix == 16) && |u| >= 2 && u[0] == '0' && (u[1] == 'x' || u[1] == 'X');
      var r: nat := if hex then 16 else if radix == 0 then 10 else radix;
      var z := LeadingDigits(if hex then u[2..] else u, r);
      if z == [] then None else Some(DigitsValue(z, r))
  }

  /** The digits of a non-negative number parse back to it. */
  lemma ParseUnsignedDec(n: nat, radix: int)
    requires radix == 0 || radix == 10
    ensures ParseUnsigned(Dec(n), radix) == Some(n)
  {
    var d := Dec(n);
    DecDigits(n);
    assert !(|d| >= 2 && d[1] == 'x') && !(|d| >= 2 && d[1] == 'X') by {
      if |d| >= 2 { assert IsAsciiDigit(d[1]); }
    }
    RadixStringValue(n, 10);
    AllDigitsLeading(d, 10);
  }

  /** parseInt reads back what Number#toString writes, with or without an
      explicit radix 10. */
  lemma ParseIntToString(i: int, radix: int)
    requires radix == 0 || radix == 10
    ensures ParseInt(IntToString(i), radix) == Some(i)
  {
    var s := IntToString(i);
    var n: nat := if i < 0 then -i else i;
    DecDigits(n);
    ParseUnsignedDec(n, radix);
    assert !IsWhite(s[0]);
    assert TrimStart(s) == s;
    if i < 0 {
      assert s[1..] == Dec(n);
    } else {
      assert s[0] != '-' && s[0] != '+';
    }
  }

  lemma {:induction false} AllDigitsLeading(s: string, radix: nat)
    requires AllDigits(s, radix)
    ensures LeadingDigits(s, radix) == s
    decreases |s|
  {
    if s != [] {
      AllDigitsLeading(s[1..], radix);
      assert s == [s[0]] + s[1..];
    }
  }

  /** The number of characters of `s` for which `p` holds. */
  function CountWhere(s: string, p: char -> bool): nat {
    if |s| == 0 then 0 else (if p(s[0]) then 1 else 0) + CountWhere(s[1..], p)
  }
}
