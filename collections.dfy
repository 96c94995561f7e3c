/** Sequence helpers shared by the model: Array.prototype.filter, a flatten,
    and Array.prototype.sort, which engines implement as a stable sort. */
module Collections {

  /** Array.prototype.filter(p). */
  function Filter<T>(s: seq<T>, p: T -> bool): (r: seq<T>)
    ensures |r| <= |s|
  {
    if |s| == 0 then [] else Keep(s[0], p) + Filter(s[1..], p)
  }

  /** The filtered sequence holds exactly the elements satisfying `p`. */
  lemma {:induction false} FilterMembers<T>(s: seq<T>, p: T -> bool)
    ensures forall x :: x in Filter(s, p) <==> x in s && p(x)
    decreases |s|
  {
    if |s| > 0 {
      FilterMembers(s[1..], p);
      assert s == [s[0]] + s[1..];
    }
  }

  /** The one-element filter: `[x]` when `p(x)` holds, else empty. */
  function Keep<T>(x: T, p: T -> bool): seq<T> {
    if p(x) then [x] else []
  }

  lemma {:induction false} FilterConcat<T>(a: seq<T>, b: seq<T>, p: T -> bool)
    ensures Filter(a + b, p) == Filter(a, p) + Filter(b, p)
    decreases |a|
  {
    if |a| == 0 {
      assert a + b == b;
    } else {
      assert (a + b)[0] == a[0];
      assert (a + b)[1..] == a[1..] + b;
      FilterConcat(a[1..], b, p);
    }
  }

  /** Filtering keeps exactly the number of elements satisfying `p`. */
  lemma {:induction false} FilterMultiset<T>(s: seq<T>, p: T -> bool)
    ensures forall x :: multiset(Filter(s, p))[x] == if p(x) then multiset(s)[x] else 0
    decreases |s|
  {
    if |s| > 0 {
      FilterMultiset(s[1..], p);
      assert s == [s[0]] + s[1..];
    }
  }

  /** Concatenation of a sequence of sequences. */
  function Flatten<T>(xss: seq<seq<T>>): seq<T> {
    if |xss| == 0 then [] else xss[0] + Flatten(xss[1..])
  }

  /** `a` is an order-preserving subsequence of `b`. */
  ghost predicate IsSubseq<T>(a: seq<T>, b: seq<T>)
    decreases |b|
  {
    if |a| == 0 then true
    else if |b| == 0 then false
    else (a[|a| - 1] == b[|b| - 1] && IsSubseq(a[..|a| - 1], b[..|b| - 1])) || IsSubseq(a, b[..|b| - 1])
  }

  // ---------------------------------------------------------------------
  // Stable sorting by a comparison `le(a, b)`: "a may stay before b".

  ghost predicate TotalPreorder<T(!new)>(le: (T, T) -> bool) {
    (forall a, b :: le(a, b) || le(b, a)) &&
    (forall a, b, c :: le(a, b) && le(b, c) ==> le(a, c))
  }

  ghost predicate SortedBy<T>(s: seq<T>, le: (T, T) -> bool) {
    forall i, j :: 0 <= i < j < |s| ==> le(s[i], s[j])
  }

  /** Puts `x` in front of the first element it may precede. */
  function Insert<T>(x: T, s: seq<T>, le: (T, T) -> bool): (r: seq<T>)
  {
    if |s| == 0 then [x]
    else if le(x, s[0]) then [x] + s
    else [s[0]] + Insert(x, s[1..], le)
  }

  lemma {:induction false} InsertMultiset<T>(x: T, s: seq<T>, le: (T, T) -> bool)
    ensures multiset(Insert(x, s, le)) == multiset(s) + multiset{x}
    decreases |s|
  {
    if |s| > 0 && !le(x, s[0]) {
      InsertMultiset(x, s[1..], le);
      assert s == [s[0]] + s[1..];
    }
  }

  /** Array.prototype.sort with a comparator that orders by `le`: a stable
      insertion sort. */
  function SortBy<T>(s: seq<T>, le: (T, T) -> bool): (r: seq<T>)
  {
    if |s| == 0 then [] else Insert(s[0], SortBy(s[1..], le), le)
  }

  /** Sorting loses and adds no element, whatever the comparison. */
  lemma {:induction false} SortByPermutation<T>(s: seq<T>, le: (T, T) -> bool)
    ensures multiset(SortBy(s, le)) == multiset(s)
    ensures |SortBy(s, le)| == |s|
    decreases |s|
  {
    if |s| > 0 {
      SortByPermutation(s[1..], le);
      InsertMultiset(s[0], SortBy(s[1..], le), le);
      assert s == [s[0]] + s[1..];
    }
    assert |multiset(SortBy(s, le))| == |multiset(s)|;
  }

  lemma {:induction false} InsertSorted<T(!new)>(x: T, s: seq<T>, le: (T, T) -> bool)
    requires TotalPreorder(le) && SortedBy(s, le)
    ensures SortedBy(Insert(x, s, le), le)
    decreases |s|
  {
    if |s| > 0 && !le(x, s[0]) {
      InsertSorted(x, s[1..], le);
      var r := Insert(x, s, le);
      var t := Insert(x, s[1..], le);
      assert r == [s[0]] + t;
      assert le(s[0], x);
      InsertMultiset(x, s[1..], le);
      forall k | 0 <= k < |t| ensures le(s[0], t[k]) {
        assert t[k] in multiset(s[1..]) + multiset{x};
        if t[k] != x {
          assert t[k] in s[1..];
          var j :| 0 <= j < |s[1..]| && s[1..][j] == t[k];
          assert s[j + 1] == t[k];
        }
      }
    }
  }

  /** The sort's result is ordered by `le` and is a permutation of its input. */
  lemma {:induction false} SortBySorted<T(!new)>(s: seq<T>, le: (T, T) -> bool)
    requires TotalPreorder(le)
    ensures SortedBy(SortBy(s, le), le)
    ensures multiset(SortBy(s, le)) == multiset(s)
    decreases |s|
  {
    if |s| > 0 {
      SortBySorted(s[1..], le);
      InsertSorted(s[0], SortBy(s[1..], le), le);
      InsertMultiset(s[0], SortBy(s[1..], le), le);
      assert s == [s[0]] + s[1..];
    }
  }

  lemma {:induction false} InsertStable<T>(x: T, s: seq<T>, le: (T, T) -> bool, p: T -> bool)
    requires forall a, b :: p(a) && p(b) ==> le(a, b)
    ensures Filter(Insert(x, s, le), p) == Keep(x, p) + Filter(s, p)
    decreases |s|
  {
    if |s| == 0 {
    } else if le(x, s[0]) {
      assert Insert(x, s, le) == [x] + s;
      FilterConcat([x], s, p);
    } else {
      InsertStable(x, s[1..], le, p);
      InsertStableStep(x, s, le, p);
    }
  }

  lemma InsertStableStep<T>(x: T, s: seq<T>, le: (T, T) -> bool, p: T -> bool)
    requires |s| > 0 && !le(x, s[0])
    requires p(x) ==> !p(s[0])
    requires Filter(Insert(x, s[1..], le), p) == Keep(x, p) + Filter(s[1..], p)
    ensures Filter(Insert(x, s, le), p) == Keep(x, p) + Filter(s, p)
  {
    var t := Insert(x, s[1..], le);
    var rest := Filter(s[1..], p);
    calc {
      Filter(Insert(x, s, le), p);
      { assert Insert(x, s, le) == [s[0]] + t; }
      Filter([s[0]] + t, p);
      { assert ([s[0]] + t)[1..] == t; }
      Keep(s[0], p) + Filter(t, p);
      Keep(s[0], p) + (Keep(x, p) + rest);
      { KeepSwap(Keep(s[0], p), Keep(x, p), rest); }
      Keep(x, p) + (Keep(s[0], p) + rest);
      Keep(x, p) + Filter(s, p);
    }
  }

  /** Two pieces of which one is empty can change places. */
  lemma KeepSwap<T>(a: seq<T>, b: seq<T>, rest: seq<T>)
    requires |a| == 0 || |b| == 0
    ensures a + (b + rest) == b + (a + rest)
  {
    if |a| == 0 {
      assert a + (b + rest) == b + rest;
      assert a + rest == rest;
    } else {
      assert b + (a + rest) == a + rest;
      assert b + rest == rest;
    }
  }

  /** Stability: the elements of one class of mutually equivalent elements
      (picked out by `p`) keep their relative order. */
  lemma {:induction false} SortByStable<T>(s: seq<T>, le: (T, T) -> bool, p: T -> bool)
    requires forall a, b :: p(a) && p(b) ==> le(a, b)
    ensures Filter(SortBy(s, le), p) == Filter(s, p)
    decreases |s|
  {
    if |s| > 0 {
      SortByStable(s[1..], le, p);
      InsertStable(s[0], SortBy(s[1..], le), le, p);
      FilterConcat([s[0]], s[1..], p);
      assert s == [s[0]] + s[1..];
    }
  }
}
