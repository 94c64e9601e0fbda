/** Comparison functions in the style of JavaScript's `Array.prototype.sort`
    callbacks and `String.prototype.localeCompare`: a negative result puts the
    first argument first, a positive one the second, zero keeps input order. */
module Comparators {

  /** A comparator whose sign is antisymmetric and whose "may precede"
      relation (`cmp(a, b) <= 0`) is transitive: the consistency that
      ECMAScript asks of a sort callback. Totality follows from the sign rule. */
  ghost predicate IsComparator<T(!new)>(cmp: (T, T) -> int) {
    && (forall a, b :: cmp(a, b) < 0 <==> cmp(b, a) > 0)
    && (forall a, b, c :: cmp(a, b) <= 0 && cmp(b, c) <= 0 ==> cmp(a, c) <= 0)
  }

  /** Two values compare equal only when they are the same value. A locale
      collation need not have this property; a code-unit order does. */
  ghost predicate Distinguishes<T(!new)>(cmp: (T, T) -> int) {
    forall a, b :: cmp(a, b) <= 0 && cmp(b, a) <= 0 ==> a == b
  }

  lemma ComparatorIsTotal<T(!new)>(cmp: (T, T) -> int, a: T, b: T)
    requires IsComparator(cmp)
    ensures cmp(a, b) <= 0 || cmp(b, a) <= 0
  {
  }
}

/** A stable sort by insertion, the behaviour ECMAScript 2019 and later
    require of `Array.prototype.sort` for a consistent comparator. */
module Sorting {
  import opened Comparators

  /** Every earlier element may precede every later one. */
  ghost predicate Sorted<T>(s: seq<T>, cmp: (T, T) -> int) {
    forall i, j :: 0 <= i < j < |s| ==> cmp(s[i], s[j]) <= 0
  }

  /** Places `x` in front of the first element it may precede; `x` is the
      earliest element of the input, so ties keep input order. */
  function Insert<T>(x: T, s: seq<T>, cmp: (T, T) -> int): (r: seq<T>)
    ensures multiset(r) == multiset(s) + multiset{x}
    ensures |r| == |s| + 1
  {
    if |s| == 0 then [x]
    else if cmp(x, s[0]) <= 0 then [x] + s
    else
      assert s == [s[0]] + s[1..];
      [s[0]] + Insert(x, s[1..], cmp)
  }

  /** Sorts a copy of `s`; the argument itself is a value and is untouched. */
  function Sort<T>(s: seq<T>, cmp: (T, T) -> int): (r: seq<T>)
    ensures multiset(r) == multiset(s)
    ensures |r| == |s|
  {
    if |s| == 0 then []
    else
      assert s == [s[0]] + s[1..];
      Insert(s[0], Sort(s[1..], cmp), cmp)
  }

  /** Whatever `b` may precede in `s`, and `x`, it may precede in `Insert(x, s, cmp)`. */
  lemma {:induction false} InsertBelow<T>(b: T, x: T, s: seq<T>, cmp: (T, T) -> int)
    requires cmp(b, x) <= 0
    requires forall k :: 0 <= k < |s| ==> cmp(b, s[k]) <= 0
    ensures forall k :: 0 <= k < |Insert(x, s, cmp)| ==> cmp(b, Insert(x, s, cmp)[k]) <= 0
    decreases |s|
  {
    if |s| > 0 && cmp(x, s[0]) > 0 {
      InsertBelow(b, x, s[1..], cmp);
    }
  }

  lemma {:induction false} InsertSorted<T(!new)>(x: T, s: seq<T>, cmp: (T, T) -> int)
    requires IsComparator(cmp)
    requires Sorted(s, cmp)
    ensures Sorted(Insert(x, s, cmp), cmp)
    decreases |s|
  {
    var r := Insert(x, s, cmp);
    if |s| == 0 {
    } else if cmp(x, s[0]) <= 0 {
      forall j | 0 < j < |r| ensures cmp(r[0], r[j]) <= 0 {
        assert r[j] == s[j - 1];
      }
    } else {
      var rest := Insert(x, s[1..], cmp);
      InsertSorted(x, s[1..], cmp);
      assert cmp(s[0], x) < 0;
      InsertBelow(s[0], x, s[1..], cmp);
      assert r == [s[0]] + rest;
    }
  }

  /** For a consistent comparator the result of `Sort` is ordered. */
  lemma {:induction false} SortSorted<T(!new)>(s: seq<T>, cmp: (T, T) -> int)
    requires IsComparator(cmp)
    ensures Sorted(Sort(s, cmp), cmp)
    decreases |s|
  {
    if |s| > 0 {
      SortSorted(s[1..], cmp);
      InsertSorted(s[0], Sort(s[1..], cmp), cmp);
    }
  }

  /** The elements of `s` that compare equal to `x`, in their order in `s`. */
  function Ties<T>(s: seq<T>, x: T, cmp: (T, T) -> int): seq<T> {
    if |s| == 0 then []
    else (if cmp(x, s[0]) == 0 then [s[0]] else []) + Ties(s[1..], x, cmp)
  }

  /** Two values that tie with a third tie with each other. */
  lemma TiesAreEquivalent<T(!new)>(x: T, a: T, b: T, cmp: (T, T) -> int)
    requires IsComparator(cmp)
    ensures cmp(x, a) == 0 && cmp(x, b) == 0 ==> cmp(a, b) == 0
  {
    if cmp(x, a) == 0 && cmp(x, b) == 0 {
      assert cmp(a, x) == 0;
      assert cmp(a, b) <= 0;
      assert cmp(b, x) == 0;
      assert cmp(b, a) <= 0;
    }
  }

  lemma {:induction false} InsertTies<T(!new)>(a: T, s: seq<T>, x: T, cmp: (T, T) -> int)
    requires IsComparator(cmp)
    ensures Ties(Insert(a, s, cmp), x, cmp) ==
            (if cmp(x, a) == 0 then [a] else []) + Ties(s, x, cmp)
    decreases |s|
  {
    var r := Insert(a, s, cmp);
    if |s| == 0 {
      assert r == [a];
    } else if cmp(a, s[0]) <= 0 {
      assert r == [a] + s;
      assert r[1..] == s;
    } else {
      var rest := Insert(a, s[1..], cmp);
      InsertTies(a, s[1..], x, cmp);
      assert r == [s[0]] + rest;
      assert r[1..] == rest;
      var head := if cmp(x, s[0]) == 0 then [s[0]] else [];
      var mid := if cmp(x, a) == 0 then [a] else [];
      assert Ties(r, x, cmp) == head + Ties(rest, x, cmp);
      assert Ties(s, x, cmp) == head + Ties(s[1..], x, cmp);
      TiesAreEquivalent(x, a, s[0], cmp);
      assert head == [] || mid == [];
      assert head + (mid + Ties(s[1..], x, cmp)) == mid + (head + Ties(s[1..], x, cmp));
    }
  }

  /** Stability: the elements that tie with any `x` come out in input order. */
  lemma {:induction false} SortStable<T(!new)>(s: seq<T>, x: T, cmp: (T, T) -> int)
    requires IsComparator(cmp)
    ensures Ties(Sort(s, cmp), x, cmp) == Ties(s, x, cmp)
    decreases |s|
  {
    if |s| > 0 {
      SortStable(s[1..], x, cmp);
      InsertTies(s[0], Sort(s[1..], cmp), x, cmp);
    }
  }
}
