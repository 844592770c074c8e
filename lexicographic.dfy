/**
 * Python's ordering of strings (code point by code point, a proper prefix
 * first) and the sorted list of distinct values of a text column, as
 * `sorted(column.unique())` builds it.
 */
module Lexicographic {

  /** `a` sorts strictly before `b`. */
  predicate Less(a: string, b: string)
    ensures Less(a, b) ==> a != b
  {
    if a == [] then b != []
    else if b == [] then false
    else if a[0] != b[0] then a[0] < b[0]
    else Less(a[1..], b[1..])
  }

  lemma {:induction false} LessTransitive(a: string, b: string, c: string)
    requires Less(a, b) && Less(b, c)
    ensures Less(a, c)
  {
    if a != [] && a[0] == b[0] && b[0] == c[0] {
      LessTransitive(a[1..], b[1..], c[1..]);
    }
  }

  lemma {:induction false} LessTotal(a: string, b: string)
    ensures a == b || Less(a, b) || Less(b, a)
  {
    if a != [] && b != [] && a[0] == b[0] {
      LessTotal(a[1..], b[1..]);
      if a[1..] == b[1..] {
        assert a == [a[0]] + a[1..] && b == [b[0]] + b[1..];
      }
    }
  }

  /** Each element sorts strictly before every later one. */
  predicate StrictlySorted(s: seq<string>) {
    forall j, k :: 0 <= j < k < |s| ==> Less(s[j], s[k])
  }

  /** A strictly sorted list repeats no value. */
  lemma StrictlySortedDistinct(s: seq<string>)
    requires StrictlySorted(s)
    ensures forall j, k :: 0 <= j < k < |s| ==> s[j] != s[k]
  {
  }

  /** Adds `x` to a strictly sorted list unless it is already there. */
  function Insert(s: seq<string>, x: string): (r: seq<string>)
    requires StrictlySorted(s)
    ensures StrictlySorted(r)
    ensures forall y :: y in r <==> y == x || y in s
  {
    if s == [] then [x]
    else if x == s[0] then s
    else if Less(x, s[0]) then
      InsertFrontSorted(s, x);
      [x] + s
    else
      LessTotal(x, s[0]);
      var r := [s[0]] + Insert(s[1..], x);
      assert forall y :: y in Insert(s[1..], x) ==> Less(s[0], y);
      r
  }

  lemma InsertFrontSorted(s: seq<string>, x: string)
    requires StrictlySorted(s) && s != [] && Less(x, s[0])
    ensures StrictlySorted([x] + s)
  {
    forall k | 0 < k < |s|
      ensures Less(x, s[k])
    {
      LessTransitive(x, s[0], s[k]);
    }
  }

  /** The distinct values of a column, sorted: `sorted(column.unique())`. */
  function SortedUnique(column: seq<string>): (r: seq<string>)
    ensures StrictlySorted(r)
    ensures forall y :: y in r <==> y in column
  {
    if column == [] then []
    else Insert(SortedUnique(column[..|column| - 1]), column[|column| - 1])
  }

  /** A strictly sorted list is determined by the values it holds. */
  lemma {:induction false} StrictlySortedUnique(a: seq<string>, b: seq<string>)
    requires StrictlySorted(a) && StrictlySorted(b)
    requires forall y :: y in a <==> y in b
    ensures a == b
  {
    assert a != [] ==> a[0] in b;
    assert b != [] ==> b[0] in a;
    if a != [] {
      assert a[0] == b[0] by {
        assert a[0] in b && b[0] in a;
        if a[0] != b[0] {
          var i :| 0 <= i < |b| && b[i] == a[0];
          var j :| 0 <= j < |a| && a[j] == b[0];
          assert Less(b[0], a[0]);
          assert Less(a[0], b[0]);
          LessTransitive(a[0], b[0], a[0]);
        }
      }
      forall y
        ensures y in a[1..] <==> y in b[1..]
      {
        StrictlySortedDistinct(a);
        StrictlySortedDistinct(b);
        if y in a[1..] {
          assert y in b && y != b[0];
        }
        if y in b[1..] {
          assert y in a && y != a[0];
        }
      }
      StrictlySortedUnique(a[1..], b[1..]);
      assert a == [a[0]] + a[1..] && b == [b[0]] + b[1..];
    }
  }
}
