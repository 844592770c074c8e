/**
 * The summaries shown for a non-empty filtered view: the mean price, the mean
 * odometer reading, the number of vehicles, and the table of vehicles per
 * body type behind the bar chart (`value_counts()` on the `type` column).
 */
module Aggregation {
  import opened Wrappers
  import opened Masks
  import opened Loading

  // ----- The `type` column and its counts -----

  /** The `type` column with its missing cells dropped, in row order. */
  function TypeColumn(v: seq<Record>): (col: seq<string>)
    ensures |col| <= |v|
    ensures forall x :: x in col <==> exists i :: 0 <= i < |v| && v[i].vtype == Some(x)
  {
    if v == [] then []
    else
      var col := TypeColumn(v[..|v| - 1]);
      match v[|v| - 1].vtype
      case Some(ty) => col + [ty]
      case None => col
  }

  /** The "type present" mask over the view. */
  function TypePresentMask(v: seq<Record>): seq<bool> {
    seq(|v|, i requires 0 <= i < |v| => v[i].vtype.Some?)
  }

  /** Entry k of the column is the type of the k-th row whose type is present. */
  lemma {:induction false} TypeColumnSpec(v: seq<Record>)
    ensures var p := Positions(TypePresentMask(v));
      && |TypeColumn(v)| == |p|
      && forall k :: 0 <= k < |p| ==> v[p[k]].vtype == Some(TypeColumn(v)[k])
  {
    if v != [] {
      var init := v[..|v| - 1];
      TypeColumnSpec(init);
      assert TypePresentMask(v)[..|v| - 1] == TypePresentMask(init);
    }
  }

  /** How many entries of `col` equal `x`. */
  function Occurrences(col: seq<string>, x: string): (n: nat)
    ensures n <= |col|
    ensures n >= 1 <==> x in col
  {
    if col == [] then 0
    else
      var n := Occurrences(col[..|col| - 1], x);
      assert col == col[..|col| - 1] + [col[|col| - 1]];
      if col[|col| - 1] == x then n + 1 else n
  }

  predicate Distinct(s: seq<string>) {
    forall j, k :: 0 <= j < k < |s| ==> s[j] != s[k]
  }

  /** The distinct values of `col`, in order of first occurrence. */
  function FirstOccurrences(col: seq<string>): (d: seq<string>)
    ensures Distinct(d)
    ensures forall y :: y in d <==> y in col
    ensures |d| <= |col|
  {
    if col == [] then []
    else
      var d := FirstOccurrences(col[..|col| - 1]);
      var x := col[|col| - 1];
      assert col == col[..|col| - 1] + [x];
      if x in d then d else d + [x]
  }

  /** One bar of the chart: a body type and its number of vehicles. */
  datatype TypeCount = TypeCount(vtype: string, count: nat)

  /** Pairs each value in `d` with its number of occurrences in `col`. */
  function Tally(col: seq<string>, d: seq<string>): seq<TypeCount> {
    seq(|d|, i requires 0 <= i < |d| => TypeCount(d[i], Occurrences(col, d[i])))
  }

  function SumCounts(s: seq<TypeCount>): int {
    if s == [] then 0 else s[0].count + SumCounts(s[1..])
  }

  predicate NonIncreasing(s: seq<TypeCount>) {
    forall j, k :: 0 <= j < k < |s| ==> s[j].count >= s[k].count
  }

  predicate DistinctTypes(s: seq<TypeCount>) {
    forall j, k :: 0 <= j < k < |s| ==> s[j].vtype != s[k].vtype
  }

  /** Puts `p` before the first entry whose count does not exceed its own. */
  function InsertByCount(p: TypeCount, s: seq<TypeCount>): (r: seq<TypeCount>)
    ensures multiset(r) == multiset(s) + multiset{p}
  {
    if s == [] || p.count >= s[0].count then [p] + s
    else
      assert s == [s[0]] + s[1..];
      [s[0]] + InsertByCount(p, s[1..])
  }

  lemma InsertMembers(p: TypeCount, s: seq<TypeCount>, y: TypeCount)
    ensures y in InsertByCount(p, s) <==> y == p || y in s
  {
  }

  lemma {:induction false} InsertNonIncreasing(p: TypeCount, s: seq<TypeCount>)
    requires NonIncreasing(s)
    ensures NonIncreasing(InsertByCount(p, s))
  {
    if s != [] && p.count < s[0].count {
      InsertNonIncreasing(p, s[1..]);
      var rest := InsertByCount(p, s[1..]);
      forall k | 0 <= k < |rest|
        ensures s[0].count >= rest[k].count
      {
        InsertMembers(p, s[1..], rest[k]);
      }
    }
  }

  lemma {:induction false} InsertSum(p: TypeCount, s: seq<TypeCount>)
    ensures SumCounts(InsertByCount(p, s)) == p.count + SumCounts(s)
  {
    if s == [] || p.count >= s[0].count {
      assert ([p] + s)[1..] == s;
    } else {
      InsertSum(p, s[1..]);
      assert ([s[0]] + InsertByCount(p, s[1..]))[1..] == InsertByCount(p, s[1..]);
    }
  }

  lemma {:induction false} InsertDistinctTypes(p: TypeCount, s: seq<TypeCount>)
    requires DistinctTypes(s)
    requires forall y :: y in s ==> y.vtype != p.vtype
    ensures DistinctTypes(InsertByCount(p, s))
  {
    if s != [] && p.count < s[0].count {
      InsertDistinctTypes(p, s[1..]);
      var rest := InsertByCount(p, s[1..]);
      forall k | 0 <= k < |rest|
        ensures s[0].vtype != rest[k].vtype
      {
        InsertMembers(p, s[1..], rest[k]);
      }
    }
  }

  /** A stable sort by count, largest first. */
  function SortByCount(s: seq<TypeCount>): (r: seq<TypeCount>)
    ensures multiset(r) == multiset(s)
  {
    if s == [] then []
    else
      assert s == [s[0]] + s[1..];
      InsertByCount(s[0], SortByCount(s[1..]))
  }

  lemma {:induction false} SortNonIncreasing(s: seq<TypeCount>)
    ensures NonIncreasing(SortByCount(s))
  {
    if s != [] {
      SortNonIncreasing(s[1..]);
      InsertNonIncreasing(s[0], SortByCount(s[1..]));
    }
  }

  lemma {:induction false} SortSum(s: seq<TypeCount>)
    ensures SumCounts(SortByCount(s)) == SumCounts(s)
  {
    if s != [] {
      SortSum(s[1..]);
      InsertSum(s[0], SortByCount(s[1..]));
    }
  }

  lemma {:induction false} SortDistinctTypes(s: seq<TypeCount>)
    requires DistinctTypes(s)
    ensures DistinctTypes(SortByCount(s))
  {
    if s != [] {
      var rest := SortByCount(s[1..]);
      SortDistinctTypes(s[1..]);
      forall y | y in rest
        ensures y.vtype != s[0].vtype
      {
        assert y in multiset(s[1..]);
      }
      InsertDistinctTypes(s[0], rest);
    }
  }

  /** The rows per body type, most frequent first; rows without a type are not counted. */
  function ValueCounts(v: seq<Record>): (r: seq<TypeCount>)
    ensures |r| <= |TypeColumn(v)|
    ensures TypeColumn(v) != [] ==> r != []
  {
    var col := TypeColumn(v);
    var d := FirstOccurrences(col);
    assert col != [] ==> col[0] in d;
    var r := SortByCount(Tally(col, d));
    assert |r| == |multiset(r)| == |d|;
    r
  }

  lemma {:induction false} SumTallyEmpty(d: seq<string>)
    ensures SumCounts(Tally([], d)) == 0
  {
    if d != [] {
      SumTallyEmpty(d[1..]);
      assert Tally([], d)[1..] == Tally([], d[1..]);
    }
  }

  /** Appending `x` to the column adds one to the total over distinct `d` exactly when `x`
      is among them. */
  lemma {:induction false} SumTallySnoc(col: seq<string>, x: string, d: seq<string>)
    requires Distinct(d)
    ensures SumCounts(Tally(col + [x], d)) == SumCounts(Tally(col, d)) + (if x in d then 1 else 0)
  {
    if d != [] {
      SumTallySnoc(col, x, d[1..]);
      assert Tally(col + [x], d)[1..] == Tally(col + [x], d[1..]);
      assert Tally(col, d)[1..] == Tally(col, d[1..]);
      assert (col + [x])[..|col + [x]| - 1] == col;
      assert x in d <==> x == d[0] || x in d[1..];
    }
  }

  /** Over distinct values that cover the column, the counts add up to the column's length. */
  lemma {:induction false} SumTally(col: seq<string>, d: seq<string>)
    requires Distinct(d)
    requires forall y :: y in col ==> y in d
    ensures SumCounts(Tally(col, d)) == |col|
  {
    if col == [] {
      SumTallyEmpty(d);
    } else {
      var init := col[..|col| - 1];
      assert col == init + [col[|col| - 1]];
      SumTally(init, d);
      SumTallySnoc(init, col[|col| - 1], d);
    }
  }

  /** Entry k of the bar table is a type present in the view, with its exact number of
      rows, at least one. */
  lemma {:induction false} ValueCountsExact(v: seq<Record>, k: nat)
    requires k < |ValueCounts(v)|
    ensures var e := ValueCounts(v)[k];
      e.vtype in TypeColumn(v) && e.count == Occurrences(TypeColumn(v), e.vtype) && e.count >= 1
  {
    var col := TypeColumn(v);
    var tally := Tally(col, FirstOccurrences(col));
    assert ValueCounts(v)[k] in multiset(tally);
  }

  /** Every type present in the view has an entry in the bar table. */
  lemma ValueCountsComplete(v: seq<Record>, x: string)
    requires x in TypeColumn(v)
    ensures exists k :: 0 <= k < |ValueCounts(v)| && ValueCounts(v)[k].vtype == x
  {
    var col := TypeColumn(v);
    var d := FirstOccurrences(col);
    var tally := Tally(col, d);
    var r := ValueCounts(v);
    var i :| 0 <= i < |d| && d[i] == x;
    assert tally[i] in multiset(r);
    var k :| 0 <= k < |r| && r[k] == tally[i];
    assert r[k].vtype == x;
  }

  /** No type has two entries in the bar table. */
  lemma ValueCountsDistinct(v: seq<Record>)
    ensures DistinctTypes(ValueCounts(v))
  {
    var col := TypeColumn(v);
    var tally := Tally(col, FirstOccurrences(col));
    assert DistinctTypes(tally);
    SortDistinctTypes(tally);
  }

  /** The counts do not increase down the bar table. */
  lemma ValueCountsSorted(v: seq<Record>)
    ensures NonIncreasing(ValueCounts(v))
  {
    var col := TypeColumn(v);
    SortNonIncreasing(Tally(col, FirstOccurrences(col)));
  }

  /** The counts add up to the number of rows whose type is present. */
  lemma {:induction false} ValueCountsTotal(v: seq<Record>)
    ensures SumCounts(ValueCounts(v)) == |TypeColumn(v)|
  {
    var col := TypeColumn(v);
    var d := FirstOccurrences(col);
    SortSum(Tally(col, d));
    SumTally(col, d);
  }

  // ----- Scalar metrics -----

  function Sum(xs: seq<int>): int {
    if xs == [] then 0 else Sum(xs[..|xs| - 1]) + xs[|xs| - 1]
  }

  /** The arithmetic mean of a non-empty column, as an exact rational. */
  function Mean(xs: seq<int>): (m: real)
    requires xs != []
    ensures m * |xs| as real == Sum(xs) as real
  {
    Sum(xs) as real / |xs| as real
  }

  lemma {:induction false} SumBounds(xs: seq<int>, lo: int, hi: int)
    requires forall k :: 0 <= k < |xs| ==> lo <= xs[k] <= hi
    ensures |xs| * lo <= Sum(xs) <= |xs| * hi
  {
    if xs != [] {
      var init := xs[..|xs| - 1];
      SumBounds(init, lo, hi);
      assert |xs| * lo == |init| * lo + lo;
      assert |xs| * hi == |init| * hi + hi;
    }
  }

  lemma QuotientBounds(total: real, n: real, lo: real, hi: real)
    requires n > 0.0 && lo * n <= total <= hi * n
    ensures lo <= total / n <= hi
  {
  }

  /** The mean lies between any lower and upper bound of the column. */
  lemma MeanWithin(xs: seq<int>, lo: int, hi: int)
    requires xs != []
    requires forall k :: 0 <= k < |xs| ==> lo <= xs[k] <= hi
    ensures lo as real <= Mean(xs) <= hi as real
  {
    var total, n := Sum(xs) as real, |xs| as real;
    SumBounds(xs, lo, hi);
    assert lo as real * n <= total by {
      assert (|xs| * lo) as real == lo as real * n;
    }
    assert total <= hi as real * n by {
      assert (|xs| * hi) as real == hi as real * n;
    }
    QuotientBounds(total, n, lo as real, hi as real);
  }

  function Prices(v: seq<Record>): seq<int> {
    seq(|v|, i requires 0 <= i < |v| => v[i].price)
  }

  function Odometers(v: seq<Record>): seq<int> {
    seq(|v|, i requires 0 <= i < |v| => v[i].odometer)
  }

  /** The three metrics of a view: average price, average odometer reading, vehicle count. */
  datatype Summary = Summary(meanPrice: real, meanOdometer: real, count: nat)

  /** The metrics of a non-empty view. */
  function Summarize(v: seq<Record>): (s: Summary)
    requires v != []
    ensures s.count == |v| && s.count >= 1
    ensures s.meanPrice * |Prices(v)| as real == Sum(Prices(v)) as real
    ensures s.meanOdometer * |Odometers(v)| as real == Sum(Odometers(v)) as real
  {
    Summary(Mean(Prices(v)), Mean(Odometers(v)), |v|)
  }
}
