/**
 * The sidebar filter: the choices the widgets offer, their defaults, and the
 * conjunctive row mask applied to the cleaned table.
 */
module Filters {
  import opened Wrappers
  import opened Masks
  import opened Loading
  import opened Lexicographic

  /** What the three sidebar widgets hand to the filter. */
  datatype Selection = Selection(conditions: seq<string>, fuels: seq<string>, years: (int, int))

  /** The row passes all four parts of the mask; both year bounds are inclusive. */
  predicate Matches(sel: Selection, r: Record)
    ensures Matches(sel, r) ==> sel.conditions != [] && sel.fuels != [] && sel.years.0 <= sel.years.1
  {
    && r.condition in sel.conditions
    && r.fuel in sel.fuels
    && r.modelYear >= sel.years.0
    && r.modelYear <= sel.years.1
  }

  /** The boolean mask the filter indexes the table with. */
  function Mask(t: seq<Record>, sel: Selection): seq<bool> {
    seq(|t|, i requires 0 <= i < |t| => Matches(sel, t[i]))
  }

  /** The filtered view: the rows of `t` that match `sel`, in table order. */
  function Filter(t: seq<Record>, sel: Selection): (v: seq<Record>)
    ensures |v| <= |t|
    ensures forall k :: 0 <= k < |v| ==> Matches(sel, v[k]) && v[k] in t
  {
    if t == [] then []
    else
      var last := t[|t| - 1];
      var v := Filter(t[..|t| - 1], sel);
      if Matches(sel, last) then v + [last] else v
  }

  /** The filtered view is the table indexed by the mask: row k of the view is the k-th
      matching row, and every matching row is one of them. */
  lemma {:induction false} FilterSpec(t: seq<Record>, sel: Selection)
    ensures var p := Positions(Mask(t, sel));
      && |Filter(t, sel)| == |p|
      && forall k :: 0 <= k < |p| ==> Filter(t, sel)[k] == t[p[k]]
  {
    if t != [] {
      var init := t[..|t| - 1];
      FilterSpec(init, sel);
      assert Mask(t, sel)[..|t| - 1] == Mask(init, sel);
    }
  }

  /** The view is an order-preserving subsequence of the table. */
  lemma FilterSubsequence(t: seq<Record>, sel: Selection)
    ensures Subsequence(Filter(t, sel), t)
  {
    FilterSpec(t, sel);
    assert Embeds(Filter(t, sel), t, Positions(Mask(t, sel)));
  }

  /** A row is in the view exactly when it is in the table and matches. */
  lemma {:induction false} FilterMembers(t: seq<Record>, sel: Selection, r: Record)
    ensures r in Filter(t, sel) <==> r in t && Matches(sel, r)
  {
    if t != [] {
      var init := t[..|t| - 1];
      FilterMembers(init, sel, r);
      assert t == init + [t[|t| - 1]];
    }
  }

  /** An empty condition choice, an empty fuel choice or a reversed year range match nothing. */
  lemma FilterEmptySelection(t: seq<Record>, sel: Selection)
    requires sel.conditions == [] || sel.fuels == [] || sel.years.0 > sel.years.1
    ensures Filter(t, sel) == []
  {
  }

  /** When every row matches, the filter returns the whole table. */
  lemma {:induction false} FilterKeepsAll(t: seq<Record>, sel: Selection)
    requires forall k :: 0 <= k < |t| ==> Matches(sel, t[k])
    ensures Filter(t, sel) == t
  {
    if t != [] {
      var init := t[..|t| - 1];
      FilterKeepsAll(init, sel);
      assert t == init + [t[|t| - 1]];
    }
  }

  /** Filtering the view of a weaker selection by a stronger one equals filtering the
      table by the stronger one directly. */
  lemma {:induction false} FilterStrengthened(t: seq<Record>, weak: Selection, strong: Selection)
    requires forall r :: Matches(strong, r) ==> Matches(weak, r)
    ensures Filter(Filter(t, weak), strong) == Filter(t, strong)
  {
    if t != [] {
      var init := t[..|t| - 1];
      FilterStrengthened(init, weak, strong);
    }
  }

  /** `narrow` accepts no condition, no fuel and no year that `wide` does not. */
  predicate Narrower(narrow: Selection, wide: Selection) {
    && (forall c :: c in narrow.conditions ==> c in wide.conditions)
    && (forall f :: f in narrow.fuels ==> f in wide.fuels)
    && wide.years.0 <= narrow.years.0
    && narrow.years.1 <= wide.years.1
  }

  /** Shrinking a choice or narrowing the year range refines the previous view: the new view
      is the old one filtered again, hence a subsequence of it. */
  lemma FilterMonotone(t: seq<Record>, wide: Selection, narrow: Selection)
    requires Narrower(narrow, wide)
    ensures Filter(t, narrow) == Filter(Filter(t, wide), narrow)
    ensures Subsequence(Filter(t, narrow), Filter(t, wide))
  {
    FilterStrengthened(t, wide, narrow);
    FilterSubsequence(Filter(t, wide), narrow);
  }

  /** What the sidebar offers: the sorted distinct conditions and fuels and the observed
      model-year range. */
  datatype Controls = Controls(conditionOptions: seq<string>, fuelOptions: seq<string>,
                               minYear: int, maxYear: int)

  function ConditionColumn(t: seq<Record>): seq<string> {
    seq(|t|, i requires 0 <= i < |t| => t[i].condition)
  }

  function FuelColumn(t: seq<Record>): seq<string> {
    seq(|t|, i requires 0 <= i < |t| => t[i].fuel)
  }

  /** The smallest model year of a non-empty table. */
  function MinYear(t: seq<Record>): (y: int)
    requires t != []
    ensures exists k :: 0 <= k < |t| && t[k].modelYear == y
    ensures forall k :: 0 <= k < |t| ==> y <= t[k].modelYear
  {
    if |t| == 1 then t[0].modelYear
    else
      var m := MinYear(t[..|t| - 1]);
      if t[|t| - 1].modelYear < m then t[|t| - 1].modelYear else m
  }

  /** The largest model year of a non-empty table. */
  function MaxYear(t: seq<Record>): (y: int)
    requires t != []
    ensures exists k :: 0 <= k < |t| && t[k].modelYear == y
    ensures forall k :: 0 <= k < |t| ==> t[k].modelYear <= y
  {
    if |t| == 1 then t[0].modelYear
    else
      var m := MaxYear(t[..|t| - 1]);
      if t[|t| - 1].modelYear > m then t[|t| - 1].modelYear else m
  }

  /**
   * The sidebar's options. The year bounds are the column's minimum and maximum
   * converted to integers; on an empty table the minimum is NaN, the conversion
   * raises and the page stops, which is `None` here.
   */
  function BuildControls(t: seq<Record>): (c: Option<Controls>)
    ensures c.None? <==> t == []
  {
    if t == [] then None
    else Some(Controls(SortedUnique(ConditionColumn(t)), SortedUnique(FuelColumn(t)),
                       MinYear(t), MaxYear(t)))
  }

  /** The options are strictly sorted, repeat nothing and are exactly the values in the
      table; the year bounds are attained and enclose every row. */
  lemma ControlsSpec(t: seq<Record>)
    requires t != []
    ensures var c := BuildControls(t).value;
      && StrictlySorted(c.conditionOptions)
      && StrictlySorted(c.fuelOptions)
      && (forall j, k :: 0 <= j < k < |c.conditionOptions| ==> c.conditionOptions[j] != c.conditionOptions[k])
      && (forall j, k :: 0 <= j < k < |c.fuelOptions| ==> c.fuelOptions[j] != c.fuelOptions[k])
      && (forall x :: x in c.conditionOptions <==> exists k :: 0 <= k < |t| && t[k].condition == x)
      && (forall x :: x in c.fuelOptions <==> exists k :: 0 <= k < |t| && t[k].fuel == x)
      && c.minYear <= c.maxYear
      && (exists k :: 0 <= k < |t| && t[k].modelYear == c.minYear)
      && (exists k :: 0 <= k < |t| && t[k].modelYear == c.maxYear)
      && (forall k :: 0 <= k < |t| ==> c.minYear <= t[k].modelYear <= c.maxYear)
  {
    var c := BuildControls(t).value;
    StrictlySortedDistinct(c.conditionOptions);
    StrictlySortedDistinct(c.fuelOptions);
    forall x
      ensures x in c.conditionOptions <==> exists k :: 0 <= k < |t| && t[k].condition == x
    {
      if x in ConditionColumn(t) {
        var k :| 0 <= k < |t| && ConditionColumn(t)[k] == x;
        assert t[k].condition == x;
      }
      if exists k :: 0 <= k < |t| && t[k].condition == x {
        var k :| 0 <= k < |t| && t[k].condition == x;
        assert ConditionColumn(t)[k] == x;
      }
    }
    forall x
      ensures x in c.fuelOptions <==> exists k :: 0 <= k < |t| && t[k].fuel == x
    {
      if x in FuelColumn(t) {
        var k :| 0 <= k < |t| && FuelColumn(t)[k] == x;
        assert t[k].fuel == x;
      }
      if exists k :: 0 <= k < |t| && t[k].fuel == x {
        var k :| 0 <= k < |t| && t[k].fuel == x;
        assert FuelColumn(t)[k] == x;
      }
    }
    assert c.minYear <= t[0].modelYear <= c.maxYear;
  }

  /** What the widgets can hand over: chosen options only, and a range inside the slider's
      bounds with its lower end not above its upper end. */
  predicate WidgetSelection(c: Controls, sel: Selection) {
    && (forall x :: x in sel.conditions ==> x in c.conditionOptions)
    && (forall x :: x in sel.fuels ==> x in c.fuelOptions)
    && c.minYear <= sel.years.0 <= sel.years.1 <= c.maxYear
  }

  /** Every option selected and the full year range: the widgets' initial state, and the
      widest selection they can hand over. */
  function DefaultSelection(c: Controls): (s: Selection)
    ensures c.minYear <= c.maxYear ==> WidgetSelection(c, s)
    ensures forall sel :: WidgetSelection(c, sel) ==> Narrower(sel, s)
  {
    Selection(c.conditionOptions, c.fuelOptions, (c.minYear, c.maxYear))
  }

  /** With the widgets untouched the filtered view is the whole cleaned table. */
  lemma DefaultsKeepAll(t: seq<Record>)
    requires t != []
    ensures Filter(t, DefaultSelection(BuildControls(t).value)) == t
  {
    var sel := DefaultSelection(BuildControls(t).value);
    ControlsSpec(t);
    FilterKeepsAll(t, sel);
  }
}
