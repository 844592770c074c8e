/**
 * One run of the page: clean the table, build the sidebar, filter, and show
 * either the results or the "no matching data" notice.
 */
module Dashboard {
  import opened Wrappers
  import opened Masks
  import opened Loading
  import opened Filters
  import opened Aggregation

  /** The results area: the notice for an empty view, or the view with its metrics and
      the bar table of vehicles per type. */
  datatype Panel = NoMatch | Results(view: seq<Record>, summary: Summary, typeCounts: seq<TypeCount>)

  /** Metrics and charts only for a non-empty view; the vehicle count is its length. */
  function Render(t: seq<Record>, sel: Selection): (p: Panel)
    ensures p.NoMatch? <==> Filter(t, sel) == []
    ensures p.Results? ==> p.view == Filter(t, sel) && p.summary.count == |p.view| && p.summary.count >= 1
    ensures p.Results? ==> p.summary == Summarize(p.view) && p.typeCounts == ValueCounts(p.view)
  {
    var v := Filter(t, sel);
    if v == [] then NoMatch else Results(v, Summarize(v), ValueCounts(v))
  }

  /**
   * The page for the rows read from the file and the widget state: `None` for
   * untouched widgets, which then hold their defaults. The result is `None`
   * when the page stops because the cleaned table is empty.
   */
  function Page(raw: seq<RawRecord>, chosen: Option<Selection>): (page: Option<Panel>)
    ensures page.None? <==> Clean(raw) == []
    ensures page.Some? && page.value.Results? ==> Subsequence(page.value.view, Clean(raw))
  {
    var t := Clean(raw);
    match BuildControls(t)
    case None => None
    case Some(c) =>
      var sel := chosen.GetOr(DefaultSelection(c));
      FilterSubsequence(t, sel);
      Some(Render(t, sel))
  }

  /** The page stops exactly when no raw row has all required cells. */
  lemma PageStops(raw: seq<RawRecord>, chosen: Option<Selection>)
    ensures Page(raw, chosen).None? <==> forall i :: 0 <= i < |raw| ==> !Complete(raw[i])
  {
    if Clean(raw) != [] {
      CleanMembers(raw, Clean(raw)[0]);
    }
    forall i | 0 <= i < |raw| && Complete(raw[i])
      ensures Clean(raw) != []
    {
      CleanMembers(raw, ToRecord(raw[i]));
    }
  }

  /** With the widgets untouched, the page shows the whole cleaned table and counts every
      vehicle in it. */
  lemma {:induction false} PageDefaultShowsAll(raw: seq<RawRecord>, i: nat)
    requires i < |raw| && Complete(raw[i])
    ensures var page := Page(raw, None);
      && page.Some? && page.value.Results?
      && page.value.view == Clean(raw)
      && page.value.summary.count == |Clean(raw)|
  {
    PageStops(raw, None);
    DefaultsKeepAll(Clean(raw));
  }
}
