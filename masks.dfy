/**
 * Boolean masks over a table and the rows they select.
 *
 * Indexing a data frame with a boolean mask keeps exactly the rows whose mask
 * entry is true, in their original order. `Positions` lists those rows, and
 * `Embeds` / `Subsequence` state "an order-preserving selection of rows".
 */
module Masks {

  /** The indices at which the mask is true, in increasing order. */
  function Positions(m: seq<bool>): (p: seq<nat>)
    ensures forall k :: 0 <= k < |p| ==> p[k] < |m| && m[p[k]]
    ensures forall j, k :: 0 <= j < k < |p| ==> p[j] < p[k]
    ensures forall i :: 0 <= i < |m| && m[i] ==> i in p
    decreases |m|
  {
    if m == [] then []
    else
      var init := m[..|m| - 1];
      assert forall i :: 0 <= i < |init| ==> init[i] == m[i];
      var p := Positions(init);
      if m[|m| - 1] then p + [|m| - 1] else p
  }

  /** `idx` maps the elements of `xs`, in order, to strictly increasing positions of `ys`. */
  ghost predicate Embeds<T>(xs: seq<T>, ys: seq<T>, idx: seq<nat>) {
    && |idx| == |xs|
    && (forall k :: 0 <= k < |idx| ==> idx[k] < |ys| && xs[k] == ys[idx[k]])
    && (forall j, k :: 0 <= j < k < |idx| ==> idx[j] < idx[k])
  }

  /** `xs` is `ys` with some elements left out and the rest kept in order. */
  ghost predicate Subsequence<T>(xs: seq<T>, ys: seq<T>) {
    exists idx :: Embeds(xs, ys, idx)
  }
}
