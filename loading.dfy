/**
 * Loading and cleaning the listings table.
 *
 * A raw row may miss any cell. Cleaning keeps exactly the rows that have a
 * model year, an odometer reading, a price, a condition and a fuel; the
 * `model` and `type` cells may still be missing afterwards.
 */
module Loading {
  import opened Wrappers
  import opened Masks

  /** One row as read from the listings file; `None` is a missing cell. */
  datatype RawRecord = RawRecord(
    modelYear: Option<int>,
    odometer: Option<int>,
    price: Option<int>,
    condition: Option<string>,
    fuel: Option<string>,
    model: Option<string>,
    vtype: Option<string>)

  /** A row of the cleaned table: the five required cells are present by construction. */
  datatype Record = Record(
    modelYear: int,
    odometer: int,
    price: int,
    condition: string,
    fuel: string,
    model: Option<string>,
    vtype: Option<string>)

  /** None of the required cells is missing. */
  predicate Complete(r: RawRecord) {
    r.modelYear.Some? && r.odometer.Some? && r.price.Some? && r.condition.Some? && r.fuel.Some?
  }

  function ToRecord(r: RawRecord): Record
    requires Complete(r)
  {
    Record(r.modelYear.value, r.odometer.value, r.price.value, r.condition.value, r.fuel.value,
           r.model, r.vtype)
  }

  /** A clean row seen again as a raw row: the inverse of `ToRecord`. */
  function ToRaw(x: Record): (r: RawRecord)
    ensures Complete(r) && ToRecord(r) == x
  {
    RawRecord(Some(x.modelYear), Some(x.odometer), Some(x.price), Some(x.condition), Some(x.fuel),
              x.model, x.vtype)
  }

  /** The "no required cell missing" mask over the raw rows. */
  function CompleteMask(rows: seq<RawRecord>): seq<bool> {
    seq(|rows|, i requires 0 <= i < |rows| => Complete(rows[i]))
  }

  /** Drops every row with a missing required cell and keeps the others in order. */
  function Clean(rows: seq<RawRecord>): (t: seq<Record>)
    ensures |t| <= |rows|
    ensures forall k :: 0 <= k < |t| ==> ToRaw(t[k]) in rows
  {
    if rows == [] then []
    else
      var last := rows[|rows| - 1];
      var t := Clean(rows[..|rows| - 1]);
      if Complete(last) then t + [ToRecord(last)] else t
  }

  /**
   * The cleaned table is the raw table indexed by its "complete" mask: row k
   * of the result is the k-th complete raw row, and every complete raw row is
   * one of them.
   */
  lemma {:induction false} CleanSpec(rows: seq<RawRecord>)
    ensures var p := Positions(CompleteMask(rows));
      && |Clean(rows)| == |p|
      && forall k :: 0 <= k < |p| ==> Complete(rows[p[k]]) && Clean(rows)[k] == ToRecord(rows[p[k]])
  {
    if rows != [] {
      var init := rows[..|rows| - 1];
      CleanSpec(init);
      assert CompleteMask(rows)[..|rows| - 1] == CompleteMask(init);
    }
  }

  /** Every row of a cleaned table that came from a raw row did so from a complete one, and
      every complete raw row appears in the cleaned table. */
  lemma {:induction false} CleanMembers(rows: seq<RawRecord>, x: Record)
    ensures x in Clean(rows) <==> exists i :: 0 <= i < |rows| && Complete(rows[i]) && ToRecord(rows[i]) == x
  {
    var p := Positions(CompleteMask(rows));
    CleanSpec(rows);
    if x in Clean(rows) {
      var k :| 0 <= k < |Clean(rows)| && Clean(rows)[k] == x;
      assert Complete(rows[p[k]]) && ToRecord(rows[p[k]]) == x;
    }
    if exists i :: 0 <= i < |rows| && Complete(rows[i]) && ToRecord(rows[i]) == x {
      var i :| 0 <= i < |rows| && Complete(rows[i]) && ToRecord(rows[i]) == x;
      assert CompleteMask(rows)[i];
      var k :| 0 <= k < |p| && p[k] == i;
      assert Clean(rows)[k] == x;
    }
  }

  /** Cleaning a table that is already clean changes nothing. */
  lemma {:induction false} CleanIdempotent(t: seq<Record>)
    ensures Clean(seq(|t|, i requires 0 <= i < |t| => ToRaw(t[i]))) == t
  {
    if t != [] {
      var raw := seq(|t|, i requires 0 <= i < |t| => ToRaw(t[i]));
      var init := t[..|t| - 1];
      CleanIdempotent(init);
      assert raw[..|raw| - 1] == seq(|init|, i requires 0 <= i < |init| => ToRaw(init[i]));
      assert t == init + [t[|t| - 1]];
    }
  }
}
