/** Stored sensor readings, as the statistics endpoints receive them from a query. */
module Readings {
  import opened Wrappers

  datatype Reading = Reading(id: nat, value: real, recordedAt: Option<real>)

  function Values(rows: seq<Reading>): (v: seq<real>)
    ensures |v| == |rows|
    ensures forall i :: 0 <= i < |rows| ==> v[i] == rows[i].value
  {
    seq(|rows|, i requires 0 <= i < |rows| => rows[i].value)
  }

  /** Python's `min` of a non-empty list. */
  function Min(values: seq<real>): (m: real)
    requires values != []
    ensures m in values
    ensures forall i :: 0 <= i < |values| ==> m <= values[i]
  {
    var k := |values| - 1;
    if k == 0 then values[0]
    else
      var rest := Min(values[..k]);
      if values[k] < rest then values[k] else rest
  }

  /** Python's `max` of a non-empty list. */
  function Max(values: seq<real>): (m: real)
    requires values != []
    ensures m in values
    ensures forall i :: 0 <= i < |values| ==> values[i] <= m
  {
    var k := |values| - 1;
    if k == 0 then values[0]
    else
      var rest := Max(values[..k]);
      if rest < values[k] then values[k] else rest
  }
}
