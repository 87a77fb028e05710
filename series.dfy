/** `Series.mode()` as the summary uses it: the most frequent non-missing
    values of a series, of which the summary takes the first. */
module Series {
  import opened Frames

  /** How often `v` occurs in `vals`. */
  function Count(vals: seq<Value>, v: Value): nat {
    multiset(vals)[v]
  }

  /** The earliest non-missing candidate that occurs in `vals` at least as
      often as every other non-missing candidate. */
  function MostFrequentAmong(cands: seq<Value>, vals: seq<Value>): (r: Option<Value>)
    ensures r.None? <==> forall i :: 0 <= i < |cands| ==> cands[i] == Missing
    ensures r.Some? ==> r.value != Missing && r.value in cands
    ensures r.Some? ==> forall i :: 0 <= i < |cands| && cands[i] != Missing ==>
      Count(vals, cands[i]) <= Count(vals, r.value)
  {
    if cands == [] then None
    else
      var rest := MostFrequentAmong(cands[1..], vals);
      assert forall i :: 1 <= i < |cands| ==> cands[i] == cands[1..][i - 1];
      if cands[0] == Missing then rest
      else if rest.None? || Count(vals, cands[0]) >= Count(vals, rest.value) then Some(cands[0])
      else rest
  }

  /** `values.mode().iloc[0]` when the mode is not empty, `None` when it
      is: a non-missing value of the series that no other non-missing
      value outnumbers; the mode is empty exactly when every value is
      missing. */
  function Mode(vals: seq<Value>): (r: Option<Value>)
    ensures r.None? <==> forall i :: 0 <= i < |vals| ==> vals[i] == Missing
    ensures r.Some? ==> r.value != Missing && r.value in vals
    ensures r.Some? ==> forall i :: 0 <= i < |vals| && vals[i] != Missing ==>
      Count(vals, vals[i]) <= Count(vals, r.value)
  {
    MostFrequentAmong(vals, vals)
  }
}
