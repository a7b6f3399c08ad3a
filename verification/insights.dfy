/**
 * The summary lines: the location holding the largest value of a column in
 * the snapshot, found as `idxmax` finds it.
 */
module Insights {
  import opened Wrappers
  import opened Table
  import opened Sorting

  /** Row k has a value in column m, and no snapshot row has a larger one. */
  ghost predicate IsHighest(s: seq<Row>, k: nat, m: Metric)
    requires k < |s|
  {
    Get(s[k], m).Some? && forall i :: 0 <= i < |s| ==> AtLeast(Get(s[k], m), Get(s[i], m))
  }

  /**
   * `idxmax`: the position of the first largest value of the column,
   * missing values skipped; `None` when the column has no value at all
   * (where the library raises instead of answering).
   */
  method IdxMax(s: seq<Row>, m: Metric) returns (k: Option<nat>)
    ensures k.None? <==> forall i :: 0 <= i < |s| ==> Get(s[i], m).None?
    ensures k.Some? ==> k.value < |s| && Get(s[k.value], m).Some?
    ensures k.Some? ==> forall i :: 0 <= i < |s| ==> AtLeast(Get(s[k.value], m), Get(s[i], m))
    ensures k.Some? ==> forall i :: 0 <= i < k.value ==> !AtLeast(Get(s[i], m), Get(s[k.value], m))
  {
    k := None;
    for i := 0 to |s|
      invariant k.None? <==> forall j :: 0 <= j < i ==> Get(s[j], m).None?
      invariant k.Some? ==> k.value < i && Get(s[k.value], m).Some?
      invariant k.Some? ==> forall j :: 0 <= j < i ==> AtLeast(Get(s[k.value], m), Get(s[j], m))
      invariant k.Some? ==> forall j :: 0 <= j < k.value ==> !AtLeast(Get(s[j], m), Get(s[k.value], m))
    {
      match Get(s[i], m)
      case Some(v) =>
        if k.None? || Get(s[k.value], m).value < v {
          k := Some(i);
        }
      case None =>
    }
  }

  /**
   * The location named by a "highest" summary line: one whose value in the
   * column is at least every snapshot row's value.
   */
  method Highest(snapshot: seq<Row>, m: Metric) returns (location: Option<string>)
    ensures location.None? <==> forall i :: 0 <= i < |snapshot| ==> Get(snapshot[i], m).None?
    ensures location.Some? ==>
      exists k :: 0 <= k < |snapshot| && snapshot[k].location == location.value && IsHighest(snapshot, k, m)
  {
    var k := IdxMax(snapshot, m);
    match k
    case Some(i) => location := Some(snapshot[i].location);
    case None => location := None;
  }
}
