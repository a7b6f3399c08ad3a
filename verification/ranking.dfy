/**
 * The top-N tables: the snapshot sorted descending by a count column, and
 * its first N rows.
 */
module Ranking {
  import opened Wrappers
  import opened Table
  import opened Sorting

  /** How many rows each bar chart shows. */
  const TOP_COUNT: nat := 10

  function Min(a: nat, b: nat): nat {
    if a <= b then a else b
  }

  /** The first n snapshot rows once ranked by column m, largest first (main.py:51). */
  function Top(snapshot: seq<Row>, m: Metric, n: nat): seq<Row> {
    var ranked := SortBy(snapshot, Descending(m));
    ranked[..Min(n, |ranked|)]
  }

  /**
   * The top-N holds min(N, |snapshot|) rows of the snapshot, non-increasing
   * in the column, with missing values last.
   */
  lemma TopIsRankedSubset(snapshot: seq<Row>, m: Metric, n: nat)
    ensures |Top(snapshot, m, n)| == Min(n, |snapshot|)
    ensures forall i, j :: 0 <= i < j < |Top(snapshot, m, n)| ==>
      AtLeast(Get(Top(snapshot, m, n)[i], m), Get(Top(snapshot, m, n)[j], m))
    ensures multiset(Top(snapshot, m, n)) <= multiset(snapshot)
  {
    var ranked := SortBy(snapshot, Descending(m));
    var top := Top(snapshot, m, n);
    assert ranked == top + ranked[|top|..];
    assert multiset(ranked) == multiset(top) + multiset(ranked[|top|..]);
    forall i, j | 0 <= i < j < |top| ensures AtLeast(Get(top[i], m), Get(top[j], m)) {
      assert top[i] == ranked[i] && top[j] == ranked[j];
      DescendingKeyIsAtLeast(top[i], top[j], m);
    }
  }

  /** What a prefix leaves of a sequence is the rest of it. */
  lemma PrefixDifference(s: seq<Row>, k: nat)
    requires k <= |s|
    ensures multiset(s) - multiset(s[..k]) == multiset(s[k..])
  {
    assert s == s[..k] + s[k..];
  }

  /** In an ordered sequence every row after position k - 1 has a key at least as large. */
  lemma OrderedSuffix(ranked: seq<Row>, o: Order, k: nat)
    requires Ordered(ranked, o)
    requires 0 < k <= |ranked|
    ensures forall x :: x in ranked[k..] ==> KeyLe(Key(ranked[k - 1], o), Key(x, o))
  {
    forall x | x in ranked[k..] ensures KeyLe(Key(ranked[k - 1], o), Key(x, o)) {
      var j :| 0 <= j < |ranked[k..]| && ranked[k..][j] == x;
      assert ranked[k + j] == x;
    }
  }

  /** Every snapshot row left out of the top-N ranks no higher than the last row kept. */
  lemma TopLeavesOutNoHigher(snapshot: seq<Row>, m: Metric, n: nat)
    ensures n > 0 ==> forall x :: x in multiset(snapshot) - multiset(Top(snapshot, m, n)) ==>
      Top(snapshot, m, n) != [] && AtLeast(Get(Top(snapshot, m, n)[|Top(snapshot, m, n)| - 1], m), Get(x, m))
  {
    var ranked := SortBy(snapshot, Descending(m));
    var top := Top(snapshot, m, n);
    var k := |top|;
    assert top == ranked[..k];
    PrefixDifference(ranked, k);
    if k > 0 {
      OrderedSuffix(ranked, Descending(m), k);
    }
    forall x | n > 0 && x in multiset(ranked[k..]) ensures top != [] && AtLeast(Get(top[k - 1], m), Get(x, m)) {
      assert x in ranked[k..];
      DescendingKeyIsAtLeast(ranked[k - 1], x, m);
    }
  }

  /** The vaccination total of the cleaned table is positive, so its reports are shown (main.py:112). */
  predicate VaccinationReported(cleaned: seq<Row>) {
    ColumnSum(cleaned, TotalVaccinations) > 0
  }

  /** The vaccination top-N, produced only when vaccinations were reported. */
  function TopVaccinations(cleaned: seq<Row>, snapshot: seq<Row>): Option<seq<Row>> {
    if VaccinationReported(cleaned) then Some(Top(snapshot, TotalVaccinations, TOP_COUNT)) else None
  }

  /** A column holding only zeros sums to zero. */
  lemma {:induction false} ZeroColumnSum(rows: seq<Row>, m: Metric)
    requires forall i :: 0 <= i < |rows| ==> Get(rows[i], m) == Some(0)
    ensures ColumnSum(rows, m) == 0
  {
    if rows != [] {
      ZeroColumnSum(rows[1..], m);
    }
  }
}
