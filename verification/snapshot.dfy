/**
 * The latest snapshot: the table sorted by date, then the last row of each
 * location; and the population fallback applied to that snapshot.
 */
module Snapshot {
  import opened Wrappers
  import opened Table
  import opened Sorting

  /**
   * Keep a row exactly when no later row has the same location (the last
   * row of each location group), in the order of `s`.
   */
  function LastPerLocation(s: seq<Row>): seq<Row> {
    if s == [] then []
    else if s[0].location in Locations(s[1..]) then LastPerLocation(s[1..])
    else [s[0]] + LastPerLocation(s[1..])
  }

  /** `y` occurs in `s` at a position after which its location never recurs. */
  ghost predicate LastOfLocation(s: seq<Row>, y: Row) {
    exists i :: 0 <= i < |s| && s[i] == y && forall j :: i < j < |s| ==> s[j].location != y.location
  }

  /** The last row of each group: one row per location of `s`. */
  lemma {:induction false} LastPerLocationCoversLocations(s: seq<Row>)
    ensures Locations(LastPerLocation(s)) == Locations(s)
    ensures |LastPerLocation(s)| == |Locations(s)|
  {
    if s != [] {
      LastPerLocationCoversLocations(s[1..]);
      LocationsCons(s);
      if s[0].location !in Locations(s[1..]) {
        var r := LastPerLocation(s);
        assert r[1..] == LastPerLocation(s[1..]);
        LocationsCons(r);
      }
    }
  }

  /** No two rows of the last-row table share a location. */
  lemma {:induction false} LastPerLocationDistinct(s: seq<Row>)
    ensures forall i, j :: 0 <= i < j < |LastPerLocation(s)| ==>
      LastPerLocation(s)[i].location != LastPerLocation(s)[j].location
  {
    if s != [] {
      LastPerLocationDistinct(s[1..]);
      if s[0].location !in Locations(s[1..]) {
        var rest := LastPerLocation(s[1..]);
        var r := LastPerLocation(s);
        assert r == [s[0]] + rest;
        LastPerLocationCoversLocations(s[1..]);
        forall i, j | 0 <= i < j < |r| ensures r[i].location != r[j].location {
          assert r[j] == rest[j - 1] && r[j] in rest;
          if i > 0 { assert r[i] == rest[i - 1]; }
        }
      }
    }
  }

  /** Each row kept is the final occurrence of its location in `s`. */
  lemma {:induction false} LastPerLocationKeepsLast(s: seq<Row>)
    ensures forall k :: 0 <= k < |LastPerLocation(s)| ==> LastOfLocation(s, LastPerLocation(s)[k])
  {
    if s != [] {
      var rest := LastPerLocation(s[1..]);
      LastPerLocationKeepsLast(s[1..]);
      forall k | 0 <= k < |rest| ensures LastOfLocation(s, rest[k]) {
        var i :| 0 <= i < |s[1..]| && s[1..][i] == rest[k]
          && forall j :: i < j < |s[1..]| ==> s[1..][j].location != rest[k].location;
        assert s[i + 1] == rest[k];
        forall j | i + 1 < j < |s| ensures s[j].location != rest[k].location {
          assert s[j] == s[1..][j - 1];
        }
      }
      if s[0].location !in Locations(s[1..]) {
        var r := LastPerLocation(s);
        assert r == [s[0]] + rest;
        forall j | 0 < j < |s| ensures s[j].location != s[0].location {
          assert s[j] in s[1..];
        }
        assert LastOfLocation(s, r[0]);
        forall k | 0 <= k < |r| ensures LastOfLocation(s, r[k]) {
          if k > 0 { assert r[k] == rest[k - 1]; }
        }
      }
    }
  }

  /** `latest_data`: the table sorted by date, last row per location. */
  function Latest(rows: seq<Row>): seq<Row> {
    LastPerLocation(SortBy(rows, ByDate))
  }

  lemma LocationsOfPermutation(a: seq<Row>, b: seq<Row>)
    requires multiset(a) == multiset(b)
    ensures Locations(a) == Locations(b)
  {
    assert forall r :: r in a <==> r in multiset(a);
    assert forall r :: r in b <==> r in multiset(b);
  }

  /**
   * The snapshot has exactly one row per distinct location of the table;
   * that row is one of the location's rows, and no row of the location has
   * a later date (a row without a date counts as later than any date).
   */
  lemma LatestIsLastRowPerLocation(rows: seq<Row>)
    ensures Locations(Latest(rows)) == Locations(rows)
    ensures |Latest(rows)| == |Locations(rows)|
    ensures forall i, j :: 0 <= i < j < |Latest(rows)| ==> Latest(rows)[i].location != Latest(rows)[j].location
    ensures forall k :: 0 <= k < |Latest(rows)| ==> Latest(rows)[k] in rows
    ensures forall k, x :: 0 <= k < |Latest(rows)| && x in rows && x.location == Latest(rows)[k].location ==>
      KeyLe(Key(x, ByDate), Key(Latest(rows)[k], ByDate))
  {
    var sorted := SortBy(rows, ByDate);
    var r := Latest(rows);
    LastPerLocationCoversLocations(sorted);
    LastPerLocationDistinct(sorted);
    LastPerLocationKeepsLast(sorted);
    LocationsOfPermutation(sorted, rows);
    forall k | 0 <= k < |r| ensures r[k] in rows && forall x :: x in rows && x.location == r[k].location ==>
      KeyLe(Key(x, ByDate), Key(r[k], ByDate))
    {
      var i :| 0 <= i < |sorted| && sorted[i] == r[k]
        && forall j :: i < j < |sorted| ==> sorted[j].location != r[k].location;
      assert sorted[i] in multiset(rows);
      forall x | x in rows && x.location == r[k].location ensures KeyLe(Key(x, ByDate), Key(r[k], ByDate)) {
        assert x in multiset(sorted);
        var j :| 0 <= j < |sorted| && sorted[j] == x;
        assert j <= i;
      }
    }
  }

  /**
   * `y` is the final row of `s` among those that share its location and
   * its key: every later row of the location has a different key.
   */
  ghost predicate LastAmongTies(s: seq<Row>, y: Row, o: Order) {
    exists i :: 0 <= i < |s| && s[i] == y &&
      forall j :: i < j < |s| && s[j].location == y.location ==> Key(s[j], o) != Key(y, o)
  }

  /** The final row of a location is also final among the rows holding its key. */
  lemma {:induction false} LastOfLocationWithKey(r: seq<Row>, y: Row, o: Order)
    requires LastOfLocation(r, y)
    ensures LastOfLocation(WithKey(r, o, Key(y, o)), y)
  {
    var k := Key(y, o);
    var p :| 0 <= p < |r| && r[p] == y && forall j :: p < j < |r| ==> r[j].location != y.location;
    var init, z := r[..|r| - 1], r[|r| - 1];
    var f := WithKey(r, o, k);
    assert f == WithKey(init, o, k) + Only(z, o, k);
    if p == |r| - 1 {
      assert f[|f| - 1] == y;
    } else {
      assert LastOfLocation(init, y) by {
        assert init[p] == y;
        assert forall j :: p < j < |init| ==> init[j] == r[j];
      }
      LastOfLocationWithKey(init, y, o);
      var g := WithKey(init, o, k);
      var q :| 0 <= q < |g| && g[q] == y && forall j :: q < j < |g| ==> g[j].location != y.location;
      assert z.location != y.location;
      forall j | q < j < |f| ensures f[j].location != y.location {
        if j < |g| { assert f[j] == g[j]; } else { assert f[j] == z; }
      }
      assert f[q] == y;
    }
  }

  /** A row final among the rows holding its key is final among its ties in the input. */
  lemma {:induction false} LastWithKeyIsLastAmongTies(s: seq<Row>, y: Row, o: Order)
    requires LastOfLocation(WithKey(s, o, Key(y, o)), y)
    ensures LastAmongTies(s, y, o)
  {
    var k := Key(y, o);
    var f := WithKey(s, o, k);
    var q :| 0 <= q < |f| && f[q] == y && forall j :: q < j < |f| ==> f[j].location != y.location;
    var init, z := s[..|s| - 1], s[|s| - 1];
    var g := WithKey(init, o, k);
    assert f == g + Only(z, o, k);
    if Key(z, o) != k {
      assert f == g;
      LastWithKeyIsLastAmongTies(init, y, o);
      var i :| 0 <= i < |init| && init[i] == y &&
        forall j :: i < j < |init| && init[j].location == y.location ==> Key(init[j], o) != k;
      assert s[i] == y;
      forall j | i < j < |s| && s[j].location == y.location ensures Key(s[j], o) != k {
        if j < |init| { assert s[j] == init[j]; }
      }
    } else if q == |f| - 1 {
      assert f[q] == z;
      assert s[|s| - 1] == y;
    } else {
      assert f[|f| - 1] == z;
      assert z.location != y.location;
      assert LastOfLocation(g, y) by {
        assert g[q] == f[q];
        assert forall j :: q < j < |g| ==> g[j] == f[j];
      }
      LastWithKeyIsLastAmongTies(init, y, o);
      var i :| 0 <= i < |init| && init[i] == y &&
        forall j :: i < j < |init| && init[j].location == y.location ==> Key(init[j], o) != k;
      assert s[i] == y;
      forall j | i < j < |s| && s[j].location == y.location ensures Key(s[j], o) != k {
        if j < |init| { assert s[j] == init[j]; }
      }
    }
  }

  /**
   * The tie-break of the snapshot: when several rows of a location share its
   * latest date, the one kept is the last of them in the order of the input.
   */
  lemma LatestBreaksTiesByInputOrder(rows: seq<Row>)
    ensures forall k :: 0 <= k < |Latest(rows)| ==> LastAmongTies(rows, Latest(rows)[k], ByDate)
  {
    var sorted := SortBy(rows, ByDate);
    LastPerLocationKeepsLast(sorted);
    forall k | 0 <= k < |Latest(rows)| ensures LastAmongTies(rows, Latest(rows)[k], ByDate) {
      var y := Latest(rows)[k];
      LastOfLocationWithKey(sorted, y, ByDate);
      SortByIsStable(rows, ByDate, Key(y, ByDate));
      LastWithKeyIsLastAmongTies(rows, y, ByDate);
    }
  }

  /** On a cleaned table the snapshot row of a location carries its latest date. */
  lemma LatestHasMaximalDate(rows: seq<Row>)
    requires AllStamped(rows)
    ensures forall k, x :: 0 <= k < |Latest(rows)| && x in rows && x.location == Latest(rows)[k].location ==>
      Latest(rows)[k].date.Stamp? && x.date.Stamp? && x.date.day <= Latest(rows)[k].date.day
  {
    LatestIsLastRowPerLocation(rows);
    forall k | 0 <= k < |Latest(rows)| ensures Latest(rows)[k].date.Stamp? {
      assert Latest(rows)[k] in rows;
    }
  }

  /** A day of "Testland" with the given date and total cases. */
  function TestlandDay(d: Date, cases: int): Row {
    Row("Testland", Stamp(d), Some(cases), Some(0), Some(0), Some(0), Some(0), Some(100))
  }

  /**
   * Three days of one location with totals 10, 20 and 30 leave one snapshot
   * row: the third day's.
   */
  lemma TestlandSnapshot()
    ensures Latest([TestlandDay(1, 10), TestlandDay(2, 20), TestlandDay(3, 30)]) == [TestlandDay(3, 30)]
  {
    var rows := [TestlandDay(1, 10), TestlandDay(2, 20), TestlandDay(3, 30)];
    assert rows[..2][..1] == [TestlandDay(1, 10)];
    assert SortBy(rows[..2][..1], ByDate) == [TestlandDay(1, 10)];
    assert SortBy(rows[..2], ByDate) == [TestlandDay(1, 10), TestlandDay(2, 20)];
    assert SortBy(rows, ByDate) == rows;
    assert TestlandDay(3, 30) in rows[1..] && TestlandDay(3, 30) in rows[2..];
    assert "Testland" in Locations(rows[1..]);
    assert "Testland" in Locations(rows[1..][1..]);
    assert LastPerLocation(rows[2..]) == [TestlandDay(3, 30)];
  }

  // The population fallback: three successive rewrites of the column.

  /** `latest_data['population'] = 1` on a snapshot without the column. */
  function SetPopulation(rows: seq<Row>): seq<Row> {
    seq(|rows|, i requires 0 <= i < |rows| => Set(rows[i], Population, Some(1)))
  }

  /** A missing population becomes 1 (main.py:97). */
  function FillPopulationNa(rows: seq<Row>): seq<Row> {
    seq(|rows|, i requires 0 <= i < |rows| =>
      if rows[i].population == None then Set(rows[i], Population, Some(1)) else rows[i])
  }

  /** A zero population becomes 1 (main.py:99). */
  function ReplaceZeroPopulation(rows: seq<Row>): seq<Row> {
    seq(|rows|, i requires 0 <= i < |rows| =>
      if rows[i].population == Some(0) then Set(rows[i], Population, Some(1)) else rows[i])
  }

  function PopulationColumns(columns: seq<string>): seq<string> {
    if "population" in columns then columns else columns + ["population"]
  }

  function PopulationRows(columns: seq<string>, rows: seq<Row>): seq<Row> {
    var withColumn := if "population" in columns then rows else SetPopulation(rows);
    ReplaceZeroPopulation(FillPopulationNa(withColumn))
  }

  /**
   * After the fallback every snapshot row has a present, non-zero
   * population; a present non-zero population of a frame that had the
   * column is kept; missing or zero ones become 1; nothing else changes.
   */
  lemma PopulationFallbackSpec(columns: seq<string>, rows: seq<Row>)
    ensures "population" in PopulationColumns(columns)
    ensures |PopulationRows(columns, rows)| == |rows|
    ensures forall i :: 0 <= i < |rows| ==>
      PopulationRows(columns, rows)[i].population.Some? && PopulationRows(columns, rows)[i].population.value != 0
    ensures forall i :: 0 <= i < |rows| ==>
      PopulationRows(columns, rows)[i].population ==
        if "population" in columns && rows[i].population != None && rows[i].population != Some(0)
        then rows[i].population else Some(1)
    ensures forall i, m :: 0 <= i < |rows| && m != Population ==> Get(PopulationRows(columns, rows)[i], m) == Get(rows[i], m)
    ensures forall i :: 0 <= i < |rows| ==>
      PopulationRows(columns, rows)[i].location == rows[i].location &&
      PopulationRows(columns, rows)[i].date == rows[i].date
  {
  }

  /** The fallback only writes the population column, which the frame then has. */
  lemma PopulationFallbackKeepsConsistent(columns: seq<string>, rows: seq<Row>)
    requires Consistent(columns, rows)
    ensures Consistent(PopulationColumns(columns), PopulationRows(columns, rows))
    ensures forall i :: 0 <= i < |rows| && rows[i].population.Some? && rows[i].population.value != 0 ==>
      PopulationRows(columns, rows)[i].population == rows[i].population
  {
    PopulationFallbackSpec(columns, rows);
    var cs, rs := PopulationColumns(columns), PopulationRows(columns, rows);
    forall m, i | Name(m) !in cs && 0 <= i < |rs| ensures Get(rs[i], m) == None {
      assert Name(m) !in columns;
    }
    if "population" !in columns {
      assert Name(Population) !in columns;
      forall i | 0 <= i < |rows| ensures rows[i].population == None {
        assert Get(rows[i], Population) == None;
      }
    }
  }
}
