/**
 * The row sort behind `sort_values`. The model fixes one deterministic
 * policy: a stable sort, ascending on an integer key, with rows that have
 * no key (NaT, NaN) placed last.
 */
module Sorting {
  import opened Wrappers
  import opened Table

  /** Sort by date ascending, or by a metric descending. */
  datatype Order = ByDate | Descending(m: Metric)

  /** The sort key of a row; `None` (a missing date or value) sorts last. */
  function Key(r: Row, o: Order): Option<int> {
    match o
    case ByDate => (match r.date case Stamp(d) => Some(d) case _ => None)
    case Descending(m) => (match Get(r, m) case Some(v) => Some(-v) case None => None)
  }

  /** The order on keys: values ascending, a missing key after every value. */
  predicate KeyLe(a: Option<int>, b: Option<int>) {
    b.None? || (a.Some? && a.value <= b.value)
  }

  /** `a` ranks at least as high as `b` when ranking a column descending. */
  predicate AtLeast(a: Option<int>, b: Option<int>) {
    b.None? || (a.Some? && a.value >= b.value)
  }

  /** The descending key order is the order of `AtLeast` on the column. */
  lemma DescendingKeyIsAtLeast(x: Row, y: Row, m: Metric)
    ensures KeyLe(Key(x, Descending(m)), Key(y, Descending(m))) == AtLeast(Get(x, m), Get(y, m))
  {
  }

  ghost predicate Ordered(s: seq<Row>, o: Order) {
    forall i, j :: 0 <= i < j < |s| ==> KeyLe(Key(s[i], o), Key(s[j], o))
  }

  /**
   * Insert `x` into `t` after the last row whose key is not larger than
   * its own: this is what makes the sort stable.
   */
  function Insert(t: seq<Row>, x: Row, o: Order): (r: seq<Row>)
    ensures multiset(r) == multiset(t) + multiset{x}
    ensures |r| == |t| + 1
  {
    if t == [] || KeyLe(Key(t[|t| - 1], o), Key(x, o)) then t + [x]
    else
      assert t == t[..|t| - 1] + [t[|t| - 1]];
      Insert(t[..|t| - 1], x, o) + [t[|t| - 1]]
  }

  /** Inserting into an ordered sequence keeps it ordered. */
  lemma {:induction false} InsertOrdered(t: seq<Row>, x: Row, o: Order)
    requires Ordered(t, o)
    ensures Ordered(Insert(t, x, o), o)
  {
    if t != [] && !KeyLe(Key(t[|t| - 1], o), Key(x, o)) {
      var init, last := t[..|t| - 1], t[|t| - 1];
      assert t == init + [last];
      InsertOrdered(init, x, o);
      var front := Insert(init, x, o);
      assert Insert(t, x, o) == front + [last];
      forall k | 0 <= k < |front| ensures KeyLe(Key(front[k], o), Key(last, o)) {
        assert front[k] in multiset(front);
        assert front[k] in init || front[k] == x;
      }
    }
  }

  /** A stable sort of `s` in order `o`: the same rows, ordered. */
  function SortBy(s: seq<Row>, o: Order): (r: seq<Row>)
    ensures multiset(r) == multiset(s)
    ensures |r| == |s|
    ensures Ordered(r, o)
  {
    if s == [] then []
    else
      var init, last := s[..|s| - 1], s[|s| - 1];
      assert s == init + [last];
      InsertOrdered(SortBy(init, o), last, o);
      Insert(SortBy(init, o), last, o)
  }

  /** The rows of `s` whose key is `k`, in the order of `s`. */
  function WithKey(s: seq<Row>, o: Order, k: Option<int>): seq<Row>
  {
    if s == [] then []
    else WithKey(s[..|s| - 1], o, k) + Only(s[|s| - 1], o, k)
  }

  /** The rows of a single row that hold key `k`. */
  function Only(x: Row, o: Order, k: Option<int>): seq<Row> {
    if Key(x, o) == k then [x] else []
  }

  /** Insertion puts `x` after every row that shares its key. */
  lemma {:induction false} InsertStable(t: seq<Row>, x: Row, o: Order, k: Option<int>)
    ensures WithKey(Insert(t, x, o), o, k) == WithKey(t, o, k) + Only(x, o, k)
  {
    if t == [] || KeyLe(Key(t[|t| - 1], o), Key(x, o)) {
      var r := t + [x];
      assert Insert(t, x, o) == r;
      assert r[..|r| - 1] == t && r[|r| - 1] == x;
    } else {
      var init, last := t[..|t| - 1], t[|t| - 1];
      InsertStable(init, x, o, k);
      var front := Insert(init, x, o);
      var r := front + [last];
      assert Insert(t, x, o) == r;
      assert r[..|r| - 1] == front && r[|r| - 1] == last;
      assert WithKey(r, o, k) == WithKey(front, o, k) + Only(last, o, k);
      assert WithKey(t, o, k) == WithKey(init, o, k) + Only(last, o, k);
      if Key(x, o) == k {
        assert Only(last, o, k) == [];
        assert WithKey(t, o, k) == WithKey(init, o, k);
        assert WithKey(r, o, k) == WithKey(front, o, k);
      } else {
        assert Only(x, o, k) == [];
        assert WithKey(front, o, k) == WithKey(init, o, k);
        assert WithKey(t, o, k) + Only(x, o, k) == WithKey(t, o, k);
      }
    }
  }

  /**
   * The sort is stable: for every key, the rows holding it come out in the
   * order they went in.
   */
  lemma {:induction false} SortByIsStable(s: seq<Row>, o: Order, k: Option<int>)
    ensures WithKey(SortBy(s, o), o, k) == WithKey(s, o, k)
  {
    if s != [] {
      var init, last := s[..|s| - 1], s[|s| - 1];
      SortByIsStable(init, o, k);
      InsertStable(SortBy(init, o), last, o, k);
    }
  }
}
