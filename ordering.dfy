/**
 * The order in which the `lsh` method considers rows: sorted by the date
 * columns the frame has (year, month, day; else month, day; else none), ties
 * kept in positional order, and positions renumbered afterwards.
 */
module DateOrder {
  import opened Common
  import opened Frames

  /** Row `r` is strictly earlier than row `s` on the frame's date columns. */
  predicate KeyLess(dates: DateColumns, r: Row, s: Row)
  {
    match dates
    case YearMonthDay =>
      r.year < s.year || (r.year == s.year && (r.month < s.month || (r.month == s.month && r.day < s.day)))
    case MonthDay =>
      r.month < s.month || (r.month == s.month && r.day < s.day)
    case NoDates => false
  }

  /** Position `i` comes before position `j` in a stable sort: earlier date, or same date and smaller position. */
  predicate Before(dates: DateColumns, rows: seq<Row>, i: nat, j: nat)
    requires i < |rows| && j < |rows|
  {
    KeyLess(dates, rows[i], rows[j]) || (!KeyLess(dates, rows[j], rows[i]) && i < j)
  }

  /** `s` lists positions of `rows`. */
  predicate InRange(rows: seq<Row>, s: seq<nat>)
  {
    forall p :: 0 <= p < |s| ==> s[p] < |rows|
  }

  /** All positions are in range and listed in `Before` order. */
  predicate SortedBy(dates: DateColumns, rows: seq<Row>, s: seq<nat>)
  {
    InRange(rows, s) &&
    forall p, q :: 0 <= p < q < |s| ==> Before(dates, rows, s[p], s[q])
  }

  /** `x` inserted into `s` in front of the first element it comes before. */
  function InsertPosition(dates: DateColumns, rows: seq<Row>, x: nat, s: seq<nat>): (r: seq<nat>)
    requires x < |rows| && InRange(rows, s)
    ensures multiset(r) == multiset(s) + multiset{x}
    ensures InRange(rows, r)
  {
    if s == [] then [x]
    else if Before(dates, rows, x, s[0]) then [x] + s
    else
      assert s == [s[0]] + s[1..];
      [s[0]] + InsertPosition(dates, rows, x, s[1..])
  }

  /** Insertion sort of positions under `Before`. */
  function SortPositions(dates: DateColumns, rows: seq<Row>, s: seq<nat>): (r: seq<nat>)
    requires InRange(rows, s)
    ensures multiset(r) == multiset(s)
    ensures InRange(rows, r)
  {
    if s == [] then []
    else
      assert s == [s[0]] + s[1..];
      InsertPosition(dates, rows, s[0], SortPositions(dates, rows, s[1..]))
  }

  /** The positions of the frame's rows in sorted order. */
  function SortOrder(f: Frame): (order: seq<nat>)
    ensures InRange(f.rows, order)
  {
    SortPositions(f.dates, f.rows, Range(|f.rows|))
  }

  /** `sort_values(...).reset_index()`: the rows in sorted order, now at positions 0, 1, ... */
  function SortRows(f: Frame): (g: Frame)
    ensures g.dates == f.dates && |g.rows| == |f.rows|
    ensures forall i :: 0 <= i < |g.rows| ==> g.rows[i] in f.rows
    ensures forall i, j :: 0 <= i < j < |g.rows| ==> !KeyLess(f.dates, g.rows[j], g.rows[i])
  {
    SortOrderIsStableSort(f);
    Frame(f.dates, Select(f.rows, SortOrder(f)))
  }

  lemma BeforeIsStrictTotal(dates: DateColumns, rows: seq<Row>, i: nat, j: nat, k: nat)
    requires i < |rows| && j < |rows| && k < |rows|
    ensures !Before(dates, rows, i, i)
    ensures i != j ==> Before(dates, rows, i, j) || Before(dates, rows, j, i)
    ensures Before(dates, rows, i, j) && Before(dates, rows, j, k) ==> Before(dates, rows, i, k)
  {
  }

  /** A position that comes before every element of a sorted list can head it. */
  lemma SortedCons(dates: DateColumns, rows: seq<Row>, h: nat, t: seq<nat>)
    requires h < |rows| && SortedBy(dates, rows, t)
    requires forall q :: 0 <= q < |t| ==> Before(dates, rows, h, t[q])
    ensures SortedBy(dates, rows, [h] + t)
  {
  }

  /** Every element of `InsertPosition(x, s)` is `x` or an element of `s`. */
  lemma InsertPositionElements(dates: DateColumns, rows: seq<Row>, x: nat, s: seq<nat>, q: nat)
    requires x < |rows| && InRange(rows, s)
    requires q < |InsertPosition(dates, rows, x, s)|
    ensures InsertPosition(dates, rows, x, s)[q] == x || InsertPosition(dates, rows, x, s)[q] in s
  {
    var r := InsertPosition(dates, rows, x, s);
    assert r[q] in multiset(r);
  }

  lemma {:induction false} InsertPositionSorted(dates: DateColumns, rows: seq<Row>, x: nat, s: seq<nat>)
    requires x < |rows| && SortedBy(dates, rows, s) && x !in s
    ensures SortedBy(dates, rows, InsertPosition(dates, rows, x, s))
  {
    if s == [] {
    } else if !Before(dates, rows, x, s[0]) {
      var t := s[1..];
      BeforeIsStrictTotal(dates, rows, x, s[0], x);
      assert SortedBy(dates, rows, t) && x !in t;
      InsertPositionSorted(dates, rows, x, t);
      var r := InsertPosition(dates, rows, x, t);
      forall q | 0 <= q < |r| ensures Before(dates, rows, s[0], r[q]) {
        InsertPositionElements(dates, rows, x, t, q);
        if r[q] != x {
          var q' :| 0 <= q' < |t| && t[q'] == r[q];
          assert s[q' + 1] == r[q];
        }
      }
      SortedCons(dates, rows, s[0], r);
    } else {
      forall q | 0 <= q < |s| ensures Before(dates, rows, x, s[q]) {
        BeforeIsStrictTotal(dates, rows, x, s[0], s[q]);
      }
      SortedCons(dates, rows, x, s);
    }
  }

  /** Insertion sort of distinct positions lists them in `Before` order. */
  lemma {:induction false} SortPositionsSorted(dates: DateColumns, rows: seq<Row>, s: seq<nat>)
    requires InRange(rows, s)
    requires forall p, q :: 0 <= p < q < |s| ==> s[p] != s[q]
    ensures SortedBy(dates, rows, SortPositions(dates, rows, s))
  {
    if s != [] {
      SortPositionsSorted(dates, rows, s[1..]);
      var tail := SortPositions(dates, rows, s[1..]);
      forall q | 0 <= q < |s[1..]| ensures s[1..][q] != s[0] {
        assert s[1..][q] == s[q + 1];
      }
      assert s[0] !in multiset(s[1..]);
      assert s[0] !in multiset(tail);
      InsertPositionSorted(dates, rows, s[0], tail);
    }
  }

  /** An already sorted list of positions is left as it is. */
  lemma {:induction false} SortPositionsOfSorted(dates: DateColumns, rows: seq<Row>, s: seq<nat>)
    requires SortedBy(dates, rows, s)
    ensures SortPositions(dates, rows, s) == s
  {
    if s != [] {
      SortPositionsOfSorted(dates, rows, s[1..]);
      assert s == [s[0]] + s[1..];
    }
  }

  /**
   * The sort of the `lsh` method: every row appears exactly once (a
   * permutation of the positions), dates never decrease, and rows with equal
   * dates keep their original relative order.
   */
  lemma SortOrderIsStableSort(f: Frame)
    ensures |SortOrder(f)| == |f.rows|
    ensures multiset(SortOrder(f)) == multiset(Range(|f.rows|))
    ensures forall p, q :: 0 <= p < q < |f.rows| ==>
      !KeyLess(f.dates, f.rows[SortOrder(f)[q]], f.rows[SortOrder(f)[p]])
    ensures forall p, q ::
      (0 <= p < q < |f.rows| && !KeyLess(f.dates, f.rows[SortOrder(f)[p]], f.rows[SortOrder(f)[q]]))
      ==> SortOrder(f)[p] < SortOrder(f)[q]
  {
    var n := |f.rows|;
    assert |multiset(SortOrder(f))| == |multiset(Range(n))|;
    SortPositionsSorted(f.dates, f.rows, Range(n));
    forall p, q | 0 <= p < q < n ensures !KeyLess(f.dates, f.rows[SortOrder(f)[q]], f.rows[SortOrder(f)[p]]) {
      BeforeIsStrictTotal(f.dates, f.rows, SortOrder(f)[p], SortOrder(f)[q], SortOrder(f)[p]);
    }
  }

  /** Every row position appears in the sort order. */
  lemma SortOrderHas(f: Frame, a: nat) returns (p: nat)
    requires a < |f.rows|
    ensures p < |SortOrder(f)| && SortOrder(f)[p] == a
  {
    SortOrderIsStableSort(f);
    assert Range(|f.rows|)[a] == a;
    assert a in multiset(Range(|f.rows|));
    p :| 0 <= p < |SortOrder(f)| && SortOrder(f)[p] == a;
  }

  /** Rows already in date order (in particular, a frame without date columns) keep their positions. */
  lemma SortOfDateOrderedIsIdentity(f: Frame)
    requires forall i, j :: 0 <= i < j < |f.rows| ==> !KeyLess(f.dates, f.rows[j], f.rows[i])
    ensures SortOrder(f) == Range(|f.rows|)
    ensures SortRows(f) == f
  {
    var n := |f.rows|;
    assert SortedBy(f.dates, f.rows, Range(n));
    SortPositionsOfSorted(f.dates, f.rows, Range(n));
    assert Select(f.rows, Range(n)) == f.rows;
  }
}
