/**
 * The rows of a listings frame and the "drop these positions" operation that
 * both duplicate-cleaning methods end with (`drop_duplicates`, `drop(set(...))`).
 */
module Frames {
  import opened Common

  /** One listing: its index label (`indexLabel`), its text and its scrape date fields. */
  datatype Row = Row(indexLabel: int, text: string, year: int, month: int, day: int)

  /** Which of the date columns `scraped_year`, `scraped_month`, `scraped_day` the frame has. */
  datatype DateColumns = YearMonthDay | MonthDay | NoDates

  /** A frame: its date columns and its rows in positional order. */
  datatype Frame = Frame(dates: DateColumns, rows: seq<Row>)

  /** The texts of the rows, by position. */
  function Texts(rows: seq<Row>): (texts: seq<string>)
    ensures |texts| == |rows|
    ensures forall i :: 0 <= i < |rows| ==> texts[i] == rows[i].text
  {
    seq(|rows|, i requires 0 <= i < |rows| => rows[i].text)
  }

  /** The positions below `n` that are not in `drop`, in increasing order. */
  function KeptIndices(n: nat, drop: set<nat>): (idx: seq<nat>)
    ensures forall p :: 0 <= p < |idx| ==> idx[p] < n && idx[p] !in drop
    ensures forall p, q :: 0 <= p < q < |idx| ==> idx[p] < idx[q]
    ensures forall i: nat :: i < n && i !in drop ==> i in idx
  {
    if n == 0 then [] else KeptIndices(n - 1, drop) + (if n - 1 in drop then [] else [n - 1])
  }

  /** The members of `drop` that are positions below `n`. */
  function DroppedBelow(n: nat, drop: set<nat>): (d: set<nat>)
  {
    set i: nat | i < n && i in drop
  }

  /** Each position is dropped at most once: the kept positions number `n` less the dropped ones. */
  lemma {:induction false} KeptIndicesCount(n: nat, drop: set<nat>)
    ensures |KeptIndices(n, drop)| == n - |DroppedBelow(n, drop)|
  {
    if n > 0 {
      KeptIndicesCount(n - 1, drop);
      DroppedBelowStep(n - 1, drop);
    }
  }

  lemma DroppedBelowStep(n: nat, drop: set<nat>)
    ensures n in drop ==> DroppedBelow(n + 1, drop) == DroppedBelow(n, drop) + {n} && n !in DroppedBelow(n, drop)
    ensures n !in drop ==> DroppedBelow(n + 1, drop) == DroppedBelow(n, drop)
  {
  }

  /** Dropping nothing keeps every position. */
  lemma {:induction false} KeptIndicesNone(n: nat)
    ensures KeptIndices(n, {}) == Range(n)
  {
    if n > 0 {
      KeptIndicesNone(n - 1);
    }
  }

  /** The rows at the positions `idx`, in that order. */
  function Select(rows: seq<Row>, idx: seq<nat>): (r: seq<Row>)
    requires forall p :: 0 <= p < |idx| ==> idx[p] < |rows|
    ensures |r| == |idx|
    ensures forall p :: 0 <= p < |idx| ==> r[p] == rows[idx[p]]
  {
    seq(|idx|, p requires 0 <= p < |idx| => rows[idx[p]])
  }

  /** The rows whose positions are not in `drop`, in their original order. */
  function Without(rows: seq<Row>, drop: set<nat>): (r: seq<Row>)
    ensures |r| <= |rows|
    ensures forall x :: x in r ==> x in rows
  {
    KeptIndicesCount(|rows|, drop);
    Select(rows, KeptIndices(|rows|, drop))
  }

  /** Dropping nothing returns the rows unchanged. */
  lemma WithoutNothing(rows: seq<Row>)
    ensures Without(rows, {}) == rows
  {
    KeptIndicesNone(|rows|);
  }

  /** Every row whose position is not dropped is in the result. */
  lemma WithoutKeeps(rows: seq<Row>, drop: set<nat>, i: nat)
    requires i < |rows| && i !in drop
    ensures rows[i] in Without(rows, drop)
  {
  }

  /** Dropping positions that all exist removes exactly that many rows. */
  lemma WithoutCount(rows: seq<Row>, drop: set<nat>)
    requires forall i :: i in drop ==> i < |rows|
    ensures |Without(rows, drop)| == |rows| - |drop|
  {
    KeptIndicesCount(|rows|, drop);
    assert DroppedBelow(|rows|, drop) == drop;
  }
}
