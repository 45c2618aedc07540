/**
 * The integer method of `clean_duplicates`: cut each text to its first `m`
 * characters and keep only the first row of every distinct cut
 * (`str.slice(stop=m)` then `drop_duplicates`, which keeps first occurrences).
 */
module PrefixDedup {
  import opened Frames

  /** `text[:m]`, with Python's slice bounds: a stop beyond the end is the end, a negative stop counts back from it. */
  function Prefix(text: string, m: int): (p: string)
    ensures p <= text
    ensures m >= 0 ==> |p| == if m <= |text| then m else |text|
    ensures m < 0 ==> |p| == if -m <= |text| then |text| + m else 0
  {
    if m >= 0 then (if m <= |text| then text[..m] else text)
    else if -m <= |text| then text[..|text| + m]
    else []
  }

  /** No earlier row has the same cut text as row `i`. */
  predicate FirstOfItsPrefix(rows: seq<Row>, m: int, i: nat)
    requires i < |rows|
  {
    forall j :: 0 <= j < i ==> Prefix(rows[j].text, m) != Prefix(rows[i].text, m)
  }

  /** The positions that repeat the cut text of an earlier row. */
  function RepeatedPositions(rows: seq<Row>, m: int): (d: set<nat>)
  {
    set i: nat | i < |rows| && !FirstOfItsPrefix(rows, m, i)
  }

  /** The frame's rows with later repeats of a cut text removed. */
  function KeepFirstPerPrefix(rows: seq<Row>, m: int): (r: seq<Row>)
    ensures |r| <= |rows|
    ensures forall x :: x in r ==> x in rows
    ensures rows != [] ==> r != [] && r[0] == rows[0]
  {
    assert rows != [] ==> 0 in KeptIndices(|rows|, RepeatedPositions(rows, m));
    Without(rows, RepeatedPositions(rows, m))
  }

  /**
   * The result is the input rows at increasing positions (original order
   * kept), and position `i` is among them exactly when it is the first row
   * with its cut text.
   */
  lemma KeepFirstSelectsFirstRows(rows: seq<Row>, m: int)
    ensures var idx := KeptIndices(|rows|, RepeatedPositions(rows, m));
      && KeepFirstPerPrefix(rows, m) == Select(rows, idx)
      && (forall p, q :: 0 <= p < q < |idx| ==> idx[p] < idx[q])
      && forall i: nat :: i < |rows| ==> (i in idx <==> FirstOfItsPrefix(rows, m, i))
  {
  }

  /** No two kept rows share a cut text. */
  lemma KeepFirstDistinctPrefixes(rows: seq<Row>, m: int)
    ensures var out := KeepFirstPerPrefix(rows, m);
      forall p, q :: 0 <= p < q < |out| ==> Prefix(out[p].text, m) != Prefix(out[q].text, m)
  {
  }

  /** Every cut text of the input is still represented in the output. */
  lemma {:induction false} KeepFirstCoversPrefixes(rows: seq<Row>, m: int, i: nat)
    requires i < |rows|
    ensures exists p ::
      0 <= p < |KeepFirstPerPrefix(rows, m)| && Prefix(KeepFirstPerPrefix(rows, m)[p].text, m) == Prefix(rows[i].text, m)
    decreases i
  {
    var out := KeepFirstPerPrefix(rows, m);
    if FirstOfItsPrefix(rows, m, i) {
      WithoutKeeps(rows, RepeatedPositions(rows, m), i);
      var p :| 0 <= p < |out| && out[p] == rows[i];
    } else {
      var j :| 0 <= j < i && Prefix(rows[j].text, m) == Prefix(rows[i].text, m);
      KeepFirstCoversPrefixes(rows, m, j);
    }
  }

  /** Cleaning a cleaned frame again removes nothing. */
  lemma KeepFirstIdempotent(rows: seq<Row>, m: int)
    ensures KeepFirstPerPrefix(KeepFirstPerPrefix(rows, m), m) == KeepFirstPerPrefix(rows, m)
  {
    var out := KeepFirstPerPrefix(rows, m);
    KeepFirstDistinctPrefixes(rows, m);
    assert RepeatedPositions(out, m) == {} by {
      forall i: nat | i < |out| ensures FirstOfItsPrefix(out, m, i) {
      }
    }
    WithoutNothing(out);
  }
}
