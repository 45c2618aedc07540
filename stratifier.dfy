/**
 * `make_stratifier`: a binary column that is 1 where another column is
 * strictly above a threshold and 0 elsewhere, on a copy of the frame; with
 * lists of columns, one such column per pair, applied in order.
 *
 * A frame is a map from column name to its values. Frames are values, so the
 * copy the source makes first is implicit: the caller's frame never changes.
 */
module Stratifier {
  import opened Common

  type Column = seq<real>
  type Table = map<string, Column>

  /** The column arguments: one pair of names, or two lists of names. */
  datatype StratArgs =
    | Single(stratCol: string, newCol: string)
    | Lists(stratCols: seq<string>, newCols: seq<string>)

  /** `np.where(values > thresh, 1, 0)`. */
  function Flags(values: Column, thresh: real): (flags: Column)
    ensures |flags| == |values|
    ensures forall i :: 0 <= i < |values| ==> flags[i] == 0.0 || flags[i] == 1.0
    ensures forall i :: 0 <= i < |values| ==> (flags[i] == 1.0 <==> values[i] > thresh)
  {
    seq(|values|, i requires 0 <= i < |values| => if values[i] > thresh then 1.0 else 0.0)
  }

  /** One call with a single pair of column names: a missing `stratCol` is a `KeyError`. */
  function StratifyColumn(df: Table, stratCol: string, newCol: string, thresh: real): (r: Result<Table>)
    ensures r.Err? <==> stratCol !in df
    ensures r.Err? ==> r.error == KeyError
    ensures r.Ok? ==> r.value.Keys == df.Keys + {newCol}
    ensures r.Ok? ==> r.value[newCol] == Flags(df[stratCol], thresh)
    ensures r.Ok? ==> forall c :: c in df && c != newCol ==> r.value[c] == df[c]
  {
    if stratCol !in df then Err(KeyError)
    else Ok(df[newCol := Flags(df[stratCol], thresh)])
  }

  /** The pairs `(stratCols[i], newCols[i])` applied in order, each to the frame the previous one produced. */
  function StratifyAll(df: Table, stratCols: seq<string>, newCols: seq<string>, thresh: real): (r: Result<Table>)
    requires |stratCols| == |newCols|
    ensures r.Err? ==> r.error == KeyError
    ensures r.Ok? ==> df.Keys <= r.value.Keys
    decreases |stratCols|
  {
    if |stratCols| == 0 then Ok(df)
    else
      var n := |stratCols| - 1;
      match StratifyAll(df, stratCols[..n], newCols[..n], thresh)
      case Err(e) => Err(e)
      case Ok(d) => StratifyColumn(d, stratCols[n], newCols[n], thresh)
  }

  /**
   * `make_stratifier(df, strat_col, new_col, thresh)` with an explicit
   * threshold: lists of different lengths are a `ValueError`; otherwise the
   * pairs are applied one after the other, stopping at the first missing
   * column.
   */
  method MakeStratifier(df: Table, args: StratArgs, thresh: real) returns (r: Result<Table>)
    ensures args.Single? ==> r == StratifyColumn(df, args.stratCol, args.newCol, thresh)
    ensures args.Lists? && |args.stratCols| != |args.newCols| ==> r == Err(ValueError)
    ensures args.Lists? && |args.stratCols| == |args.newCols| ==> r == StratifyAll(df, args.stratCols, args.newCols, thresh)
  {
    match args
    case Single(stratCol, newCol) =>
      r := StratifyColumn(df, stratCol, newCol, thresh);
    case Lists(stratCols, newCols) =>
      if |stratCols| != |newCols| {
        return Err(ValueError);
      }
      var current := df;
      for i := 0 to |stratCols|
        invariant StratifyAll(df, stratCols[..i], newCols[..i], thresh) == Ok(current)
      {
        assert stratCols[..i + 1][..i] == stratCols[..i];
        assert newCols[..i + 1][..i] == newCols[..i];
        var next := StratifyColumn(current, stratCols[i], newCols[i], thresh);
        if next.Err? {
          StratifyAllStopsAtError(df, stratCols, newCols, thresh, i + 1);
          return next;
        }
        current := next.value;
      }
      assert stratCols[..|stratCols|] == stratCols && newCols[..|newCols|] == newCols;
      r := Ok(current);
  }

  /** Once a prefix of the pairs fails, every longer run fails with the same error. */
  lemma {:induction false} StratifyAllStopsAtError(df: Table, stratCols: seq<string>, newCols: seq<string>, thresh: real, i: nat)
    requires |stratCols| == |newCols| && i <= |stratCols|
    requires StratifyAll(df, stratCols[..i], newCols[..i], thresh).Err?
    ensures StratifyAll(df, stratCols, newCols, thresh) == StratifyAll(df, stratCols[..i], newCols[..i], thresh)
    decreases |stratCols| - i
  {
    if i < |stratCols| {
      var n := |stratCols| - 1;
      assert stratCols[..n][..i] == stratCols[..i] && newCols[..n][..i] == newCols[..i];
      StratifyAllStopsAtError(df, stratCols[..n], newCols[..n], thresh, i);
    } else {
      assert stratCols[..i] == stratCols && newCols[..i] == newCols;
    }
  }

  /** The columns a frame has once the first `i` pairs have been applied. */
  function KnownColumns(df: Table, newCols: seq<string>, i: nat): (cols: set<string>)
    requires i <= |newCols|
    ensures forall c :: c in cols <==> c in df || exists j :: 0 <= j < i && newCols[j] == c
  {
    df.Keys + set j | 0 <= j < i :: newCols[j]
  }

  /** On success the frame has its old columns and the new ones, and no others. */
  lemma {:induction false} StratifyAllKeys(df: Table, stratCols: seq<string>, newCols: seq<string>, thresh: real)
    requires |stratCols| == |newCols|
    ensures var r := StratifyAll(df, stratCols, newCols, thresh);
      r.Ok? ==> r.value.Keys == KnownColumns(df, newCols, |newCols|)
    decreases |stratCols|
  {
    if |stratCols| > 0 {
      var n := |stratCols| - 1;
      StratifyAllKeys(df, stratCols[..n], newCols[..n], thresh);
      KnownColumnsPrefix(df, newCols, n, n);
      KnownColumnsStep(df, newCols, n);
    }
  }

  /** Some pair among the first `m` names a column that is neither in the frame nor created by an earlier pair. */
  ghost predicate SomeMissing(df: Table, stratCols: seq<string>, newCols: seq<string>, m: nat)
    requires m <= |stratCols| == |newCols|
  {
    exists i :: 0 <= i < m && stratCols[i] !in KnownColumns(df, newCols, i)
  }

  /**
   * The run fails exactly when some pair names a column that is neither in the
   * frame nor created by an earlier pair, and the failure is a `KeyError`.
   */
  lemma {:induction false} StratifyAllFails(df: Table, stratCols: seq<string>, newCols: seq<string>, thresh: real)
    requires |stratCols| == |newCols|
    ensures var r := StratifyAll(df, stratCols, newCols, thresh);
      && (r.Err? <==> exists i :: 0 <= i < |stratCols| && stratCols[i] !in KnownColumns(df, newCols, i))
      && (r.Err? ==> r.error == KeyError)
    decreases |stratCols|
  {
    if |stratCols| > 0 {
      var n := |stratCols| - 1;
      var s', n' := stratCols[..n], newCols[..n];
      StratifyAllFails(df, s', n', thresh);
      StratifyAllKeys(df, s', n', thresh);
      SomeMissingPrefix(df, stratCols, newCols, n);
      SomeMissingStep(df, stratCols, newCols, n);
      KnownColumnsPrefix(df, newCols, n, n);
      assert SomeMissing(df, stratCols, newCols, n + 1) <==>
        exists i :: 0 <= i < |stratCols| && stratCols[i] !in KnownColumns(df, newCols, i);
    }
  }

  /** Whether a pair before `n` is missing does not depend on the pairs from `n` on. */
  lemma SomeMissingPrefix(df: Table, stratCols: seq<string>, newCols: seq<string>, n: nat)
    requires n <= |stratCols| == |newCols|
    ensures SomeMissing(df, stratCols[..n], newCols[..n], n) <==>
      exists i :: 0 <= i < n && stratCols[..n][i] !in KnownColumns(df, newCols[..n], i)
    ensures SomeMissing(df, stratCols[..n], newCols[..n], n) <==> SomeMissing(df, stratCols, newCols, n)
  {
  }

  /** One more pair is missing or not. */
  lemma SomeMissingStep(df: Table, stratCols: seq<string>, newCols: seq<string>, n: nat)
    requires n < |stratCols| == |newCols|
    ensures SomeMissing(df, stratCols, newCols, n + 1) <==>
      SomeMissing(df, stratCols, newCols, n) || stratCols[n] !in KnownColumns(df, newCols, n)
  {
  }

  /** The columns known after `i` pairs depend only on the first `i` new names. */
  lemma KnownColumnsPrefix(df: Table, newCols: seq<string>, m: nat, i: nat)
    requires i <= m <= |newCols|
    ensures KnownColumns(df, newCols[..m], i) == KnownColumns(df, newCols, i)
  {
  }

  /** One more pair adds its new name to the known columns. */
  lemma KnownColumnsStep(df: Table, newCols: seq<string>, i: nat)
    requires i < |newCols|
    ensures KnownColumns(df, newCols, i + 1) == KnownColumns(df, newCols, i) + {newCols[i]}
  {
  }

  /** Every column of the frame has `n` values. */
  predicate Rectangular(df: Table, n: nat)
  {
    forall c :: c in df ==> |df[c]| == n
  }

  /** A run keeps every column the same length as the rows of the frame. */
  lemma {:induction false} StratifyAllRectangular(df: Table, stratCols: seq<string>, newCols: seq<string>, thresh: real, n: nat)
    requires |stratCols| == |newCols| && Rectangular(df, n)
    ensures StratifyAll(df, stratCols, newCols, thresh).Ok? ==> Rectangular(StratifyAll(df, stratCols, newCols, thresh).value, n)
    decreases |stratCols|
  {
    if |stratCols| > 0 {
      var k := |stratCols| - 1;
      StratifyAllRectangular(df, stratCols[..k], newCols[..k], thresh, n);
    }
  }

  /**
   * With distinct new names that are not among the source columns, the pairs
   * do not interact: new column `newCols[i]` flags `stratCols[i]` of the
   * original frame, and every other column is left as it was.
   */
  lemma {:induction false} StratifyAllIndependent(df: Table, stratCols: seq<string>, newCols: seq<string>, thresh: real)
    requires |stratCols| == |newCols|
    requires forall i :: 0 <= i < |stratCols| ==> stratCols[i] in df
    requires forall i, j :: 0 <= i < |newCols| && 0 <= j < |stratCols| ==> newCols[i] != stratCols[j]
    requires forall i, j :: 0 <= i < j < |newCols| ==> newCols[i] != newCols[j]
    ensures StratifyAll(df, stratCols, newCols, thresh).Ok?
    ensures var g := StratifyAll(df, stratCols, newCols, thresh).value;
      && (forall i :: 0 <= i < |newCols| ==> newCols[i] in g && g[newCols[i]] == Flags(df[stratCols[i]], thresh))
      && (forall c :: c in df && c !in newCols ==> c in g && g[c] == df[c])
    decreases |stratCols|
  {
    if |stratCols| > 0 {
      var n := |stratCols| - 1;
      var s', n' := stratCols[..n], newCols[..n];
      StratifyAllIndependent(df, s', n', thresh);
      var d := StratifyAll(df, s', n', thresh).value;
      assert stratCols[n] in d by {
        assert stratCols[n] !in n';
      }
      var g := StratifyAll(df, stratCols, newCols, thresh).value;
      forall i | 0 <= i < |newCols| ensures newCols[i] in g && g[newCols[i]] == Flags(df[stratCols[i]], thresh) {
        if i < n {
          assert newCols[i] == n'[i] && stratCols[i] == s'[i];
        }
      }
      forall c | c in df && c !in newCols ensures c in g && g[c] == df[c] {
        assert c !in n';
      }
    }
  }

  /** A raised threshold never turns a 0 into a 1. */
  lemma FlagsMonotone(values: Column, lower: real, higher: real)
    requires lower <= higher
    ensures forall i :: 0 <= i < |values| ==> Flags(values, higher)[i] <= Flags(values, lower)[i]
  {
  }
}
