/**
 * Shingling and Jaccard similarity (preprocess.py, `shingles` and `jaccard`).
 *
 * A shingle is a window of `k` consecutive characters. The source enumerates
 * window starts with an exclusive upper bound of `len(text) - k`, so the last
 * window of every text (the one starting at `len(text) - k`) is never taken.
 */
module Similarity {
  import opened Common

  /** Window length used by `shingles` when none is given. */
  const DefaultNgram: nat := 5

  /** The `k` characters of `text` starting at `h`. */
  function Window(text: string, h: nat, k: nat): (w: string)
    requires h + k <= |text|
  {
    text[h..h + k]
  }

  /** The shingle set of `text`: windows starting at 0 up to, but excluding, `|text| - k`. */
  function Shingles(text: string, k: nat): (r: set<string>)
    ensures forall s :: s in r ==> |s| == k
    ensures r == {} <==> |text| <= k
  {
    var r := set h: nat | h < |text| - k :: Window(text, h, k);
    assert |text| > k ==> Window(text, 0, k) in r;
    r
  }

  /** An independent, recursive reading of the same windows: the first window, then the rest of the text. */
  function WindowsFromFront(text: string, k: nat): (r: set<string>)
    decreases |text|
  {
    if |text| <= k then {} else {text[..k]} + WindowsFromFront(text[1..], k)
  }

  /** Every shingle is a substring of the text that starts strictly before `|text| - k`. */
  lemma ShingleIsWindow(text: string, k: nat, s: string)
    requires s in Shingles(text, k)
    ensures exists h: nat :: h + k < |text| && s == Window(text, h, k) && s == text[h..h + k]
  {
  }

  /**
   * Appending one character adds exactly the window that starts at `|text| - k`:
   * that window is the one the exclusive bound leaves out of `Shingles(text, k)`.
   */
  lemma {:induction false} AppendAddsDroppedWindow(text: string, c: char, k: nat)
    requires k <= |text|
    ensures Shingles(text + [c], k) == Shingles(text, k) + {text[|text| - k..]}
  {
    var t := text + [c];
    forall s | s in Shingles(t, k) ensures s in Shingles(text, k) + {text[|text| - k..]} {
      var h: nat :| h < |t| - k && s == Window(t, h, k);
      if h < |text| - k {
        assert s == Window(text, h, k);
      } else {
        assert s == text[|text| - k..];
      }
    }
    forall s | s in Shingles(text, k) + {text[|text| - k..]} ensures s in Shingles(t, k) {
      if s in Shingles(text, k) {
        var h: nat :| h < |text| - k && s == Window(text, h, k);
        assert s == Window(t, h, k);
      } else {
        assert s == Window(t, |text| - k, k);
      }
    }
  }

  /** A window of the text past its first character is the window one further along the text. */
  lemma WindowShift(text: string, h: nat, k: nat)
    requires 0 < |text| && h + k <= |text| - 1
    ensures Window(text[1..], h, k) == Window(text, h + 1, k)
  {
  }

  /** Peeling off the first window: the shingles of `text` are its first window and those of `text[1..]`. */
  lemma ShinglesFromFront(text: string, k: nat)
    requires |text| > k
    ensures Shingles(text, k) == {text[..k]} + Shingles(text[1..], k)
  {
    var rest := text[1..];
    forall s | s in Shingles(text, k) ensures s in {text[..k]} + Shingles(rest, k) {
      var h: nat :| h < |text| - k && s == Window(text, h, k);
      if h > 0 {
        WindowShift(text, h - 1, k);
      }
    }
    forall s | s in Shingles(rest, k) ensures s in Shingles(text, k) {
      var h: nat :| h < |rest| - k && s == Window(rest, h, k);
      WindowShift(text, h, k);
    }
    assert text[..k] == Window(text, 0, k);
  }

  /** The set comprehension of the source and the front-to-back recursion agree on every text. */
  lemma {:induction false} ShinglesAreWindowsFromFront(text: string, k: nat)
    ensures Shingles(text, k) == WindowsFromFront(text, k)
    decreases |text|
  {
    if |text| > k {
      ShinglesAreWindowsFromFront(text[1..], k);
      ShinglesFromFront(text, k);
    }
  }

  /** There are at most `|text| - k` distinct shingles (one per window start). */
  lemma {:induction false} ShingleCountBound(text: string, k: nat)
    requires k < |text|
    ensures |Shingles(text, k)| <= |text| - k
  {
    WindowCountBound(text, k);
    ShinglesAreWindowsFromFront(text, k);
  }

  lemma {:induction false} WindowCountBound(text: string, k: nat)
    ensures |WindowsFromFront(text, k)| <= if |text| <= k then 0 else |text| - k
    decreases |text|
  {
    if |text| > k {
      WindowCountBound(text[1..], k);
    }
  }

  /** A similarity value: the quotient `num / den` that the source computes in floating point. */
  datatype Ratio = Ratio(num: nat, den: nat)

  /** The `>= .9` test of the duplicate filter, on the exact quotient. */
  predicate AtLeastNineTenths(r: Ratio)
  {
    10 * r.num >= 9 * r.den
  }

  /** Jaccard similarity |A ∩ B| / |A ∪ B|; the division is unguarded, so two empty sets raise. */
  function Jaccard<T>(a: set<T>, b: set<T>): (r: Result<Ratio>)
    ensures r.Err? <==> a == {} && b == {}
    ensures r.Err? ==> r.error == ZeroDivisionError
  {
    assert a <= a + b;
    if |a + b| == 0 then Err(ZeroDivisionError) else Ok(Ratio(|a * b|, |a + b|))
  }

  lemma JaccardSymmetric<T>(a: set<T>, b: set<T>)
    ensures Jaccard(a, b) == Jaccard(b, a)
  {
    assert a + b == b + a && a * b == b * a;
  }

  /** The only failure is two empty sets; otherwise the value lies in [0, 1]. */
  lemma JaccardInUnitInterval<T>(a: set<T>, b: set<T>)
    ensures Jaccard(a, b).Err? <==> a == {} && b == {}
    ensures Jaccard(a, b).Ok? ==> 0 < Jaccard(a, b).value.den
    ensures Jaccard(a, b).Ok? ==> Jaccard(a, b).value.num <= Jaccard(a, b).value.den
  {
    if a + b == {} {
      assert a <= a + b;
    } else {
      SubsetCardinality(a * b, a + b);
    }
  }

  /** A defined Jaccard value is exactly 1 precisely when the two sets are equal. */
  lemma JaccardOneIffEqual<T>(a: set<T>, b: set<T>)
    requires a != {} || b != {}
    ensures Jaccard(a, b).Ok?
    ensures Jaccard(a, b).value.num == Jaccard(a, b).value.den <==> a == b
  {
    JaccardInUnitInterval(a, b);
    if a == b {
      assert a * b == a + b;
    }
    if |a * b| == |a + b| {
      EqualCardinalitySubset(a * b, a + b);
      assert a == b by {
        forall x | x in a ensures x in b { assert x in a + b; }
        forall x | x in b ensures x in a { assert x in a + b; }
      }
    }
  }

  /** Two sets, not both empty, have similarity 0 precisely when they are disjoint. */
  lemma JaccardZeroIffDisjoint<T>(a: set<T>, b: set<T>)
    requires a != {} || b != {}
    ensures Jaccard(a, b).Ok?
    ensures Jaccard(a, b).value.num == 0 <==> a * b == {}
  {
  }

  lemma EqualCardinalitySubset<T>(x: set<T>, y: set<T>)
    requires x <= y && |x| == |y|
    ensures x == y
  {
    assert y == x + (y - x);
    assert |y - x| == 0;
  }
}
