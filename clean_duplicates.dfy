/**
 * `clean_duplicates`: the dispatch on `method`. An integer keeps the first row
 * of every distinct text prefix of that length; `"lsh"` sorts by date, finds
 * candidate pairs, confirms them by shingle Jaccard and drops the later row of
 * each confirmed pair; any other name returns the frame as it was.
 */
module Duplicates {
  import opened Common
  import opened Lsh
  import opened Frames
  import opened DateOrder
  import opened PrefixDedup
  import opened LshDedup

  /** The `method` argument: an integer prefix length, or a name. */
  datatype DedupMethod = Chars(n: int) | Named(name: string)

  /**
   * `clean_duplicates(text_df, text_col, method)`. The MinHash hasher and the
   * band hash of the `lsh` library are the parameters `fingerprint`,
   * `confirmFp` and `bandHash`; both hashers produce `Seeds` values per text.
   */
  method CleanDuplicates(f: Frame, m: DedupMethod, fingerprint: string -> seq<int>, bandHash: seq<int> -> int,
                         confirmFp: string -> seq<int>) returns (r: Result<Frame>)
    requires m != Named("latlon")
    requires forall t :: |fingerprint(t)| == Seeds
    requires forall t :: |confirmFp(t)| == Seeds
    ensures m.Chars? ==> r == Ok(Frame(f.dates, KeepFirstPerPrefix(f.rows, m.n)))
    ensures m == Named("lsh") ==> r == LshClean(f, fingerprint, bandHash)
    ensures m.Named? && m.name != "lsh" ==> r == Ok(f)
  {
    match m
    case Chars(n) =>
      return Ok(Frame(f.dates, KeepFirstPerPrefix(f.rows, n)));
    case Named(name) =>
      if name != "lsh" {
        return Ok(f);
      }
      r := CleanLsh(f, fingerprint, bandHash, confirmFp);
  }

  /** The `lsh` branch of `clean_duplicates`: sort, find candidates, confirm them, drop the later row of each duplicate. */
  method CleanLsh(f: Frame, fingerprint: string -> seq<int>, bandHash: seq<int> -> int, confirmFp: string -> seq<int>)
    returns (r: Result<Frame>)
    requires forall t :: |fingerprint(t)| == Seeds
    requires forall t :: |confirmFp(t)| == Seeds
    ensures r == LshClean(f, fingerprint, bandHash)
  {
    var sorted := SortRows(f).rows;
    var texts := Texts(sorted);
    var candidates := CandidateDuplicates(texts, fingerprint, bandHash, Seeds, NumBands);
    if candidates.Err? {
      // 100 seeds split evenly into 5 bands: `candidate_duplicates` cannot raise here.
      assert false;
      return Err(ValueError);
    }
    var pairs := candidates.value;
    assert pairs == LshCandidates(texts, fingerprint, bandHash);
    LshCandidatesValid(texts, fingerprint, bandHash);
    var similarities := ConfirmCandidates(texts, pairs, confirmFp);
    if similarities.Err? {
      return Err(similarities.error);
    }
    var dropList := DropList(similarities.value);
    DropListIsDropSet(texts, pairs, confirmFp, similarities.value);
    return Ok(Frame(f.dates, Without(sorted, dropList)));
  }
}
