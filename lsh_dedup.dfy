/**
 * The `lsh` method of `clean_duplicates`: sort the rows by date, find
 * candidate pairs with banded LSH, confirm each pair by the exact Jaccard
 * similarity of its shingle sets, and drop the later row of every pair whose
 * similarity is at least 0.9.
 */
module LshDedup {
  import opened Common
  import opened Similarity
  import opened Lsh
  import opened Frames
  import opened DateOrder

  /** Fingerprint length of both hashers (`seeds=100`). */
  const Seeds: nat := 100

  /** Band count with which `clean_duplicates` calls `candidate_duplicates` (its default). */
  const NumBands: nat := 5

  /** Values per band: `Seeds / NumBands`. */
  const BandWidth: nat := 20

  /** One entry of `similarities`: the pair, its shingle Jaccard and its fingerprint-value Jaccard. */
  datatype SimilarityRecord = SimilarityRecord(a: DocId, b: DocId, jaccard: Ratio, minhash: Ratio)

  /** `set(fingerprint)`: the distinct hash values of a fingerprint. */
  function ValueSet(fp: seq<int>): (s: set<int>)
    ensures forall x :: x in s <==> exists i :: 0 <= i < |fp| && fp[i] == x
  {
    set x | x in fp
  }

  /** Pairs of row positions below `n`, smaller position first. */
  predicate ValidPairs(pairs: set<Pair>, n: nat)
  {
    forall p :: p in pairs ==> p.0 < p.1 < n
  }

  /** Jaccard similarity of the two rows' shingle sets, with the default window of 5. */
  function ShingleJaccard(texts: seq<string>, p: Pair): (r: Result<Ratio>)
    requires p.0 < |texts| && p.1 < |texts|
    ensures r.Err? <==> |texts[p.0]| <= DefaultNgram && |texts[p.1]| <= DefaultNgram
    ensures r.Err? ==> r.error == ZeroDivisionError
  {
    Jaccard(Shingles(texts[p.0], DefaultNgram), Shingles(texts[p.1], DefaultNgram))
  }

  /** The confirmation of pair `p` divides by zero: both texts have no shingles. */
  predicate JaccardFails(texts: seq<string>, p: Pair)
  {
    p.0 < |texts| && p.1 < |texts| && ShingleJaccard(texts, p).Err?
  }

  /** Pair `p` is a confirmed duplicate: its shingle Jaccard is defined and at least 0.9. */
  predicate ConfirmedDuplicate(texts: seq<string>, p: Pair)
  {
    p.0 < |texts| && p.1 < |texts| && ShingleJaccard(texts, p).Ok? && AtLeastNineTenths(ShingleJaccard(texts, p).value)
  }

  /** A similarity record is exactly the confirmation stage's output for its pair. */
  predicate RecordFor(texts: seq<string>, confirmFp: string -> seq<int>, s: SimilarityRecord)
  {
    s.a < |texts| && s.b < |texts| &&
    Ok(s.jaccard) == ShingleJaccard(texts, (s.a, s.b)) &&
    Ok(s.minhash) == Jaccard(ValueSet(confirmFp(texts[s.a])), ValueSet(confirmFp(texts[s.b])))
  }

  /** Lines 136-143 for one pair: both similarities, or the division by zero of an empty shingle union. */
  method ConfirmPair(texts: seq<string>, p: Pair, confirmFp: string -> seq<int>) returns (r: Result<SimilarityRecord>)
    requires p.0 < |texts| && p.1 < |texts|
    requires |confirmFp(texts[p.0])| == Seeds
    ensures r.Err? <==> JaccardFails(texts, p)
    ensures r.Err? ==> r.error == ZeroDivisionError
    ensures r.Ok? ==> (r.value.a, r.value.b) == p && RecordFor(texts, confirmFp, r.value)
  {
    var (lineA, lineB) := p;
    var shinglesA := Shingles(texts[lineA], DefaultNgram);
    var shinglesB := Shingles(texts[lineB], DefaultNgram);
    var jaccardSim := Jaccard(shinglesA, shinglesB);
    if jaccardSim.Err? {
      return Err(jaccardSim.error);
    }
    var fingerprintA := ValueSet(confirmFp(texts[lineA]));
    var fingerprintB := ValueSet(confirmFp(texts[lineB]));
    assert confirmFp(texts[lineA])[0] in fingerprintA;
    JaccardInUnitInterval(fingerprintA, fingerprintB);
    var minhashSim := Jaccard(fingerprintA, fingerprintB);
    return Ok(SimilarityRecord(lineA, lineB, jaccardSim.value, minhashSim.value));
  }


  /** The pairs the records are about. */
  function RecordPairs(records: seq<SimilarityRecord>): (ps: set<Pair>)
  {
    set s | s in records :: (s.a, s.b)
  }

  /**
   * The iteration order of `for pair in candidates`: the pairs of the set,
   * each once, in whatever order the set yields them.
   */
  method Enumerate(pairs: set<Pair>) returns (order: seq<Pair>)
    ensures |order| == |pairs|
    ensures forall p :: p in pairs <==> p in order
    ensures forall i, j :: 0 <= i < j < |order| ==> order[i] != order[j]
  {
    order := [];
    var remaining := pairs;
    while remaining != {}
      invariant remaining <= pairs
      invariant forall p :: p in pairs <==> p in order || p in remaining
      invariant forall p :: p in order ==> p !in remaining
      invariant forall i, j :: 0 <= i < j < |order| ==> order[i] != order[j]
      invariant |order| + |remaining| == |pairs|
      decreases remaining
    {
      var p :| p in remaining;
      order := order + [p];
      remaining := remaining - {p};
    }
  }

  /**
   * The loop of lines 135-143: one similarity record per candidate pair, or
   * the division by zero of the first pair whose texts both have no shingles.
   */
  method ConfirmCandidates(texts: seq<string>, pairs: set<Pair>, confirmFp: string -> seq<int>)
    returns (r: Result<seq<SimilarityRecord>>)
    requires ValidPairs(pairs, |texts|)
    requires forall t :: |confirmFp(t)| == Seeds
    ensures r.Err? <==> exists p :: p in pairs && JaccardFails(texts, p)
    ensures r.Err? ==> r.error == ZeroDivisionError
    ensures r.Ok? ==> |r.value| == |pairs| && RecordPairs(r.value) == pairs
    ensures r.Ok? ==> forall i :: 0 <= i < |r.value| ==> RecordFor(texts, confirmFp, r.value[i])
  {
    var order := Enumerate(pairs);
    var records: seq<SimilarityRecord> := [];
    for i := 0 to |order|
      invariant |records| == i
      invariant forall j :: 0 <= j < i ==> (records[j].a, records[j].b) == order[j]
      invariant forall j :: 0 <= j < i ==> RecordFor(texts, confirmFp, records[j])
    {
      var p := order[i];
      var record := ConfirmPair(texts, p, confirmFp);
      if record.Err? {
        assert p in pairs && JaccardFails(texts, p);
        return Err(ZeroDivisionError);
      }
      records := records + [record.value];
    }
    RecordsFollowOrder(texts, confirmFp, pairs, order, records);
    return Ok(records);
  }

  /** Records aligned with an enumeration of the pair set: one per pair, and no pair failed. */
  lemma RecordsFollowOrder(texts: seq<string>, confirmFp: string -> seq<int>, pairs: set<Pair>, order: seq<Pair>,
                           records: seq<SimilarityRecord>)
    requires |order| == |pairs| && forall p :: p in pairs <==> p in order
    requires |records| == |order|
    requires forall j :: 0 <= j < |records| ==> (records[j].a, records[j].b) == order[j]
    requires forall j :: 0 <= j < |records| ==> RecordFor(texts, confirmFp, records[j])
    ensures RecordPairs(records) == pairs
    ensures forall p :: p in pairs ==> !JaccardFails(texts, p)
  {
    forall p | p in pairs ensures p in RecordPairs(records) && !JaccardFails(texts, p) {
      var j :| 0 <= j < |order| && order[j] == p;
      assert RecordFor(texts, confirmFp, records[j]);
    }
    forall p | p in RecordPairs(records) ensures p in pairs {
      var s :| s in records && (s.a, s.b) == p;
      var j :| 0 <= j < |records| && records[j] == s;
    }
  }

  /** `max(a, b)`: the later of the two positions. */
  function Later(a: DocId, b: DocId): (m: DocId)
  {
    if a >= b then a else b
  }

  /** Lines 145-147: the later position of every record whose Jaccard is at least 0.9, as a set. */
  function DropList(records: seq<SimilarityRecord>): (d: set<DocId>)
    ensures forall s :: s in records && AtLeastNineTenths(s.jaccard) ==> (s.a >= s.b ==> s.a in d) && (s.b >= s.a ==> s.b in d)
    ensures forall x :: x in d ==>
      exists s :: s in records && AtLeastNineTenths(s.jaccard) && (x == s.a || x == s.b) && x >= s.a && x >= s.b
  {
    set s | s in records && AtLeastNineTenths(s.jaccard) :: Later(s.a, s.b)
  }

  /** The positions to drop: the later row of every confirmed candidate pair. */
  function DropSet(texts: seq<string>, pairs: set<Pair>): (d: set<DocId>)
  {
    set p | p in pairs && ConfirmedDuplicate(texts, p) :: p.1
  }

  /** Built from the confirmation stage's records, the drop list is exactly the drop set of the pairs. */
  lemma DropListIsDropSet(texts: seq<string>, pairs: set<Pair>, confirmFp: string -> seq<int>, records: seq<SimilarityRecord>)
    requires ValidPairs(pairs, |texts|)
    requires RecordPairs(records) == pairs
    requires forall i :: 0 <= i < |records| ==> RecordFor(texts, confirmFp, records[i])
    ensures DropList(records) == DropSet(texts, pairs)
  {
  }

  /** The candidate pairs of `candidate_duplicates(text_df, char_ngram)`: 100 seeds in 5 bands. */
  function LshCandidates(texts: seq<string>, fingerprint: string -> seq<int>, bandHash: seq<int> -> int): (pairs: set<Pair>)
    requires forall t :: |fingerprint(t)| == Seeds
  {
    CandidatePairs(BinsOf(Fingerprints(texts, fingerprint), NumBands, BandWidth, bandHash))
  }

  /** A pair is a candidate exactly when its rows, smaller first, agree on some band's hash. */
  lemma LshCandidatesIff(texts: seq<string>, fingerprint: string -> seq<int>, bandHash: seq<int> -> int, a: DocId, b: DocId)
    requires forall t :: |fingerprint(t)| == Seeds
    ensures (a, b) in LshCandidates(texts, fingerprint, bandHash) <==>
      a < b < |texts| && SameBandKey(Fingerprints(texts, fingerprint), NumBands, BandWidth, bandHash, a, b)
  {
    CandidatePairsIff(Fingerprints(texts, fingerprint), NumBands, BandWidth, bandHash, a, b);
  }

  /** Candidate pairs are pairs of row positions, smaller first. */
  lemma LshCandidatesValid(texts: seq<string>, fingerprint: string -> seq<int>, bandHash: seq<int> -> int)
    requires forall t :: |fingerprint(t)| == Seeds
    ensures ValidPairs(LshCandidates(texts, fingerprint, bandHash), |texts|)
  {
    forall p | p in LshCandidates(texts, fingerprint, bandHash) ensures p.0 < p.1 < |texts| {
      LshCandidatesIff(texts, fingerprint, bandHash, p.0, p.1);
    }
  }

  /** The `lsh` method on a frame, as a value: the deduplicated frame or the division by zero. */
  function LshClean(f: Frame, fingerprint: string -> seq<int>, bandHash: seq<int> -> int): (r: Result<Frame>)
    requires forall t :: |fingerprint(t)| == Seeds
    ensures r.Err? ==> r.error == ZeroDivisionError
    ensures r.Ok? ==> r.value.dates == f.dates && |r.value.rows| <= |f.rows|
    ensures r.Ok? ==> forall x :: x in r.value.rows ==> x in f.rows
  {
    var sorted := SortRows(f).rows;
    var texts := Texts(sorted);
    var pairs := LshCandidates(texts, fingerprint, bandHash);
    if exists p :: p in pairs && JaccardFails(texts, p) then Err(ZeroDivisionError)
    else Ok(Frame(f.dates, Without(sorted, DropSet(texts, pairs))))
  }

  /** A frame of at most one row has no candidate pairs and comes back unchanged. */
  lemma LshCleanSingleRow(f: Frame, fingerprint: string -> seq<int>, bandHash: seq<int> -> int)
    requires forall t :: |fingerprint(t)| == Seeds
    requires |f.rows| <= 1
    ensures LshClean(f, fingerprint, bandHash) == Ok(f)
  {
    SortOfDateOrderedIsIdentity(f);
    var texts := Texts(f.rows);
    LshCandidatesValid(texts, fingerprint, bandHash);
    var pairs := LshCandidates(texts, fingerprint, bandHash);
    assert pairs == {} by {
      forall p | p in pairs ensures false {
      }
    }
    LshCleanUnchanged(f, fingerprint, bandHash);
  }

  /** Row `a`, earlier than row `i`, shares a bucket with it and is confirmed as its duplicate. */
  ghost predicate DroppedBecauseOf(texts: seq<string>, fingerprint: string -> seq<int>, bandHash: seq<int> -> int, a: DocId, i: DocId)
    requires forall t :: |fingerprint(t)| == Seeds
  {
    a < i < |texts| &&
    SameBandKey(Fingerprints(texts, fingerprint), NumBands, BandWidth, bandHash, a, i) &&
    ConfirmedDuplicate(texts, (a, i))
  }

  /**
   * The drop set is exactly the later position of every pair that shares a
   * bucket and whose Jaccard is at least 0.9 (the threshold is inclusive).
   */
  lemma DropSetExactly(texts: seq<string>, fingerprint: string -> seq<int>, bandHash: seq<int> -> int, i: DocId)
    requires forall t :: |fingerprint(t)| == Seeds
    ensures i in DropSet(texts, LshCandidates(texts, fingerprint, bandHash)) <==>
      exists a: DocId :: DroppedBecauseOf(texts, fingerprint, bandHash, a, i)
  {
    var pairs := LshCandidates(texts, fingerprint, bandHash);
    if i in DropSet(texts, pairs) {
      var p :| p in pairs && ConfirmedDuplicate(texts, p) && i == p.1;
      LshCandidatesIff(texts, fingerprint, bandHash, p.0, p.1);
      assert DroppedBecauseOf(texts, fingerprint, bandHash, p.0, i);
    }
    if exists a: DocId :: DroppedBecauseOf(texts, fingerprint, bandHash, a, i) {
      var a: DocId :| DroppedBecauseOf(texts, fingerprint, bandHash, a, i);
      LshCandidatesIff(texts, fingerprint, bandHash, a, i);
      assert (a, i) in pairs;
    }
  }

  /** The first row of the date order is never dropped, and the drop set holds only row positions. */
  lemma DropSetBounds(texts: seq<string>, fingerprint: string -> seq<int>, bandHash: seq<int> -> int)
    requires forall t :: |fingerprint(t)| == Seeds
    ensures 0 !in DropSet(texts, LshCandidates(texts, fingerprint, bandHash))
    ensures forall i :: i in DropSet(texts, LshCandidates(texts, fingerprint, bandHash)) ==> 0 < i < |texts|
  {
    LshCandidatesValid(texts, fingerprint, bandHash);
  }

  /**
   * What the `lsh` method keeps: every row not dropped, the earliest row in
   * particular, each dropped row removed once, and the kept rows at increasing
   * positions of the date order, so still in date order.
   */
  lemma LshCleanKeeps(f: Frame, fingerprint: string -> seq<int>, bandHash: seq<int> -> int)
    requires forall t :: |fingerprint(t)| == Seeds
    requires LshClean(f, fingerprint, bandHash).Ok?
    ensures var sorted := SortRows(f).rows;
      var drop := DropSet(Texts(sorted), LshCandidates(Texts(sorted), fingerprint, bandHash));
      var g := LshClean(f, fingerprint, bandHash).value;
      && g.dates == f.dates
      && (forall i :: 0 <= i < |sorted| && i !in drop ==> sorted[i] in g.rows)
      && (|sorted| > 0 ==> sorted[0] in g.rows)
      && |g.rows| == |f.rows| - |drop|
      && (var idx := KeptIndices(|sorted|, drop);
          && |idx| == |g.rows|
          && (forall p :: 0 <= p < |idx| ==> idx[p] !in drop && g.rows[p] == sorted[idx[p]])
          && (forall p, q :: 0 <= p < q < |idx| ==> idx[p] < idx[q]))
  {
    var sorted := SortRows(f).rows;
    var texts := Texts(sorted);
    var drop := DropSet(texts, LshCandidates(texts, fingerprint, bandHash));
    SortOrderIsStableSort(f);
    DropSetBounds(texts, fingerprint, bandHash);
    forall i | 0 <= i < |sorted| && i !in drop ensures sorted[i] in Without(sorted, drop) {
      WithoutKeeps(sorted, drop, i);
    }
    WithoutCount(sorted, drop);
  }

  /** The texts at increasing positions `idx` of `texts`: a sub-list of the rows in their order. */
  ghost predicate SubTexts(sub: seq<string>, texts: seq<string>, idx: seq<nat>)
  {
    && |sub| == |idx|
    && (forall p :: 0 <= p < |idx| ==> idx[p] < |texts| && sub[p] == texts[idx[p]])
    && (forall p, q :: 0 <= p < q < |idx| ==> idx[p] < idx[q])
  }

  /** A candidate pair of a sub-list of the texts is a candidate pair of the texts, at the original positions. */
  lemma SubTextsCandidate(sub: seq<string>, texts: seq<string>, idx: seq<nat>,
                          fingerprint: string -> seq<int>, bandHash: seq<int> -> int, p: DocId, q: DocId)
    requires forall t :: |fingerprint(t)| == Seeds
    requires SubTexts(sub, texts, idx)
    requires (p, q) in LshCandidates(sub, fingerprint, bandHash)
    ensures p < q < |idx|
    ensures (idx[p], idx[q]) in LshCandidates(texts, fingerprint, bandHash)
  {
    LshCandidatesIff(sub, fingerprint, bandHash, p, q);
    var fps, fps' := Fingerprints(texts, fingerprint), Fingerprints(sub, fingerprint);
    assert fps'[p] == fps[idx[p]] && fps'[q] == fps[idx[q]];
    LshCandidatesIff(texts, fingerprint, bandHash, idx[p], idx[q]);
  }

  /** The rows the `lsh` method keeps are still in date order. */
  lemma KeptRowsInDateOrder(f: Frame, drop: set<DocId>)
    ensures var kept := Without(SortRows(f).rows, drop);
      forall i, j :: 0 <= i < j < |kept| ==> !KeyLess(f.dates, kept[j], kept[i])
  {
    var sorted := SortRows(f).rows;
    var idx := KeptIndices(|sorted|, drop);
    var kept := Without(sorted, drop);
    forall i, j | 0 <= i < j < |kept| ensures !KeyLess(f.dates, kept[j], kept[i]) {
      assert kept[i] == sorted[idx[i]] && kept[j] == sorted[idx[j]] && idx[i] < idx[j];
    }
  }

  /**
   * A sub-list of the texts that avoids the drop set of a run without failures
   * has no failing and no confirmed candidate pair of its own.
   */
  lemma SubTextsClean(sub: seq<string>, texts: seq<string>, idx: seq<nat>,
                      fingerprint: string -> seq<int>, bandHash: seq<int> -> int)
    requires forall t :: |fingerprint(t)| == Seeds
    requires SubTexts(sub, texts, idx)
    requires forall p :: p in LshCandidates(texts, fingerprint, bandHash) ==> !JaccardFails(texts, p)
    requires forall p :: 0 <= p < |idx| ==> idx[p] !in DropSet(texts, LshCandidates(texts, fingerprint, bandHash))
    ensures forall p :: p in LshCandidates(sub, fingerprint, bandHash) ==> !JaccardFails(sub, p)
    ensures DropSet(sub, LshCandidates(sub, fingerprint, bandHash)) == {}
  {
    var pairs' := LshCandidates(sub, fingerprint, bandHash);
    forall p | p in pairs' ensures !JaccardFails(sub, p) && !ConfirmedDuplicate(sub, p) {
      SubTextsCandidate(sub, texts, idx, fingerprint, bandHash, p.0, p.1);
      var orig := (idx[p.0], idx[p.1]);
      assert ShingleJaccard(sub, p) == ShingleJaccard(texts, orig);
      assert orig.1 !in DropSet(texts, LshCandidates(texts, fingerprint, bandHash));
    }
  }

  /** A successful run: no candidate pair failed, and the result is the sorted rows without the drop set. */
  lemma LshCleanOk(f: Frame, fingerprint: string -> seq<int>, bandHash: seq<int> -> int)
    requires forall t :: |fingerprint(t)| == Seeds
    requires LshClean(f, fingerprint, bandHash).Ok?
    ensures var texts := Texts(SortRows(f).rows);
      var pairs := LshCandidates(texts, fingerprint, bandHash);
      && (forall p :: p in pairs ==> !JaccardFails(texts, p))
      && LshClean(f, fingerprint, bandHash) == Ok(Frame(f.dates, Without(SortRows(f).rows, DropSet(texts, pairs))))
  {
  }

  /** The texts of the kept rows are the texts at the kept positions. */
  lemma KeptSubTexts(sorted: seq<Row>, drop: set<DocId>)
    ensures SubTexts(Texts(Without(sorted, drop)), Texts(sorted), KeptIndices(|sorted|, drop))
  {
  }

  /** A frame in date order whose candidate pairs neither fail nor are confirmed comes back unchanged. */
  lemma LshCleanUnchanged(g: Frame, fingerprint: string -> seq<int>, bandHash: seq<int> -> int)
    requires forall t :: |fingerprint(t)| == Seeds
    requires SortRows(g) == g
    requires forall p :: p in LshCandidates(Texts(g.rows), fingerprint, bandHash) ==> !JaccardFails(Texts(g.rows), p)
    requires DropSet(Texts(g.rows), LshCandidates(Texts(g.rows), fingerprint, bandHash)) == {}
    ensures LshClean(g, fingerprint, bandHash) == Ok(g)
  {
    WithoutNothing(g.rows);
  }

  /**
   * With the same fingerprint and band-hash functions, a second run of the
   * `lsh` method on its own result drops nothing: the kept rows are already in
   * date order, every candidate pair among them is a candidate pair of the
   * first run, and none of those was confirmed.
   */
  lemma LshCleanIdempotent(f: Frame, fingerprint: string -> seq<int>, bandHash: seq<int> -> int)
    requires forall t :: |fingerprint(t)| == Seeds
    requires LshClean(f, fingerprint, bandHash).Ok?
    ensures LshClean(LshClean(f, fingerprint, bandHash).value, fingerprint, bandHash) == LshClean(f, fingerprint, bandHash)
  {
    var sorted := SortRows(f).rows;
    var texts := Texts(sorted);
    var drop := DropSet(texts, LshCandidates(texts, fingerprint, bandHash));
    var g := Frame(f.dates, Without(sorted, drop));
    LshCleanOk(f, fingerprint, bandHash);
    KeptRowsInDateOrder(f, drop);
    SortOfDateOrderedIsIdentity(g);
    KeptSubTexts(sorted, drop);
    SubTextsClean(Texts(g.rows), texts, KeptIndices(|sorted|, drop), fingerprint, bandHash);
    LshCleanUnchanged(g, fingerprint, bandHash);
  }

  /** Two rows with the same text of more than 5 characters: the later one in date order is dropped. */
  lemma IdenticalTextsDropped(texts: seq<string>, fingerprint: string -> seq<int>, bandHash: seq<int> -> int, a: DocId, b: DocId)
    requires forall t :: |fingerprint(t)| == Seeds
    requires a < b < |texts| && texts[a] == texts[b] && |texts[a]| > DefaultNgram
    ensures b in DropSet(texts, LshCandidates(texts, fingerprint, bandHash))
  {
    var fps := Fingerprints(texts, fingerprint);
    SameBandIsCandidate(fps, NumBands, BandWidth, bandHash, a, b, 0);
    var sh := Shingles(texts[a], DefaultNgram);
    assert Window(texts[a], 0, DefaultNgram) in sh;
    JaccardOneIffEqual(sh, sh);
    assert ConfirmedDuplicate(texts, (a, b));
  }

  /** Two rows of the same text of at most 5 characters are a candidate pair whose confirmation divides by zero. */
  lemma IdenticalShortPairFails(texts: seq<string>, fingerprint: string -> seq<int>, bandHash: seq<int> -> int, a: DocId, b: DocId)
    requires forall t :: |fingerprint(t)| == Seeds
    requires a < b < |texts| && texts[a] == texts[b] && |texts[a]| <= DefaultNgram
    ensures (a, b) in LshCandidates(texts, fingerprint, bandHash) && JaccardFails(texts, (a, b))
  {
    SameBandIsCandidate(Fingerprints(texts, fingerprint), NumBands, BandWidth, bandHash, a, b, 0);
  }

  /** Two distinct rows of a frame sit, in some order, at two distinct positions of the sorted rows. */
  lemma SortedPositionsOf(f: Frame, a: nat, b: nat) returns (lo: nat, hi: nat)
    requires a < b < |f.rows|
    ensures lo < hi < |SortRows(f).rows|
    ensures {SortRows(f).rows[lo], SortRows(f).rows[hi]} == {f.rows[a], f.rows[b]}
  {
    var pa := SortOrderHas(f, a);
    var pb := SortOrderHas(f, b);
    lo, hi := if pa < pb then pa else pb, if pa < pb then pb else pa;
  }

  /** Two rows with the same text of at most 5 characters make the whole `lsh` method divide by zero. */
  lemma IdenticalShortTextsFail(f: Frame, fingerprint: string -> seq<int>, bandHash: seq<int> -> int, a: DocId, b: DocId)
    requires forall t :: |fingerprint(t)| == Seeds
    requires a < b < |f.rows| && f.rows[a].text == f.rows[b].text && |f.rows[a].text| <= DefaultNgram
    ensures LshClean(f, fingerprint, bandHash) == Err(ZeroDivisionError)
  {
    var sorted := SortRows(f).rows;
    var lo, hi := SortedPositionsOf(f, a, b);
    var texts := Texts(sorted);
    assert texts[lo] == sorted[lo].text && texts[hi] == sorted[hi].text;
    IdenticalShortPairFails(texts, fingerprint, bandHash, lo, hi);
  }
}
