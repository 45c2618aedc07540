/**
 * Banded LSH candidate generation (preprocess.py, `candidate_duplicates`).
 *
 * The MinHash fingerprint and the bucket key of a band come from the external
 * `lsh` library and are parameters here: `fingerprint` maps a text to its
 * `seeds` hash values, `bandHash` maps the values of one band to a bucket key.
 * The cache is assumed to cut a fingerprint into `bands` equal, consecutive
 * bands and to file the document under key `bandHash(band)` in the bin of that
 * band position; that slicing is library code and is stated here, not derived.
 */
module Lsh {
  import opened Common

  /** A document is identified by its row position. */
  type DocId = nat

  /** An unordered pair of document ids, written smaller id first. */
  type Pair = (DocId, DocId)

  /** The key of a bucket: the hash of one band's values, as the cache computes it. */
  datatype BucketKey = BucketKey(hash: int)

  /** One band position of the cache: bucket key to the documents filed under it. */
  type Bin = map<BucketKey, set<DocId>>

  /** `fp` cut into `n` consecutive bands of `width` values each. */
  function Bands(fp: seq<int>, n: nat, width: nat): (bands: seq<seq<int>>)
    requires |fp| == n * width
    ensures |bands| == n
    ensures forall j :: 0 <= j < n ==> |bands[j]| == width
    decreases n
  {
    if n == 0 then [] else [fp[..width]] + Bands(fp[width..], n - 1, width)
  }

  /** Band `j` is the slice of values `j * width .. (j + 1) * width` of the fingerprint. */
  lemma {:induction false} BandsAreSlices(fp: seq<int>, n: nat, width: nat, j: nat)
    requires |fp| == n * width && j < n
    ensures j * width + width <= |fp|
    ensures Bands(fp, n, width)[j] == fp[j * width .. j * width + width]
    decreases n
  {
    if j > 0 {
      BandsAreSlices(fp[width..], n - 1, width, j - 1);
      assert (j - 1) * width + width == j * width;
    }
  }

  /** Files document `d` under `key`, creating the bucket if needed. */
  function Insert(bin: Bin, key: BucketKey, d: DocId): (r: Bin)
    ensures r.Keys == bin.Keys + {key}
    ensures forall k, x :: k in r && x in r[k] <==> (k in bin && x in bin[k]) || (k == key && x == d)
  {
    bin[key := (if key in bin then bin[key] else {}) + {d}]
  }

  /** The bins after filing document `d`, whose bands are `bands`, in every band position. */
  function AddToBins(bins: seq<Bin>, bands: seq<seq<int>>, d: DocId, bandHash: seq<int> -> int): (r: seq<Bin>)
    requires |bands| == |bins|
    ensures |r| == |bins|
    ensures forall j: nat, key, x: DocId :: InBucket(r, j, key, x) <==>
      InBucket(bins, j, key, x) || (j < |bins| && key == BucketKey(bandHash(bands[j])) && x == d)
  {
    seq(|bins|, j requires 0 <= j < |bins| => Insert(bins[j], BucketKey(bandHash(bands[j])), d))
  }

  /** `n` empty bins, as a fresh cache has. */
  function EmptyBins(n: nat): (bins: seq<Bin>)
    ensures |bins| == n && forall j :: 0 <= j < n ==> bins[j] == map[]
  {
    seq(n, _ => map[])
  }

  /** The bins after filing the documents `0 .. |fps| - 1` in order, document `i` with fingerprint `fps[i]`. */
  function BinsOf(fps: seq<seq<int>>, n: nat, width: nat, bandHash: seq<int> -> int): (bins: seq<Bin>)
    requires forall i :: 0 <= i < |fps| ==> |fps[i]| == n * width
    ensures |bins| == n
    ensures forall j: nat, key, d: DocId :: InBucket(bins, j, key, d) ==> d < |fps|
  {
    if fps == [] then EmptyBins(n)
    else AddToBins(BinsOf(fps[..|fps| - 1], n, width, bandHash), Bands(fps[|fps| - 1], n, width), |fps| - 1, bandHash)
  }

  /** Document `d` sits in the bucket `key` of band position `j`. */
  predicate InBucket(bins: seq<Bin>, j: nat, key: BucketKey, d: DocId)
  {
    j < |bins| && key in bins[j] && d in bins[j][key]
  }

  /** Document `d` is filed under `key` in band `j` exactly when it is one of the documents and its band `j` hashes to `key`. */
  lemma {:induction false} BinsOfMembership(fps: seq<seq<int>>, n: nat, width: nat, bandHash: seq<int> -> int, j: nat, key: BucketKey, d: DocId)
    requires forall i :: 0 <= i < |fps| ==> |fps[i]| == n * width
    requires j < n
    ensures InBucket(BinsOf(fps, n, width, bandHash), j, key, d)
        <==> d < |fps| && BucketKey(bandHash(Bands(fps[d], n, width)[j])) == key
  {
    if fps != [] {
      var last := |fps| - 1;
      BinsOfMembership(fps[..last], n, width, bandHash, j, key, d);
      if d < last {
        assert fps[..last][d] == fps[d];
      }
    }
  }

  /** All pairs `(a, b)` with `a < b` drawn from one bucket (`itertools.combinations(bucket, 2)`, smaller id first). */
  function Combinations(bucket: set<DocId>): (r: set<Pair>)
    ensures forall a, b :: (a, b) in r <==> a in bucket && b in bucket && a < b
    ensures |bucket| <= 1 ==> r == {}
  {
    var r := set a, b | a in bucket && b in bucket && a < b :: (a, b);
    if |bucket| <= 1 then
      assert forall a, b :: a in bucket && b in bucket && a < b ==> false by {
        forall a, b | a in bucket && b in bucket && a < b ensures false {
          assert {a, b} <= bucket;
          assert |{a, b}| == 2;
          SubsetCardinality({a, b}, bucket);
        }
      }
      r
    else r
  }

  /** The pairs contributed by the buckets `keys` of one bin. */
  function PairsOfBuckets(bin: Bin, keys: set<BucketKey>): (r: set<Pair>)
  {
    set key, a, b | key in keys && key in bin && a in bin[key] && b in bin[key] && a < b :: (a, b)
  }

  /** The pairs contributed by all buckets of all bins, aggregated as a set. */
  function CandidatePairs(bins: seq<Bin>): (r: set<Pair>)
    ensures forall p :: p in r ==> p.0 < p.1
  {
    if bins == [] then {}
    else CandidatePairs(bins[..|bins| - 1]) + PairsOfBuckets(bins[|bins| - 1], bins[|bins| - 1].Keys)
  }

  /** Documents `a` and `b` share some bucket of some band position. */
  ghost predicate ShareBucket(bins: seq<Bin>, a: DocId, b: DocId)
  {
    exists j: nat, key :: InBucket(bins, j, key, a) && InBucket(bins, j, key, b)
  }

  /** A pair is a candidate exactly when its two (distinct, ordered) ids share a bucket. */
  lemma {:induction false} CandidatePairsShareBucket(bins: seq<Bin>, a: DocId, b: DocId)
    ensures (a, b) in CandidatePairs(bins) <==> a < b && ShareBucket(bins, a, b)
  {
    if bins != [] {
      var last := |bins| - 1;
      CandidatePairsShareBucket(bins[..last], a, b);
      if a < b && ShareBucket(bins, a, b) {
        var j: nat, key :| InBucket(bins, j, key, a) && InBucket(bins, j, key, b);
        if j < last {
          assert InBucket(bins[..last], j, key, a) && InBucket(bins[..last], j, key, b);
        } else {
          assert (a, b) in PairsOfBuckets(bins[last], bins[last].Keys);
        }
      }
      if (a, b) in PairsOfBuckets(bins[last], bins[last].Keys) {
        var key :| key in bins[last] && a in bins[last][key] && b in bins[last][key];
        assert InBucket(bins, last, key, a) && InBucket(bins, last, key, b);
      }
      if ShareBucket(bins[..last], a, b) {
        var j: nat, key :| InBucket(bins[..last], j, key, a) && InBucket(bins[..last], j, key, b);
        assert InBucket(bins, j, key, a) && InBucket(bins, j, key, b);
      }
    }
  }

  /** Document `a` and document `b` have some band position whose band values hash to the same key. */
  ghost predicate SameBandKey(fps: seq<seq<int>>, n: nat, width: nat, bandHash: seq<int> -> int, a: DocId, b: DocId)
    requires forall i :: 0 <= i < |fps| ==> |fps[i]| == n * width
    requires a < |fps| && b < |fps|
  {
    exists j :: 0 <= j < n && bandHash(Bands(fps[a], n, width)[j]) == bandHash(Bands(fps[b], n, width)[j])
  }

  /**
   * Soundness and completeness of candidate generation: `(a, b)` is produced
   * exactly when `a < b` are documents and some band of theirs falls in the same bucket.
   */
  lemma CandidatePairsIff(fps: seq<seq<int>>, n: nat, width: nat, bandHash: seq<int> -> int, a: DocId, b: DocId)
    requires forall i :: 0 <= i < |fps| ==> |fps[i]| == n * width
    ensures (a, b) in CandidatePairs(BinsOf(fps, n, width, bandHash))
        <==> a < b < |fps| && SameBandKey(fps, n, width, bandHash, a, b)
  {
    var bins := BinsOf(fps, n, width, bandHash);
    CandidatePairsShareBucket(bins, a, b);
    if a < b && ShareBucket(bins, a, b) {
      var j: nat, key :| InBucket(bins, j, key, a) && InBucket(bins, j, key, b);
      BinsOfMembership(fps, n, width, bandHash, j, key, a);
      BinsOfMembership(fps, n, width, bandHash, j, key, b);
    }
    if a < b < |fps| && SameBandKey(fps, n, width, bandHash, a, b) {
      var j :| 0 <= j < n && bandHash(Bands(fps[a], n, width)[j]) == bandHash(Bands(fps[b], n, width)[j]);
      var key := BucketKey(bandHash(Bands(fps[a], n, width)[j]));
      BinsOfMembership(fps, n, width, bandHash, j, key, a);
      BinsOfMembership(fps, n, width, bandHash, j, key, b);
    }
  }

  /** Two documents whose fingerprints agree on a whole band are always a candidate pair. */
  lemma SameBandIsCandidate(fps: seq<seq<int>>, n: nat, width: nat, bandHash: seq<int> -> int, a: DocId, b: DocId, j: nat)
    requires forall i :: 0 <= i < |fps| ==> |fps[i]| == n * width
    requires a < b < |fps| && j < n
    requires Bands(fps[a], n, width)[j] == Bands(fps[b], n, width)[j]
    ensures (a, b) in CandidatePairs(BinsOf(fps, n, width, bandHash))
  {
    CandidatePairsIff(fps, n, width, bandHash, a, b);
  }

  /** The cache of the `lsh` library: one bin per band position, filled by `AddFingerprint`. */
  class Cache {
    const numBands: nat
    const width: nat
    const bandHash: seq<int> -> int
    var bins: seq<Bin>

    ghost predicate Valid()
      reads this
    {
      |bins| == numBands
    }

    constructor (numBands: nat, width: nat, bandHash: seq<int> -> int)
      ensures Valid()
      ensures this.numBands == numBands && this.width == width && this.bandHash == bandHash
      ensures bins == EmptyBins(numBands)
    {
      this.numBands := numBands;
      this.width := width;
      this.bandHash := bandHash;
      bins := EmptyBins(numBands);
    }

    /** Files document `d` in the bucket of each of its bands. */
    method AddFingerprint(fp: seq<int>, d: DocId)
      requires Valid() && |fp| == numBands * width
      modifies this
      ensures Valid()
      ensures bins == AddToBins(old(bins), Bands(fp, numBands, width), d, bandHash)
    {
      var bands := Bands(fp, numBands, width);
      var j := 0;
      while j < numBands
        invariant 0 <= j <= numBands && |bins| == numBands
        invariant forall i :: 0 <= i < j ==> bins[i] == Insert(old(bins)[i], BucketKey(bandHash(bands[i])), d)
        invariant forall i :: j <= i < numBands ==> bins[i] == old(bins)[i]
      {
        bins := bins[j := Insert(bins[j], BucketKey(bandHash(bands[j])), d)];
        j := j + 1;
      }
    }
  }

  /** The fingerprint of every text, in row order. */
  function Fingerprints(texts: seq<string>, fingerprint: string -> seq<int>): (fps: seq<seq<int>>)
    ensures |fps| == |texts|
    ensures forall i :: 0 <= i < |texts| ==> fps[i] == fingerprint(texts[i])
  {
    seq(|texts|, i requires 0 <= i < |texts| => fingerprint(texts[i]))
  }

  /**
   * `candidate_duplicates`: rejects a band count that does not divide the seed
   * count, files every row's fingerprint in a fresh cache under its position,
   * then collects the pairs of every bucket holding more than one document.
   */
  method CandidateDuplicates(texts: seq<string>, fingerprint: string -> seq<int>, bandHash: seq<int> -> int, seeds: nat, bands: nat)
    returns (r: Result<set<Pair>>)
    requires forall t :: |fingerprint(t)| == seeds
    ensures bands == 0 ==> r == Err(ZeroDivisionError)
    ensures bands != 0 && seeds % bands != 0 ==> r == Err(ValueError)
    ensures bands != 0 && seeds % bands == 0 ==>
      seeds == bands * (seeds / bands) &&
      r == Ok(CandidatePairs(BinsOf(Fingerprints(texts, fingerprint), bands, seeds / bands, bandHash)))
  {
    if bands == 0 {
      return Err(ZeroDivisionError);
    }
    if seeds % bands != 0 {
      return Err(ValueError);
    }
    var width := seeds / bands;
    assert seeds == bands * width;
    var cache := new Cache(bands, width, bandHash);
    var i := 0;
    while i < |texts|
      invariant 0 <= i <= |texts|
      invariant cache.Valid() && cache.numBands == bands && cache.width == width && cache.bandHash == bandHash
      invariant cache.bins == BinsOf(Fingerprints(texts[..i], fingerprint), bands, width, bandHash)
    {
      ghost var before := Fingerprints(texts[..i], fingerprint);
      cache.AddFingerprint(fingerprint(texts[i]), i);
      assert Fingerprints(texts[..i + 1], fingerprint)[..i] == before;
      i := i + 1;
    }
    assert texts[..|texts|] == texts;
    var pairs := CollectPairs(cache.bins);
    return Ok(pairs);
  }

  /** Adding one more bucket to the scanned ones adds exactly that bucket's combinations. */
  lemma PairsOfOneMoreBucket(bin: Bin, done: set<BucketKey>, key: BucketKey)
    requires key in bin
    ensures PairsOfBuckets(bin, done + {key}) == PairsOfBuckets(bin, done) + Combinations(bin[key])
  {
  }

  /** The inner loop of lines 103-106: the combinations of every bucket of one bin holding more than one document. */
  method CollectBinPairs(bin: Bin) returns (pairs: set<Pair>)
    ensures pairs == PairsOfBuckets(bin, bin.Keys)
  {
    pairs := {};
    var keys := bin.Keys;
    ghost var done: set<BucketKey> := {};
    while keys != {}
      invariant keys + done == bin.Keys && keys !! done
      invariant pairs == PairsOfBuckets(bin, done)
      decreases keys
    {
      var key: BucketKey :| key in keys;
      PairsOfOneMoreBucket(bin, done, key);
      if |bin[key]| > 1 {
        pairs := pairs + Combinations(bin[key]);
      }
      keys := keys - {key};
      done := done + {key};
    }
  }

  /** The two loops of lines 102-106: every bucket of more than one document contributes its combinations. */
  method CollectPairs(allBins: seq<Bin>) returns (pairs: set<Pair>)
    ensures pairs == CandidatePairs(allBins)
  {
    pairs := {};
    var bi := 0;
    while bi < |allBins|
      invariant 0 <= bi <= |allBins|
      invariant pairs == CandidatePairs(allBins[..bi])
    {
      var binPairs := CollectBinPairs(allBins[bi]);
      pairs := pairs + binPairs;
      assert allBins[..bi + 1][..bi] == allBins[..bi];
      bi := bi + 1;
    }
    assert allBins[..|allBins|] == allBins;
  }
}
