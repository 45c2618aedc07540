# Near-duplicate cleaning of listing texts, in Dafny

This project models the duplicate-cleaning part of `preprocess.py` from the
`cl_lda` repository, which prepares rental-listing texts for topic modelling.
It also models the small threshold helper `make_stratifier` from the same
file. The model covers:

- **Shingling and Jaccard similarity** (`shingles`, `jaccard`). A text's
  shingles are its windows of `k` characters. The window starts run up to,
  but not including, `len(text) - k`, so the last window is never taken and a
  text of `k` characters or fewer has no shingles. Jaccard similarity is
  `|A ∩ B| / |A ∪ B|` with no guard, so two empty sets divide by zero.
- **Candidate generation** (`candidate_duplicates`). The band count must
  divide the fingerprint length. Every row's MinHash fingerprint is filed into
  an LSH cache: one bin per band, each a map from bucket key to doc ids. The
  result is the set of all pairs of ids that share a bucket. The cache is a
  class whose `AddFingerprint` updates its bins in place. Pair collection is a
  loop over bins and buckets that grows a set.
- **Duplicate cleaning** (`clean_duplicates`):
  - An integer `method` keeps the first row for each distinct text prefix of
    that length.
  - `"lsh"` does the following:
    - sorts the rows stably by the date columns the frame has;
    - finds candidate pairs (100 seeds, 5 bands);
    - confirms each pair by the Jaccard similarity of its shingle sets,
      recording the Jaccard similarity of the fingerprint values beside it.
      Confirmation always shingles with the window of 5 (`shingles` is
      called without `char_ngram` at preprocess.py:137-138); only the
      candidate hasher sees `char_ngram`, inside the `fingerprint` parameter;
    - drops the later row of every pair whose similarity is at least 0.9.
  - Any other name returns the frame unchanged.
- **Stratifier** (`make_stratifier`). The new column is 1 where the source
  column is strictly above the threshold and 0 elsewhere. In list mode, lists
  of different lengths raise `ValueError`; otherwise each pair of names is
  applied in order.

Python exceptions are `Err` values of a `Result` type: `ValueError`,
`ZeroDivisionError` and `KeyError`. Similarities are exact ratios
`Ratio(num, den)`, and the test `>= .9` is `10 * num >= 9 * den`. The `lsh`
library is not part of this model. Its MinHash fingerprint is a function
parameter returning 100 values per text. Its band hash is a parameter
applied to each band. Cutting a fingerprint into `seeds / bands`
consecutive bands is an assumption about that library (`Lsh.Bands`).

Files:

| file | module | contents |
|---|---|---|
| `common.dfy` | `Common` | `Result`, `Error`, `Range` |
| `similarity.dfy` | `Similarity` | `shingles`, `jaccard` |
| `lsh.dfy` | `Lsh` | bands, the cache class, pair collection, `candidate_duplicates` |
| `frames.dfy` | `Frames` | rows, and dropping rows by position |
| `ordering.dfy` | `DateOrder` | the stable date sort of the `lsh` method |
| `prefix_dedup.dfy` | `PrefixDedup` | the integer method |
| `lsh_dedup.dfy` | `LshDedup` | confirmation, drop list, the `lsh` method as a value |
| `clean_duplicates.dfy` | `Duplicates` | `clean_duplicates` |
| `stratifier.dfy` | `Stratifier` | `make_stratifier` |

`jaccard` divides by `len(union)` without a guard (preprocess.py:89), so two
empty shingle sets raise `ZeroDivisionError`
(`Similarity.JaccardInUnitInterval`). As a result, two rows with the same
text of at most 5 characters make the whole `lsh` method fail
(`LshDedup.IdenticalShortTextsFail`).

## Model

| member | source | states |
|---|---|---|
| Similarity.Shingles | preprocess.py:82-83 | every shingle has exactly `k` characters; a text has no shingles if and only if it has at most `k` characters |
| Similarity.ShingleIsWindow | preprocess.py:83 | every shingle is the substring `text[h..h+k]` for a start `h` with `h + k < len(text)` |
| Similarity.AppendAddsDroppedWindow | preprocess.py:83 | appending one character adds exactly the window starting at `len(text) - k`, the one the exclusive bound leaves out |
| Similarity.ShinglesAreWindowsFromFront | preprocess.py:82-83 | the shingle set equals an independent recursive definition (first window, then the shingles of the rest) |
| Similarity.ShinglesFromFront | preprocess.py:83 | the shingles of a text longer than `k` are its first window plus the shingles of the text without its first character |
| Similarity.ShingleCountBound | preprocess.py:83 | a text has at most `len(text) - k` distinct shingles |
| Similarity.Jaccard | preprocess.py:86-89 | the unguarded division raises `ZeroDivisionError` if and only if both sets are empty |
| Similarity.JaccardSymmetric | preprocess.py:86-89 | `jaccard(a, b) == jaccard(b, a)`, including the error case |
| Similarity.JaccardInUnitInterval | preprocess.py:86-89 | division by zero exactly when both sets are empty; otherwise the value lies in [0, 1] |
| Similarity.JaccardOneIffEqual | preprocess.py:86-89 | for sets not both empty, the similarity is 1 if and only if the sets are equal |
| Similarity.JaccardZeroIffDisjoint | preprocess.py:86-89 | for sets not both empty, the similarity is 0 if and only if the sets are disjoint |
| Lsh.Bands | preprocess.py:100 | a fingerprint of `n * width` values is cut into `n` bands of `width` values each |
| Lsh.BandsAreSlices | preprocess.py:100 | band `j` is the slice `j * width .. (j + 1) * width` of the fingerprint |
| Lsh.AddToBins | preprocess.py:100 | filing doc `d` adds exactly `d` under band `j`'s hash in bin `j`, for every band position, and keeps every earlier membership |
| Lsh.BinsOf | preprocess.py:98-100 | filing rows `0 .. n-1` gives one bin per band, and only those rows are filed |
| Lsh.Insert | preprocess.py:100 | filing a doc id under a key adds exactly that (key, id) membership and that key |
| Lsh.Cache.constructor | preprocess.py:96 | a new cache has one empty bin per band |
| Lsh.Cache.AddFingerprint | preprocess.py:100 | each band's bucket in its bin gains the doc id; nothing else changes |
| Lsh.BinsOfMembership | preprocess.py:98-100 | after filing rows `0 .. n-1`, doc `d` is in bucket `key` of band `j` if and only if `d < n` and `d`'s band `j` hashes to `key` |
| Lsh.CandidatePairs | preprocess.py:101-106 | every collected pair is ordered, smaller id first |
| Lsh.Combinations | preprocess.py:104-105 | the pairs of a bucket are exactly its ids `a < b`; a bucket of at most one id gives none |
| Lsh.CandidatePairsShareBucket | preprocess.py:101-106 | a pair is collected if and only if its ids are ordered and share a bucket of some bin |
| Lsh.CandidatePairsIff | preprocess.py:98-107 | `(a, b)` is a candidate if and only if `a < b < n` and the rows' fingerprints hash equally on some band |
| Lsh.SameBandIsCandidate | preprocess.py:98-107 | two rows whose fingerprints agree on a whole band are always a candidate pair |
| Lsh.CollectBinPairs | preprocess.py:103-106 | the loop over one bin's buckets collects exactly the pairs of its buckets |
| Lsh.CollectPairs | preprocess.py:101-107 | the loop over all bins collects exactly the candidate pairs of the bins, as a set |
| Lsh.CandidateDuplicates | preprocess.py:92-107 | `bands == 0` divides by zero; `seeds % bands != 0` is a `ValueError`; otherwise the result is the candidate pairs of the filled cache |
| Frames.Without | preprocess.py:147 | dropping positions never adds rows: the result is no longer than the input and holds only its rows |
| Frames.KeptIndices | preprocess.py:146-149 | the positions kept are the in-range positions not dropped, in increasing order, and all of them |
| Frames.KeptIndicesCount | preprocess.py:147 | each position is dropped at most once: `n` minus the dropped positions below `n` remain |
| Frames.KeptIndicesNone | preprocess.py:147 | dropping nothing keeps every position |
| Frames.WithoutNothing | preprocess.py:147 | dropping the empty set returns the rows unchanged |
| Frames.WithoutKeeps | preprocess.py:147 | every row whose position is not dropped is kept |
| Frames.WithoutCount | preprocess.py:147 | dropping existing positions removes exactly that many rows |
| DateOrder.BeforeIsStrictTotal | preprocess.py:119-127 | the sort order (date key, then position) is irreflexive, total on distinct positions and transitive |
| DateOrder.InsertPosition | preprocess.py:120 | insertion adds the position once and keeps the rest (multiset) |
| DateOrder.SortPositions | preprocess.py:120 | the sorted positions are a permutation of the input positions |
| DateOrder.SortedCons | preprocess.py:120 | a position ahead of every element of a sorted list can head it |
| DateOrder.InsertPositionSorted | preprocess.py:120 | inserting into a sorted list keeps it sorted |
| DateOrder.SortPositionsSorted | preprocess.py:120 | sorting distinct positions yields them in sort order |
| DateOrder.SortPositionsOfSorted | preprocess.py:120 | an already sorted list is left unchanged |
| DateOrder.SortOrderIsStableSort | preprocess.py:119-127 | the order is a permutation of the positions, dates never decrease along it, and equal dates keep their original order |
| DateOrder.SortRows | preprocess.py:120 | the sorted frame keeps its date columns and row count, holds only the frame's rows, and its dates never decrease |
| DateOrder.SortOrderHas | preprocess.py:120 | every row position appears in the sort order |
| DateOrder.SortOfDateOrderedIsIdentity | preprocess.py:119-127 | rows already in date order (in particular a frame without date columns) keep their positions, and the sorted frame equals the input |
| PrefixDedup.KeepFirstPerPrefix | preprocess.py:114-116 | the result holds only input rows, is no longer than the input, and always starts with the first row |
| PrefixDedup.Prefix | preprocess.py:115 | `text[:m]` is a prefix of the text, of length `min(m, len(text))` for `m >= 0`, and `len(text) + m` (or 0 when that is negative) for `m < 0` |
| PrefixDedup.KeepFirstSelectsFirstRows | preprocess.py:114-116 | the output is the input rows at increasing positions, and a row is kept if and only if no earlier row has the same prefix |
| PrefixDedup.KeepFirstDistinctPrefixes | preprocess.py:114-116 | no two kept rows share a prefix |
| PrefixDedup.KeepFirstCoversPrefixes | preprocess.py:114-116 | every prefix of the input is still present in the output |
| PrefixDedup.KeepFirstIdempotent | preprocess.py:114-116 | cleaning the result again removes nothing |
| LshDedup.ValueSet | preprocess.py:140-141 | the value set holds exactly the fingerprint's values |
| LshDedup.ConfirmPair | preprocess.py:136-143 | one pair: division by zero if and only if both shingle sets are empty; otherwise the record holds the pair, the shingle Jaccard and the Jaccard of the fingerprint value sets |
| LshDedup.Enumerate | preprocess.py:135 | the iteration order lists each candidate pair exactly once |
| LshDedup.ConfirmCandidates | preprocess.py:134-143 | division by zero if and only if some candidate pair has two empty shingle sets; otherwise exactly one correct record per candidate pair |
| LshDedup.RecordsFollowOrder | preprocess.py:134-143 | records aligned with the iteration order cover exactly the candidate pairs, and none of them failed |
| LshDedup.ShingleJaccard | preprocess.py:137-139 | the confirmation of a pair raises `ZeroDivisionError` if and only if both texts have at most 5 characters |
| LshDedup.DropList | preprocess.py:145 | for every record with Jaccard `>= 0.9` its larger id is in the drop list, and every entry is the larger id of such a record |
| LshDedup.DropListIsDropSet | preprocess.py:145 | the drop list built from the records is exactly `{max(a, b)}` over the candidate pairs with shingle Jaccard `>= 0.9` |
| LshDedup.LshCandidatesIff | preprocess.py:129 | a pair is a candidate of the sorted texts if and only if its rows are ordered and agree on some band's hash |
| LshDedup.LshCandidatesValid | preprocess.py:129 | candidate pairs are row positions, smaller first |
| LshDedup.DropSetExactly | preprocess.py:145-149 | row `i` is dropped if and only if some earlier row shares a band hash with it and has Jaccard at least 0.9 (inclusive) |
| LshDedup.DropSetBounds | preprocess.py:145-149 | the first row in date order is never dropped, and only existing rows are |
| LshDedup.LshClean | preprocess.py:118-149 | a failure is a `ZeroDivisionError`; a result keeps the date columns and holds only rows of the input, no more of them |
| LshDedup.LshCleanSingleRow | preprocess.py:118-149 | a frame of at most one row comes back unchanged |
| LshDedup.KeptRowsInDateOrder | preprocess.py:120-147 | the rows left after dropping are still in date order |
| LshDedup.SubTextsCandidate | preprocess.py:98-107 | a candidate pair among the kept rows is a candidate pair of the first run, at the original positions |
| LshDedup.SubTextsClean | preprocess.py:135-147 | kept rows of a successful run have no failing and no confirmed candidate pair among them |
| LshDedup.LshCleanUnchanged | preprocess.py:118-149 | a frame in date order with no failing and no confirmed candidate pair comes back unchanged |
| LshDedup.LshCleanIdempotent | preprocess.py:118-149 | with the same fingerprint and band-hash functions, a second run on the result drops nothing and returns it unchanged |
| LshDedup.LshCleanKeeps | preprocess.py:118-149 | the date columns are kept; every undropped row and the earliest row are kept; exactly as many rows as dropped positions are removed; the kept rows are the undropped positions of the date order, increasing, so still in date order |
| LshDedup.IdenticalTextsDropped | preprocess.py:129-145 | of two rows with the same text of more than 5 characters, the later is dropped |
| LshDedup.IdenticalShortPairFails | preprocess.py:129-139 | two rows with the same text of at most 5 characters are a candidate pair whose confirmation divides by zero |
| LshDedup.SortedPositionsOf | preprocess.py:120 | two distinct rows sit at two distinct positions of the sorted frame |
| LshDedup.IdenticalShortTextsFail | preprocess.py:118-149 | two rows with the same text of at most 5 characters make the `lsh` method raise `ZeroDivisionError` |
| Duplicates.CleanDuplicates | preprocess.py:110-150 | an integer keeps the first row of each prefix; `"lsh"` gives the `lsh` method's result; any other name returns the frame unchanged |
| Duplicates.CleanLsh | preprocess.py:118-149 | the imperative `lsh` branch (candidates, confirmation loop, drop list, drop) computes exactly the `lsh` method's value |
| Stratifier.Flags | preprocess.py:224 | each flag is 0 or 1, and it is 1 if and only if the value is strictly above the threshold |
| Stratifier.StratifyColumn | preprocess.py:221-225 | a missing source column is a `KeyError`; otherwise the new column holds the flags and every other column is unchanged |
| Stratifier.MakeStratifier | preprocess.py:207-225 | one pair gives the single-column result; lists of different lengths give `ValueError`; otherwise the pairs are applied in order, stopping at the first error |
| Stratifier.StratifyAll | preprocess.py:217-218 | a failure is a `KeyError`; a result keeps every column of the frame |
| Stratifier.StratifyAllStopsAtError | preprocess.py:217-218 | once a prefix of the pairs fails, the whole run fails with that error |
| Stratifier.StratifyAllKeys | preprocess.py:217-218 | on success the frame has its old columns plus the new ones, and no others |
| Stratifier.StratifyAllFails | preprocess.py:217-224 | the run fails if and only if some pair names a column that is neither in the frame nor created earlier, and the failure is a `KeyError` |
| Stratifier.StratifyAllRectangular | preprocess.py:217-224 | every column keeps the frame's row count |
| Stratifier.StratifyAllIndependent | preprocess.py:217-224 | with distinct new names that are not source columns, each new column flags its source column of the original frame and all other columns are unchanged |
| Stratifier.FlagsMonotone | preprocess.py:224 | raising the threshold never turns a 0 into a 1 |

## Left out

- The `latlon` method of `clean_duplicates` (preprocess.py:111-113) is a pandas `drop_duplicates` on floating-point coordinates.
- Duplicates.CleanDuplicates: excludes `method == "latlon"` by its precondition, because that branch is not modelled.
- The `lsh` library's internals are outside the model: MinHash hashing, how the cache slices fingerprints and hashes bands. The fingerprints are parameters (`fingerprint`, `confirmFp`). Their length of 100 is a precondition. Band slicing is the assumption `Lsh.Bands`.
- The second cache built in the `lsh` branch (preprocess.py:133) is never used and is not modelled.
- The date sort's `try`/`except` (preprocess.py:119-127) is modelled by its evident intent:
  - sort by year, month and day when the frame has them, else by month and day, else keep positional order;
  - the sort is stable, the index is reset to positions and the original labels are restored after dropping.
  As written, two bare `except:` clauses in one `try` are rejected by Python, `logger` is undefined and `reset` can be unbound.
- Without date columns the model drops rows by position. The source's non-reset branch drops by index label, which matches only for a default index.
- `candidate_duplicates` reads the hard-coded `body_text` column (preprocess.py:99), while confirmation reads `text_col`. The model uses one text column for both stages, which is the same thing for the default `text_col`.
- The orientation of a candidate tuple follows Python's set iteration order. The model normalises each pair to (smaller, larger). Python's candidate set can even hold both `(a, b)` and `(b, a)`, because `itertools.combinations` follows the iteration order of each bucket set, which differs between buckets; `similarities` then holds two records for the pair. Only `max(a, b)` is used downstream, so the drop set is unaffected.
- LshDedup.LshCleanIdempotent: each call of `candidate_duplicates` builds a new `MinHasher` (preprocess.py:93), whose seed values the `lsh` library draws at random. The model fixes one `fingerprint` function across both runs. With freshly drawn seeds, a second run can pair rows the first run never compared, and can drop more.
- LshDedup.Enumerate: the iteration order over the candidate set is some enumeration of it; which one Python picks is not modelled. The result's set of pairs and the drop list do not depend on it. Which failing pair raises first does, but the error is the same.
- A frame without the `text_col` column is outside the model: `Frames.Row` always carries a text. In the source, `text_df[text_col]` raises `KeyError` in the integer method (preprocess.py:115) and in the `lsh` method (preprocess.py:131), and candidate generation reads the `body_text` attribute (preprocess.py:99).
- Missing values (NaN) in the text or date columns are outside the model; `Frames.Row` cannot hold them. In the source, a NaN text reaching `shingles` (preprocess.py:137) raises `TypeError` from `len`; in the integer method `str.slice` turns it into NaN, and `drop_duplicates` treats all NaNs as equal (preprocess.py:115-116); NaN dates sort last in `sort_values` (preprocess.py:120).
- Floating-point similarities are exact ratios. The float quotient compared with `.9` could round differently from the exact ratio at the boundary.
- Stratifier: the default median threshold (preprocess.py:221-222) is a floating-point median; the model takes an explicit `thresh`.
- Stratifier: mixed arguments (one list and one name) and NaN values are not modelled. `np.where` produces an integer column; the model writes 1.0 and 0.0 into a column of reals.
- Stratifier: the copy at preprocess.py:208 needs no counterpart. Frames are values, so the caller's frame is never changed.
- The integer method adds a `body_100` column to the caller's frame before it reassigns `text_df` (preprocess.py:115). That side effect on the caller is not modelled.
- `reset_index` clashes with an existing `index` column, and pandas dtype handling, are not modelled.
- Text cleaning (`cl_clean_text`, `clean_neighborhoods`, `cl_prep_for_lda`), `make_neighborhood_list`, `df_to_corpus`, `MyMemoryCorpus`, all of `lda_output.py` and both `__main__` blocks are left out. They are regex, file and library I/O with no self-contained core.
