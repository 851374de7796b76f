# minwisehash in Dafny

A model of the similarity engine in `minwisehash/minwisehash.py`. The engine compares documents, each given as a boolean feature vector, in two ways:

- exactly, by the Jaccard similarity of their vectors;
- approximately, through min-wise hashing. Each document becomes a signature holding, for every random permutation of the feature indices, the first index along that permutation whose bit is set. Two documents are then scored by the Jaccard similarity of their signatures read as sets.

Both scores are collected in pairwise similarity matrices over document pairs (i, j) with i < j. The error of the sketch is the root of the summed squared differences between the two matrices. The pool of permutations grows, without repeats, through the sketch sizes k = 16, 32, … .

Modules, one per file:

- `common.dfy`: `Wrappers` (Option) and `Seqs` (duplicate-freedom, element sets, cardinality facts).
- `jaccard.dfy`: `Jaccard`, both versions of `__jaccard_similarity`.
- `matrix.dfy`: `SimilarityMatrix`, `__generate_similarity_matrix`. The nested dictionary `matrix[i][j]` becomes a map keyed by the pair (i, j).
- `signatures.dfy`: `Signatures`, `__generate_signatures`.
- `pool.dfy`: `PermutationPool`, the pool-growth loop inside `begin`.
- `error.dfy`: `ErrorScore`, `__error`.
- `rounds.dfy`: `Rounds`, what one iteration of `for k in num_hashes` promises (pool side and score side), and the record of the iterations run so far.
- `experiment.dfy`: `Experiment`, one pass of `begin` over one dataset, composed from the parts above.

Modelling choices:

- Scores are `real`.
- Python's dictionary iteration order is an input: either an enumeration `order` of the keys, or an arbitrary pick with `:|`. Results are proved to be independent of it.
- `random.shuffle` is replaced by a finite stream of candidate permutations.

## Model

| member | source | states |
|---|---|---|
| Jaccard.RatioFacts | minwisehash/minwisehash.py:51 | when inter <= union, the returned quotient lies in [0, 1]; it is 0.0 exactly when inter is 0, empty union included; it is 1.0 exactly when inter == union > 0 |
| Jaccard.CardInterUnion | minwisehash/minwisehash.py:49-50 | the intersection is never larger than the union, and they have equal size only for equal sets |
| Jaccard.SetJaccard | minwisehash/minwisehash.py:48-51 | set Jaccard similarity lies in [0, 1]; it is 0.0 exactly for disjoint sets and 1.0 exactly for equal non-empty sets |
| Jaccard.UnionCountIsUnionSize | minwisehash/minwisehash.py:45-46 | the running `union` count over the first n positions equals the size of the union of the two vectors' set positions |
| Jaccard.InterCountIsInterSize | minwisehash/minwisehash.py:45-47 | the running `inter` count over the first n positions equals the size of the intersection of the set positions |
| Jaccard.CountsAreSetSizes | minwisehash/minwisehash.py:44-47 | both running counts of version 0 are set sizes, so inter never exceeds union |
| Jaccard.ExactSimilarity | minwisehash/minwisehash.py:44-51 | the version-0 score, counted over the positions `zip` pairs up, lies in [0, 1] |
| Jaccard.ExactIsSetJaccard | minwisehash/minwisehash.py:44-47 | version 0 equals the set Jaccard similarity of the positions set in each vector, within the common length |
| Jaccard.ExactZeroIff | minwisehash/minwisehash.py:44-51 | the exact score is 0.0 exactly when no position within the common length is set in both vectors |
| Jaccard.ExactOneIff | minwisehash/minwisehash.py:44-51 | the exact score is 1.0 exactly when both vectors agree on every paired position and at least one bit is set |
| Jaccard.ExactSymmetric | minwisehash/minwisehash.py:44-51 | swapping the two vectors leaves the exact score unchanged, even for vectors of different lengths |
| Jaccard.ExactSelfSimilarity | minwisehash/minwisehash.py:44-51 | a vector scores 1.0 against itself when some bit is set, and 0.0 when none is |
| Jaccard.Example | minwisehash/minwisehash.py:44-51 | worked example: 1100 vs 1010 scores 1/3; 1100 vs 0000 and 1010 vs 0000 both score 0 |
| Jaccard.SketchSimilarity | minwisehash/minwisehash.py:48-51 | the version-1 score lies in [0, 1], and is 1.0 exactly when both signatures hold the same non-empty set of indices |
| Jaccard.SketchZeroIff | minwisehash/minwisehash.py:48-51 | the sketch score is 0.0 exactly when the signatures share no feature index |
| Jaccard.SketchSymmetric | minwisehash/minwisehash.py:48-51 | swapping the two signatures leaves the sketch score unchanged |
| Jaccard.SketchSelfSimilarity | minwisehash/minwisehash.py:48-51 | a non-empty signature scores 1.0 against itself; the empty signature scores 0.0 |
| SimilarityMatrix.BuildMatrix | minwisehash/minwisehash.py:66-78 | for any visiting order, the matrix has an entry for (i, j) exactly when i and j are keys with i < j (no diagonal, no reversed pairs), holding the similarity of documents i and j |
| SimilarityMatrix.PairMatrixEntry | minwisehash/minwisehash.py:71-77 | the order-free matrix holds, at every key pair (i, j) with i < j, the similarity of documents i and j |
| SimilarityMatrix.PairMatrixUnique | minwisehash/minwisehash.py:68-77 | any matrix with those entries is the one order-free matrix, so the result does not depend on dictionary order |
| SimilarityMatrix.RowsOfPairMatrix | minwisehash/minwisehash.py:74-77 | an inner dictionary (row) for i exists exactly when i is a key and some larger key exists |
| SimilarityMatrix.BaselineScoresInRange | minwisehash/minwisehash.py:71-77 | every score of a version-0 matrix lies in [0, 1] |
| SimilarityMatrix.SketchScoresInRange | minwisehash/minwisehash.py:71-77 | every score of a version-1 matrix lies in [0, 1] |
| SimilarityMatrix.SameKeys | minwisehash/minwisehash.py:66-78 | two matrices built over datasets with the same keys have the same pairs |
| Signatures.FirstHit | minwisehash/minwisehash.py:94-97 | the position found has its feature bit set and no earlier position does; finding none means no position from the start does |
| Signatures.MinHashIsFirstSet | minwisehash/minwisehash.py:93-97 | a permutation yields an index exactly when some index along it is set; that index is the first set one in permutation order |
| Signatures.Signature | minwisehash/minwisehash.py:92-97 | a signature is never longer than the pool, and each element is a feature index whose bit is set |
| Signatures.SignatureOfPermutations | minwisehash/minwisehash.py:92-97 | when every pool entry is a bijection on [0, L): a vector with a set bit gets exactly one element per permutation, each its min-wise index; an all-zero vector gets the empty signature |
| Signatures.ScanPermutation | minwisehash/minwisehash.py:94-97 | the inner loop reports a hit exactly when the min-wise index exists, and then returns it, with its bit set |
| Signatures.GenerateSignature | minwisehash/minwisehash.py:92-99 | the per-document loop builds exactly the signature defined above, one min-wise index per hitting permutation in pool order |
| Signatures.GenerateSignatures | minwisehash/minwisehash.py:89-100 | for any visiting order, every document of the dataset, and nothing else, gets its signature |
| PermutationPool.AppendNewOrder | minwisehash/minwisehash.py:146-151 | drawing candidates in order only appends to the pool; every candidate drawn ends up in the pool; every appended entry is a candidate; appended entries keep the order in which each was first drawn |
| PermutationPool.AppendNewFacts | minwisehash/minwisehash.py:150-151 | appending only candidates not yet present keeps a duplicate-free pool duplicate-free, and the pool then holds exactly the old entries and the candidates drawn |
| PermutationPool.AppendNewConcat | minwisehash/minwisehash.py:144-151 | drawing a and then b into the pool gives the same pool as drawing a followed by b, so the rounds of the k-loop compose into one stream of draws |
| PermutationPool.DrawOrderUnique | minwisehash/minwisehash.py:146-151 | a duplicate-free extension of the pool that holds exactly the old entries and the drawn candidates, with the new entries in first-draw order, is the pool the loop builds; so these properties pin the result down |
| PermutationPool.GrowPool | minwisehash/minwisehash.py:146-151 | the loop's result is the old pool with each new candidate appended in draw order and each repeat dropped; it is duplicate-free and holds exactly the old pool and the candidates consumed; it never exceeds max(k, old length); it is untouched (nothing drawn) when already of length k or more; when it reaches k it has exactly k entries and the last draw consumed was new and is the last entry, so no draw is consumed after the pool is full; it stops short of k only when the stream is used up, and with enough distinct candidates it reaches length k |
| PermutationPool.GrownSize | minwisehash/minwisehash.py:146-151 | the grown pool's length is the old length plus the number of distinct new candidates |
| PermutationPool.GrownPoolValid | minwisehash/minwisehash.py:147-151 | when the old pool and every candidate are permutations of [0, L), so is every entry of the grown pool |
| PermutationPool.OnlyPermutationOfOne | minwisehash/minwisehash.py:147-148 | the only permutation of a single feature is [0] |
| PermutationPool.SingleFeaturePoolBound | minwisehash/minwisehash.py:146-151 | with one feature, a duplicate-free pool of permutations never exceeds length 1, so `len(permutations) < k` stays true for every k >= 2 |
| PermutationPool.NoFeaturePoolBound | minwisehash/minwisehash.py:146-151 | with no features the only permutation is the empty one, so a duplicate-free pool never exceeds length 1 and `len(permutations) < k` stays true for every k >= 2 |
| ErrorScore.SquareSign | minwisehash/minwisehash.py:114 | a squared difference is non-negative, and zero exactly for a zero difference |
| ErrorScore.SquaredSumRemove | minwisehash/minwisehash.py:112-114 | the accumulated sum is independent of the visiting order: any key can be taken first |
| ErrorScore.SquaredSumNonNegative | minwisehash/minwisehash.py:111-114 | the accumulated sum of squares is non-negative |
| ErrorScore.SquaredSumZeroIff | minwisehash/minwisehash.py:111-114 | the sum is zero exactly when both matrices agree on every key visited |
| ErrorScore.SquaredSumSymmetric | minwisehash/minwisehash.py:114 | exchanging the two matrices leaves the sum unchanged |
| ErrorScore.Error | minwisehash/minwisehash.py:111-115 | given every `baseline` key is a `minhash` key (otherwise the lookup fails), the loop accumulates the order-free sum of squares; the result is non-negative and zero exactly when both matrices agree on every `baseline` key |
| ErrorScore.ErrorArgumentOrder | minwisehash/minwisehash.py:102-115 | for matrices over the same pairs, swapping the two arguments (line 161 passes them opposite to the parameter names) gives the same sum |
| ErrorScore.SelfErrorZero | minwisehash/minwisehash.py:111-114 | a matrix scored against itself has error zero |
| Rounds.PermutationsIndexDataset | minwisehash/minwisehash.py:131-155 | when every vector has document 0's length L, permutations of range(L) can index every document |
| Rounds.DrawPoolIsAppendNew | minwisehash/minwisehash.py:143-151 | the pool after the first n draws of the stream, counted draw by draw from the empty `permutations = []`, is the pool the loop builds from those draws |
| Rounds.DrawPoolFacts | minwisehash/minwisehash.py:150-151 | the pool after the first n draws is duplicate-free and holds exactly the permutations drawn |
| Rounds.DrawsCombine | minwisehash/minwisehash.py:143-151 | a pool grown by `used` draws in first-draw order from the pool of the first `consumed` draws is the pool of the first consumed + used draws, holding exactly those draws |
| Rounds.CloseRound | minwisehash/minwisehash.py:144-151 | an iteration that grew the pool of all draws so far as GrowPool states is a round as PoolRound describes: its pool is the pool of all draws up to then, it only appends, stays within max(k, old length), is untouched at or above k, and falls short of k only when it holds every candidate |
| Rounds.RoundStart | minwisehash/minwisehash.py:143-146 | each iteration starts from the pool the draws so far built (the empty list for the first): duplicate-free and made of candidates |
| Rounds.RecordPool | minwisehash/minwisehash.py:144-151 | recording a round that starts from the last recorded pool keeps every earlier round as it was and adds the new one |
| Rounds.RecordScore | minwisehash/minwisehash.py:155-161 | recording the error of a new pool keeps every earlier error as it was and adds the new one |
| Rounds.AdvancePools | minwisehash/minwisehash.py:144-151 | a pool grown as GrowPool states from the last recorded pool, on the candidates not yet drawn, is recorded as the next round, with the new draw count |
| Rounds.RecordedRounds | minwisehash/minwisehash.py:143-161 | with every candidate a permutation of [0, L), every recorded round is as RoundOk describes: the pool side, a duplicate-free pool of candidate permutations indexing every document, and the error of that pool |
| Rounds.PoolGrowsFrom | minwisehash/minwisehash.py:143-151 | `permutations` is created once per dataset and only appended to, so the pool of an earlier k is a prefix of the pool of any later k |
| Rounds.PoolsGrow | minwisehash/minwisehash.py:143-151 | every recorded pool is a prefix of every later one |
| Rounds.EnoughCandidatesReachK | minwisehash/minwisehash.py:144-151 | when the stream holds at least ks[t] distinct permutations, round t's pool reaches length ks[t] |
| Experiment.SketchAgreementIff | minwisehash/minwisehash.py:155-161 | with the arguments as called (sketch matrix in the `baseline` parameter), both matrices share their pairs, so no lookup fails; they agree on every pair exactly when every pair's sketch score equals its exact score |
| Experiment.EntriesArePairErrors | minwisehash/minwisehash.py:112-114 | each pair's term `(score - minhash[i][j]) ** 2` is the squared difference between that pair's sketch score under the pool and its exact score |
| Experiment.SquaredSumIsPairErrorSum | minwisehash/minwisehash.py:111-114 | over any set of pairs, the sum `__error` accumulates is the sum, pair by pair, of the squared difference between the sketch score under the pool and the exact score |
| Experiment.ErrorIsSketchError | minwisehash/minwisehash.py:155-161 | the value `__error(baseline_sim, minhash_sim)` accumulates for signatures generated with the pool is SketchError of that pool: the squared differences summed over every pair of documents |
| Experiment.SketchRound | minwisehash/minwisehash.py:146-161 | one k-iteration grows the pool exactly as GrowPool states (including which draws are consumed), every entry stays a permutation of [0, L), and the error is SketchError of the grown pool: non-negative, and zero exactly when, under the grown pool, every pair's sketch score equals its exact score |
| Experiment.NextRound | minwisehash/minwisehash.py:144-161 | one pass of `for k in num_hashes` from the last pool and the draws not yet consumed: afterwards one more pool, draw count and error are recorded, each earlier round unchanged, the new round as PoolRound and Scored describe |
| Experiment.RunDataset | minwisehash/minwisehash.py:129-161 | over the sketch sizes in order, one pool, one draw count and one error per k; round t's pool is exactly the pool the first counts[t] draws of the stream build (each draw appended unless already held, so the distinct draws in first-draw order); it extends round t-1's pool (the empty pool first), is made of valid candidate permutations, at most max(ks[t], previous length), untouched when the previous pool already had ks[t] entries, and short of ks[t] only when it holds every candidate; pools are prefix-monotone; each error is the sum over every pair of documents of the squared difference between sketch and exact score under that pool, non-negative and zero exactly when they agree on every pair; with enough distinct candidates every pool reaches its k |

## Left out

- ErrorScore.Error: returns the sum of squares, not its square root. `math.sqrt` and IEEE floating point are left out; the square root preserves non-negativity and the zero case, which are proved for the sum.
- PermutationPool.GrowPool: `random.shuffle` is replaced by a finite stream of candidate permutations. The loop also stops when the stream runs out, whereas the source keeps drawing until the pool holds k distinct permutations. That is forever only when fewer than k permutations of range(L) exist (L! < k, see Findings). Nothing about the distribution of the draws, or about the error shrinking as k grows, is modelled; both are probabilistic.
- Experiment.RunDataset: models one dataset per call; the outer loop over the list of feature-vector sets (line 129) is its repetition. The sketch sizes are a parameter rather than the constant `num_hashes`, and the dataset names `fv_dataset_name` are only printed.
- Printing and timing in `begin` (lines 134-140, 153-162) are left out as pure output; `begin` returns nothing, and the model returns, per k, the sum of squares whose square root `begin` would print.
- `lab5.py` and the preprocessing module it calls are not part of this model; they load data and drive `begin`.
- Jaccard: the `version` argument is modelled as two functions. A version other than 0 or 1 (never passed by the source) would return 0.0.
- Jaccard.ExactSimilarity: feature vectors are `seq<bool>`. The source's 0/1 integers combined with `|` and `&` behave the same only for 0 and 1, and other values are not modelled.
- The flattened dataset `flat` (line 136) and the `.vector` field: the model works on the vectors directly.
- Empty feature vectors (L = 0): the code does not check for them. In the source the pool loop then never ends, since the only permutation of range(0) is the empty one (0! = 1 < k); this is the L = 0 case of the Findings row (PermutationPool.NoFeaturePoolBound). Empty permutations, empty signatures and scores of 0.0 arise only in the model, because its candidate stream is finite and GrowPool stops when it runs out.
- `begin` reads `dataset[0]`, so `Experiment` requires document 0 to exist and every vector to share its length.

## Findings

| source | as written | input that shows it | evidently intended | confidence | as-written member | corrected member |
|---|---|---|---|---|---|---|
| minwisehash/minwisehash.py:146-151 | the pool loop repeats until the pool holds k distinct permutations of range(L), but only L! exist | L = 1 (one feature) or L = 0 (no features), with k = 16: every shuffle yields the one permutation ([0] or []), since 1! = 0! = 1 < 16, so the pool never grows past one entry and the loop never ends | stop once no new permutation can be found, keeping the pool duplicate-free | high that the loop cannot end for L! < k; not executed | PermutationPool.SingleFeaturePoolBound, PermutationPool.NoFeaturePoolBound | PermutationPool.GrowPool |
