/**
 * One pass of `begin` over one dataset: the baseline matrix once, then for
 * each target sketch size k, grow the pool, regenerate every signature over
 * the whole pool, build the sketch matrix and score it against the
 * baseline. Timing and printing are left out; the scores are returned.
 */
module Experiment {
  import opened Seqs
  import opened Jaccard
  import opened SimilarityMatrix
  import opened PermutationPool
  import opened Signatures
  import opened ErrorScore
  import opened Rounds

  /** Every pair's sketch score equals its exact score. */
  ghost predicate SketchAgrees(ds: map<DocId, seq<bool>>, sigs: map<DocId, seq<nat>>)
    requires sigs.Keys == ds.Keys
  {
    forall i, j :: i in ds && j in ds && i < j ==>
      SketchSimilarity(sigs[i], sigs[j]) == ExactSimilarity(ds[i], ds[j])
  }

  /**
   * The error `begin` prints is `__error(baseline_sim, minhash_sim)`: the
   * sketch matrix goes to the parameter named `baseline`, whose keys are
   * iterated. Both matrices range over the same pairs, so no lookup fails,
   * and they agree on every pair exactly when every pair's sketch score
   * equals its exact score.
   */
  lemma SketchAgreementIff(ds: map<DocId, seq<bool>>, sigs: map<DocId, seq<nat>>,
                           exact: Matrix, sketch: Matrix)
    requires sigs.Keys == ds.Keys
    requires IsPairMatrix(exact, ds, ExactSimilarity)
    requires IsPairMatrix(sketch, sigs, SketchSimilarity)
    ensures sketch.Keys == exact.Keys
    ensures (forall p :: p in sketch ==> sketch[p] == exact[p]) <==> SketchAgrees(ds, sigs)
  {
    SameKeys(sketch, sigs, SketchSimilarity, exact, ds, ExactSimilarity);
    if forall p :: p in sketch ==> sketch[p] == exact[p] {
      forall i, j | i in ds && j in ds && i < j
        ensures SketchSimilarity(sigs[i], sigs[j]) == ExactSimilarity(ds[i], ds[j])
      {
        assert (i, j) in sketch;
      }
    } else {
      var p :| p in sketch && sketch[p] != exact[p];
      var i, j := p.0, p.1;
      assert p == (i, j);
      assert (i, j) in sketch;
    }
  }

  /** Each pair's term in `__error`'s sum is its PairError. */
  lemma EntriesArePairErrors(ds: map<DocId, seq<bool>>, perms: seq<Perm>,
                             sigs: map<DocId, seq<nat>>, exact: Matrix, sketch: Matrix, keys: set<Pair>)
    requires IndexesDataset(ds, perms)
    requires sigs.Keys == ds.Keys
    requires forall i :: i in sigs ==> sigs[i] == Signature(ds[i], perms)
    requires IsPairMatrix(exact, ds, ExactSimilarity)
    requires IsPairMatrix(sketch, sigs, SketchSimilarity)
    requires keys <= sketch.Keys
    ensures forall p :: p in keys ==> p in exact && p.0 in ds && p.1 in ds
    ensures forall p :: p in keys ==> Square(sketch[p] - exact[p]) == PairError(ds, perms, p)
  {
    forall p | p in keys
      ensures p in exact && p.0 in ds && p.1 in ds
      ensures Square(sketch[p] - exact[p]) == PairError(ds, perms, p)
    {
      var i, j := p.0, p.1;
      assert p == (i, j);
      assert sketch[(i, j)] == SketchSimilarity(sigs[i], sigs[j]);
      assert (i, j) in exact && exact[(i, j)] == ExactSimilarity(ds[i], ds[j]);
    }
  }

  /**
   * Over a set of pairs, the sum `__error` accumulates for the sketch
   * matrix against the exact one is the PairError sum: each pair's
   * squared difference between its sketch score under perms and its exact
   * score.
   */
  lemma {:induction false} SquaredSumIsPairErrorSum(ds: map<DocId, seq<bool>>, perms: seq<Perm>,
                                                    sigs: map<DocId, seq<nat>>, exact: Matrix, sketch: Matrix,
                                                    keys: set<Pair>)
    requires IndexesDataset(ds, perms)
    requires sigs.Keys == ds.Keys
    requires forall i :: i in sigs ==> sigs[i] == Signature(ds[i], perms)
    requires IsPairMatrix(exact, ds, ExactSimilarity)
    requires IsPairMatrix(sketch, sigs, SketchSimilarity)
    requires keys <= sketch.Keys
    ensures Covers(keys, exact, sketch)
    ensures forall p :: p in keys ==> p.0 in ds && p.1 in ds
    ensures SquaredSum(keys, exact, sketch) == PairErrorSum(ds, perms, keys)
    decreases keys
  {
    EntriesArePairErrors(ds, perms, sigs, exact, sketch, keys);
    if keys != {} {
      var p :| p in keys && PairErrorSum(ds, perms, keys) == PairError(ds, perms, p) + PairErrorSum(ds, perms, keys - {p});
      SquaredSumRemove(keys, exact, sketch, p);
      SquaredSumIsPairErrorSum(ds, perms, sigs, exact, sketch, keys - {p});
    }
  }

  /**
   * The error `begin` computes, `__error(baseline_sim, minhash_sim)`, is
   * SketchError of the pool the signatures were generated with.
   */
  lemma ErrorIsSketchError(ds: map<DocId, seq<bool>>, perms: seq<Perm>,
                           sigs: map<DocId, seq<nat>>, exact: Matrix, sketch: Matrix)
    requires IndexesDataset(ds, perms)
    requires sigs.Keys == ds.Keys
    requires forall i :: i in sigs ==> sigs[i] == Signature(ds[i], perms)
    requires IsPairMatrix(exact, ds, ExactSimilarity)
    requires IsPairMatrix(sketch, sigs, SketchSimilarity)
    ensures sketch.Keys <= exact.Keys
    ensures SquaredSum(sketch.Keys, exact, sketch) == SketchError(ds, perms)
  {
    SquaredSumIsPairErrorSum(ds, perms, sigs, exact, sketch, sketch.Keys);
    PairMatrixUnique(sketch, sigs, SketchSimilarity);
    assert sketch.Keys == KeyPairs(ds.Keys);
  }

  /**
   * One iteration of the loop over k: grow the pool, regenerate the
   * signatures of every document over the whole pool, build the sketch
   * matrix and score it against the baseline.
   */
  method SketchRound(ds: map<DocId, seq<bool>>, order: seq<DocId>, exact: Matrix,
                     pool: seq<Perm>, k: nat, candidates: seq<Perm>)
    returns (grown: seq<Perm>, used: nat, error: real)
    requires UniformLength(ds)
    requires forall i :: i in ds <==> i in order
    requires IsPairMatrix(exact, ds, ExactSimilarity)
    requires NoDuplicates(pool)
    requires forall p :: p in pool ==> IsPermutation(p, |ds[0]|)
    requires forall c :: c in candidates ==> IsPermutation(c, |ds[0]|)
    ensures used <= |candidates|
    ensures InDrawOrder(pool, candidates[..used], grown)
    ensures pool <= grown
    ensures NoDuplicates(grown)
    ensures Elements(grown) == Elements(pool) + Elements(candidates[..used])
    ensures |grown| <= Max(k, |pool|)
    ensures |pool| >= k ==> grown == pool && used == 0
    ensures |grown| >= k || used == |candidates|
    ensures used > 0 && |grown| >= k ==>
              |grown| == k && grown[k - 1] == candidates[used - 1] && candidates[used - 1] !in candidates[..used - 1]
    ensures |Elements(candidates) - Elements(pool)| >= k - |pool| ==> |grown| >= k
    ensures forall p :: p in grown ==> IsPermutation(p, |ds[0]|)
    ensures IndexesDataset(ds, grown)
    ensures error == SketchError(ds, grown)
    ensures error >= 0.0
    ensures error == 0.0 <==> SketchExact(ds, grown)
  {
    grown, used := GrowPool(pool, k, candidates);
    GrownPoolValid(pool, candidates, grown, |ds[0]|);
    PermutationsIndexDataset(ds, grown);
    var sigs := GenerateSignatures(ds, order, grown);
    var sketch := BuildMatrix(sigs, order, SketchSimilarity);
    SketchAgreementIff(ds, sigs, exact, sketch);
    error := Error(exact, sketch);
    ErrorIsSketchError(ds, grown, sigs, exact, sketch);
  }

  /**
   * One pass of the loop over k, on the experiment's record: run the round
   * for ks[|pools|] from the current pool, on the candidates not yet drawn,
   * and record its pool, draw count and error.
   */
  method NextRound(ds: map<DocId, seq<bool>>, order: seq<DocId>, exact: Matrix, ks: seq<nat>,
                   candidates: seq<Perm>, pools: seq<seq<Perm>>, errors: seq<real>, counts: seq<nat>)
    returns (pools': seq<seq<Perm>>, errors': seq<real>, counts': seq<nat>)
    requires UniformLength(ds)
    requires forall i :: i in ds <==> i in order
    requires IsPairMatrix(exact, ds, ExactSimilarity)
    requires forall c :: c in candidates ==> IsPermutation(c, |ds[0]|)
    requires PoolsRecorded(ks, candidates, pools, counts)
    requires ScoresRecorded(ds, pools, errors)
    requires |pools| < |ks|
    ensures PoolsRecorded(ks, candidates, pools', counts')
    ensures ScoresRecorded(ds, pools', errors')
    ensures |pools'| == |pools| + 1
  {
    var pool := Current(pools);
    var consumed := Consumed(counts);
    RoundStart(ks, candidates, pools, counts);
    var rest := candidates[consumed..];
    assert forall c :: c in rest ==> c in candidates;
    var grown, used, e := SketchRound(ds, order, exact, pool, ks[|pools|], rest);
    var total := consumed + used;
    AdvancePools(ks, candidates, pools, counts, grown, used, total);
    RecordScore(ds, pools, errors, grown, e);
    pools', errors', counts' := pools + [grown], errors + [e], counts + [total];
  }

  /**
   * The experiment for one dataset: `ks` are the target sketch sizes in the
   * order visited, `order` is the dictionary order of the document keys and
   * `candidates` the stream of shuffled permutations. Returns, after each k,
   * the error, the pool and the number of candidates drawn so far, each
   * round as RoundOk describes; with enough distinct candidates every
   * round's pool reaches its k.
   */
  method RunDataset(ds: map<DocId, seq<bool>>, order: seq<DocId>, ks: seq<nat>, candidates: seq<Perm>)
    returns (errors: seq<real>, pools: seq<seq<Perm>>, counts: seq<nat>)
    requires UniformLength(ds)
    requires forall i :: i in ds <==> i in order
    requires forall c :: c in candidates ==> IsPermutation(c, |ds[0]|)
    ensures |errors| == |ks| && |pools| == |ks| && |counts| == |ks|
    ensures forall t {:trigger errors[t]} :: 0 <= t < |ks| ==>
              RoundOk(ds, ks[t], candidates, Before(pools, t), pools[t], errors[t], counts[t])
    ensures forall t, u :: 0 <= t <= u < |ks| ==> pools[t] <= pools[u]
    ensures forall t :: 0 <= t < |ks| && |Elements(candidates)| >= ks[t] ==> |pools[t]| >= ks[t]
  {
    var exact := BuildMatrix(ds, order, ExactSimilarity);
    errors, pools, counts := [], [], [];
    while |pools| < |ks|
      invariant PoolsRecorded(ks, candidates, pools, counts)
      invariant ScoresRecorded(ds, pools, errors)
      decreases |ks| - |pools|
    {
      pools, errors, counts := NextRound(ds, order, exact, ks, candidates, pools, errors, counts);
    }
    RecordedRounds(ds, ks, candidates, pools, errors, counts);
    PoolsGrow(ks, candidates, pools, counts);
    EnoughCandidatesReachK(ks, candidates, pools, counts);
  }
}
