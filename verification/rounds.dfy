/**
 * What one round of `begin`'s loop over k promises, and the record of the
 * rounds run so far on one dataset: the pool each round leaves, the error it
 * scores and the number of candidate permutations drawn up to then.
 */
module Rounds {
  import opened Seqs
  import opened Jaccard
  import opened SimilarityMatrix
  import opened PermutationPool
  import opened Signatures
  import opened ErrorScore

  /** Every vector of the dataset has the length of document 0's vector, as `begin` assumes. */
  predicate UniformLength(ds: map<DocId, seq<bool>>) {
    0 in ds && forall i :: i in ds ==> |ds[i]| == |ds[0]|
  }

  /** Permutations of [0, L) index every vector of a uniform dataset. */
  lemma PermutationsIndexDataset(ds: map<DocId, seq<bool>>, perms: seq<Perm>)
    requires UniformLength(ds)
    requires forall p :: p in perms ==> IsPermutation(p, |ds[0]|)
    ensures IndexesDataset(ds, perms)
  {
    forall i, t, s | i in ds && 0 <= t < |perms| && 0 <= s < |perms[t]|
      ensures perms[t][s] < |ds[i]|
    {
      assert perms[t] in perms;
    }
  }

  /** A pool drawn without repetition from the candidate stream, every entry a permutation of [0, L). */
  predicate PoolFrom(pool: seq<Perm>, L: nat, candidates: seq<Perm>) {
    && NoDuplicates(pool)
    && forall p :: p in pool ==> IsPermutation(p, L) && p in candidates
  }

  /** The pool the first n draws of the stream build from the empty pool: AppendNew([], cs[..n]), counted by draws. */
  function DrawPool(cs: seq<Perm>, n: nat): (r: seq<Perm>)
    requires n <= |cs|
  {
    if n == 0 then []
    else
      var g := DrawPool(cs, n - 1);
      if cs[n - 1] in g then g else g + [cs[n - 1]]
  }

  lemma {:induction false} DrawPoolIsAppendNew(cs: seq<Perm>, n: nat)
    requires n <= |cs|
    ensures DrawPool(cs, n) == AppendNew([], cs[..n])
  {
    if n > 0 {
      DrawPoolIsAppendNew(cs, n - 1);
      assert cs[..n][..n - 1] == cs[..n - 1];
    }
  }

  /** Under the pool perms, every pair's sketch score equals its exact score. */
  ghost predicate SketchExact(ds: map<DocId, seq<bool>>, perms: seq<Perm>)
    requires IndexesDataset(ds, perms)
  {
    forall i, j :: i in ds && j in ds && i < j ==>
      SketchSimilarity(Signature(ds[i], perms), Signature(ds[j], perms)) == ExactSimilarity(ds[i], ds[j])
  }

  /** For the pair p of documents, the squared difference between its sketch score under perms and its exact score. */
  ghost function PairError(ds: map<DocId, seq<bool>>, perms: seq<Perm>, p: Pair): (r: real)
    requires IndexesDataset(ds, perms)
    requires p.0 in ds && p.1 in ds
  {
    var i, j := p.0, p.1;
    assert i in ds && IndicesBelow(perms, |ds[i]|);
    assert j in ds && IndicesBelow(perms, |ds[j]|);
    Square(SketchSimilarity(Signature(ds[p.0], perms), Signature(ds[p.1], perms)) - ExactSimilarity(ds[p.0], ds[p.1]))
  }

  /** PairError summed over a set of pairs, in no particular order. */
  ghost function PairErrorSum(ds: map<DocId, seq<bool>>, perms: seq<Perm>, keys: set<Pair>): (r: real)
    requires IndexesDataset(ds, perms)
    requires forall p :: p in keys ==> p.0 in ds && p.1 in ds
    decreases keys
  {
    if keys == {} then 0.0
    else
      var p :| p in keys;
      PairError(ds, perms, p) + PairErrorSum(ds, perms, keys - {p})
  }

  /**
   * The error `begin` prints for the pool perms, before the square root:
   * over every pair of documents, the squared difference between the
   * sketch score under perms and the exact score, summed.
   */
  ghost function SketchError(ds: map<DocId, seq<bool>>, perms: seq<Perm>): (r: real)
    requires IndexesDataset(ds, perms)
  {
    PairErrorSum(ds, perms, KeyPairs(ds.Keys))
  }

  /** The pool of the first n draws holds no repeat and holds exactly the permutations drawn. */
  lemma DrawPoolFacts(cs: seq<Perm>, n: nat)
    requires n <= |cs|
    ensures NoDuplicates(DrawPool(cs, n))
    ensures Elements(DrawPool(cs, n)) == Elements(cs[..n])
  {
    DrawPoolIsAppendNew(cs, n);
    AppendNewFacts([], cs[..n]);
  }

  /**
   * The pool side of one round of `begin` for target size k, from pool
   * `before` to pool `after`, after c draws from the stream in all: the
   * pool is the one the first c draws build, each draw appended unless
   * already held (so the distinct draws, in the order each was first
   * drawn); it only grows, stays within max(k, old size), is left alone
   * when already of size k, and reaches k unless every candidate is
   * already in it.
   */
  predicate PoolRound(k: nat, candidates: seq<Perm>, before: seq<Perm>, after: seq<Perm>, c: nat) {
    && c <= |candidates|
    && after == DrawPool(candidates, c)
    && before <= after
    && |after| <= Max(k, |before|)
    && (|before| >= k ==> after == before)
    && (|after| >= k || Elements(after) == Elements(candidates))
  }

  /**
   * The score side of a round: e is the sum of squares for the pool
   * `after`, non-negative and zero exactly when the sketch under `after`
   * is exact.
   */
  ghost predicate Scored(ds: map<DocId, seq<bool>>, after: seq<Perm>, e: real)
    requires IndexesDataset(ds, after)
  {
    && e == SketchError(ds, after)
    && e >= 0.0
    && (e == 0.0 <==> SketchExact(ds, after))
  }

  /**
   * One round of `begin` for target size k: the pool side, the pool's
   * entries are distinct permutations of [0, L) taken from the stream and
   * index every document, and the score side.
   */
  ghost predicate RoundOk(ds: map<DocId, seq<bool>>, k: nat, candidates: seq<Perm>,
                          before: seq<Perm>, after: seq<Perm>, e: real, c: nat)
    requires UniformLength(ds)
  {
    && PoolRound(k, candidates, before, after, c)
    && PoolFrom(after, |ds[0]|, candidates)
    && IndexesDataset(ds, after)
    && Scored(ds, after, e)
  }

  /**
   * A pool in first-draw order of the `used` draws after the first
   * `consumed`, grown from the pool of those first draws, is the pool of
   * all total = consumed + used draws.
   */
  lemma DrawsCombine(candidates: seq<Perm>, consumed: nat, pool: seq<Perm>, grown: seq<Perm>, used: nat, total: nat)
    requires total == consumed + used <= |candidates|
    requires pool == DrawPool(candidates, consumed)
    requires InDrawOrder(pool, candidates[consumed..][..used], grown)
    requires pool <= grown && NoDuplicates(grown)
    requires Elements(grown) == Elements(pool) + Elements(candidates[consumed..][..used])
    ensures grown == DrawPool(candidates, total)
    ensures Elements(grown) == Elements(candidates[..total])
  {
    var drawn, later := candidates[..consumed], candidates[consumed..][..used];
    DrawPoolIsAppendNew(candidates, consumed);
    TakeSplit(candidates, consumed, used, total);
    assert grown == AppendNew(AppendNew([], drawn), later) by {
      DrawOrderUnique(pool, later, grown);
    }
    assert AppendNew(AppendNew([], drawn), later) == DrawPool(candidates, total) by {
      AppendNewConcat([], drawn, later);
      DrawPoolIsAppendNew(candidates, total);
    }
    AppendNewFacts([], drawn);
    ElementsConcat(drawn, later);
  }

  /**
   * Closing a round that grew the pool of the first `consumed` draws with
   * `used` more: the round is as PoolRound describes.
   */
  lemma CloseRound(k: nat, candidates: seq<Perm>, consumed: nat, pool: seq<Perm>, grown: seq<Perm>, used: nat, total: nat)
    requires total == consumed + used <= |candidates|
    requires pool == DrawPool(candidates, consumed)
    requires InDrawOrder(pool, candidates[consumed..][..used], grown)
    requires pool <= grown && NoDuplicates(grown)
    requires Elements(grown) == Elements(pool) + Elements(candidates[consumed..][..used])
    requires |grown| <= Max(k, |pool|)
    requires |pool| >= k ==> grown == pool
    requires |grown| >= k || total == |candidates|
    ensures PoolRound(k, candidates, pool, grown, total)
  {
    DrawsCombine(candidates, consumed, pool, grown, used, total);
    if total == |candidates| {
      assert candidates[..total] == candidates;
    }
  }

  /** The pool the next round starts from: the last recorded one, or the empty pool. */
  function Current(pools: seq<seq<Perm>>): (r: seq<Perm>) {
    if pools == [] then [] else pools[|pools| - 1]
  }

  /** The number of draws before the next round: the last recorded count, or none. */
  function Consumed(counts: seq<nat>): (r: nat) {
    if counts == [] then 0 else counts[|counts| - 1]
  }

  /** The pool a round starts from: the previous round's, or the empty pool for the first. */
  function Before(pools: seq<seq<Perm>>, t: nat): (r: seq<Perm>)
    requires t < |pools|
  {
    if t == 0 then [] else pools[t - 1]
  }

  /**
   * The pool side of what the experiment has recorded so far: one pool and
   * one draw count per round, round t for target size ks[t], starting from
   * the empty pool, each round as PoolRound describes. (The trigger keeps
   * the solver from chasing Before(pools, t) back through every earlier
   * round.)
   */
  predicate PoolsRecorded(ks: seq<nat>, candidates: seq<Perm>, pools: seq<seq<Perm>>, counts: seq<nat>) {
    && |pools| == |counts|
    && |pools| <= |ks|
    && forall t {:trigger counts[t]} :: 0 <= t < |pools| ==>
         PoolRound(ks[t], candidates, Before(pools, t), pools[t], counts[t])
  }

  /** The score side of the record: one error per pool, each as Scored describes. */
  ghost predicate ScoresRecorded(ds: map<DocId, seq<bool>>, pools: seq<seq<Perm>>, errors: seq<real>) {
    && |pools| == |errors|
    && forall t {:trigger errors[t]} :: 0 <= t < |pools| ==>
         IndexesDataset(ds, pools[t]) && Scored(ds, pools[t], errors[t])
  }

  /** Recording one more pool, grown from the last recorded one. */
  lemma RecordPool(ks: seq<nat>, candidates: seq<Perm>, pools: seq<seq<Perm>>, counts: seq<nat>,
                   pool: seq<Perm>, c: nat)
    requires PoolsRecorded(ks, candidates, pools, counts)
    requires |pools| < |ks|
    requires PoolRound(ks[|pools|], candidates, Current(pools), pool, c)
    ensures PoolsRecorded(ks, candidates, pools + [pool], counts + [c])
  {
    var pools', counts' := pools + [pool], counts + [c];
    forall t | 0 <= t < |pools'|
      ensures PoolRound(ks[t], candidates, Before(pools', t), pools'[t], counts'[t])
    {
      if t < |pools| {
        assert pools'[t] == pools[t] && counts'[t] == counts[t];
        assert Before(pools', t) == Before(pools, t);
      } else {
        assert pools'[t] == pool && counts'[t] == c;
        assert Before(pools', t) == Current(pools);
      }
    }
  }

  /** Recording the error of one more pool. */
  lemma RecordScore(ds: map<DocId, seq<bool>>, pools: seq<seq<Perm>>, errors: seq<real>, pool: seq<Perm>, e: real)
    requires ScoresRecorded(ds, pools, errors)
    requires IndexesDataset(ds, pool)
    requires e == SketchError(ds, pool)
    requires e >= 0.0 && (e == 0.0 <==> SketchExact(ds, pool))
    ensures ScoresRecorded(ds, pools + [pool], errors + [e])
  {
    var pools', errors' := pools + [pool], errors + [e];
    forall t | 0 <= t < |pools'|
      ensures IndexesDataset(ds, pools'[t]) && Scored(ds, pools'[t], errors'[t])
    {
      if t < |pools| {
        assert pools'[t] == pools[t] && errors'[t] == errors[t];
      } else {
        assert pools'[t] == pool && errors'[t] == e;
      }
    }
  }

  /**
   * Where the next round starts: the last recorded pool is the one the
   * draws so far build, so it holds no repeat and only candidates.
   */
  lemma RoundStart(ks: seq<nat>, candidates: seq<Perm>, pools: seq<seq<Perm>>, counts: seq<nat>)
    requires PoolsRecorded(ks, candidates, pools, counts)
    ensures Consumed(counts) <= |candidates|
    ensures Current(pools) == DrawPool(candidates, Consumed(counts))
    ensures NoDuplicates(Current(pools))
    ensures forall p :: p in Current(pools) ==> p in candidates
  {
    var n := |pools|;
    if n > 0 {
      assert PoolRound(ks[n - 1], candidates, Before(pools, n - 1), pools[n - 1], counts[n - 1]);
    }
    DrawPoolFacts(candidates, Consumed(counts));
    forall p | p in Current(pools) ensures p in candidates {
      assert p in Elements(candidates[..Consumed(counts)]);
    }
  }

  /**
   * Recording the next pool, grown from the last recorded one by `used`
   * draws after the last recorded count, with the new count `total`.
   */
  lemma AdvancePools(ks: seq<nat>, candidates: seq<Perm>, pools: seq<seq<Perm>>, counts: seq<nat>,
                     grown: seq<Perm>, used: nat, total: nat)
    requires PoolsRecorded(ks, candidates, pools, counts)
    requires |pools| < |ks|
    requires total == Consumed(counts) + used <= |candidates|
    requires InDrawOrder(Current(pools), candidates[Consumed(counts)..][..used], grown)
    requires Current(pools) <= grown && NoDuplicates(grown)
    requires Elements(grown) == Elements(Current(pools)) + Elements(candidates[Consumed(counts)..][..used])
    requires |grown| <= Max(ks[|pools|], |Current(pools)|)
    requires |Current(pools)| >= ks[|pools|] ==> grown == Current(pools)
    requires |grown| >= ks[|pools|] || total == |candidates|
    ensures PoolsRecorded(ks, candidates, pools + [grown], counts + [total])
  {
    RoundStart(ks, candidates, pools, counts);
    CloseRound(ks[|pools|], candidates, Consumed(counts), Current(pools), grown, used, total);
    RecordPool(ks, candidates, pools, counts, grown, total);
  }

  /**
   * With every candidate a permutation of [0, L), the two sides of the
   * record together say that every recorded round is as RoundOk describes.
   */
  lemma RecordedRounds(ds: map<DocId, seq<bool>>, ks: seq<nat>, candidates: seq<Perm>,
                       pools: seq<seq<Perm>>, errors: seq<real>, counts: seq<nat>)
    requires UniformLength(ds)
    requires forall c :: c in candidates ==> IsPermutation(c, |ds[0]|)
    requires PoolsRecorded(ks, candidates, pools, counts)
    requires ScoresRecorded(ds, pools, errors)
    ensures |pools| == |errors| == |counts| && |pools| <= |ks|
    ensures forall t {:trigger errors[t]} :: 0 <= t < |pools| ==>
              RoundOk(ds, ks[t], candidates, Before(pools, t), pools[t], errors[t], counts[t])
  {
    forall t | 0 <= t < |pools|
      ensures RoundOk(ds, ks[t], candidates, Before(pools, t), pools[t], errors[t], counts[t])
    {
      assert PoolRound(ks[t], candidates, Before(pools, t), pools[t], counts[t]);
      assert IndexesDataset(ds, pools[t]) && Scored(ds, pools[t], errors[t]);
      DrawPoolFacts(candidates, counts[t]);
      forall p | p in pools[t] ensures p in candidates {
        assert p in Elements(candidates[..counts[t]]);
      }
    }
  }

  /** A recorded pool is a prefix of every later one. */
  lemma {:induction false} PoolGrowsFrom(ks: seq<nat>, candidates: seq<Perm>, pools: seq<seq<Perm>>, counts: seq<nat>,
                                         t: nat, u: nat)
    requires PoolsRecorded(ks, candidates, pools, counts)
    requires t <= u < |pools|
    ensures pools[t] <= pools[u]
    decreases u - t
  {
    if t < u {
      PoolGrowsFrom(ks, candidates, pools, counts, t, u - 1);
      assert PoolRound(ks[u], candidates, Before(pools, u), pools[u], counts[u]);
    }
  }

  /** The recorded pools only grow: each is a prefix of every later one. */
  lemma PoolsGrow(ks: seq<nat>, candidates: seq<Perm>, pools: seq<seq<Perm>>, counts: seq<nat>)
    requires PoolsRecorded(ks, candidates, pools, counts)
    ensures forall t, u :: 0 <= t <= u < |pools| ==> pools[t] <= pools[u]
  {
    forall t, u | 0 <= t <= u < |pools| ensures pools[t] <= pools[u] {
      PoolGrowsFrom(ks, candidates, pools, counts, t, u);
    }
  }

  /** A round whose stream holds at least k distinct permutations ends with at least k of them. */
  lemma EnoughCandidatesReachK(ks: seq<nat>, candidates: seq<Perm>, pools: seq<seq<Perm>>, counts: seq<nat>)
    requires PoolsRecorded(ks, candidates, pools, counts)
    ensures |pools| <= |ks|
    ensures forall t :: 0 <= t < |pools| && |Elements(candidates)| >= ks[t] ==> |pools[t]| >= ks[t]
  {
    forall t | 0 <= t < |pools| && |Elements(candidates)| >= ks[t] ensures |pools[t]| >= ks[t] {
      assert PoolRound(ks[t], candidates, Before(pools, t), pools[t], counts[t]);
      DrawPoolFacts(candidates, counts[t]);
      DistinctCard(pools[t]);
    }
  }
}
