/**
 * The permutation pool grown inside `begin`: a list of orderings of the
 * feature indices [0, L) that only ever gets longer and never holds the
 * same ordering twice. The source draws each candidate with
 * `random.shuffle`; here the draws are a given sequence of candidates.
 */
module PermutationPool {
  import opened Seqs

  /** An ordering of the feature indices: a sequence of feature indices. */
  type Perm = seq<nat>

  /** p lists every index of [0, L) and nothing else, in L positions: a bijection on [0, L). */
  predicate IsPermutation(p: Perm, L: nat) {
    && |p| == L
    && (forall t :: 0 <= t < |p| ==> p[t] < L)
    && (forall x: nat :: x < L ==> x in p)
  }

  /**
   * The pool after drawing the candidates cs in order: each one not yet
   * present is appended at the end, each repeat is dropped.
   */
  function AppendNew(pool: seq<Perm>, cs: seq<Perm>): (r: seq<Perm>)
  {
    if cs == [] then pool
    else
      var g := AppendNew(pool, cs[..|cs| - 1]);
      var c := cs[|cs| - 1];
      if c in g then g else g + [c]
  }

  /**
   * The entries of `grown` beyond `pool` are drawn from cs, in the order in
   * which each was first drawn.
   */
  predicate InDrawOrder(pool: seq<Perm>, cs: seq<Perm>, grown: seq<Perm>) {
    && (forall t :: |pool| <= t < |grown| ==> grown[t] in cs)
    && (forall t1, t2 :: |pool| <= t1 < t2 < |grown| ==> FirstIndex(cs, grown[t1]) < FirstIndex(cs, grown[t2]))
  }

  /**
   * The entries AppendNew adds beyond the old pool are candidates, every
   * candidate ends up in the pool, and the added entries appear in the order
   * of their first draw.
   */
  lemma {:induction false} AppendNewOrder(pool: seq<Perm>, cs: seq<Perm>)
    ensures pool <= AppendNew(pool, cs)
    ensures forall x :: x in cs ==> x in AppendNew(pool, cs)
    ensures forall t :: |pool| <= t < |AppendNew(pool, cs)| ==> AppendNew(pool, cs)[t] in cs
    ensures InDrawOrder(pool, cs, AppendNew(pool, cs))
  {
    if cs != [] {
      var init, c := cs[..|cs| - 1], cs[|cs| - 1];
      assert cs == init + [c];
      var g := AppendNew(pool, init);
      AppendNewOrder(pool, init);
      var r := AppendNew(pool, cs);
      forall t | |pool| <= t < |g| ensures FirstIndex(cs, g[t]) == FirstIndex(init, g[t]) {
        FirstIndexConcat(init, [c], g[t]);
      }
      if c !in g {
        assert r == g + [c];
        assert c !in init;
        assert FirstIndex(cs, c) == |init|;
        forall t1, t2 | |pool| <= t1 < t2 < |r|
          ensures FirstIndex(cs, r[t1]) < FirstIndex(cs, r[t2])
        {
          if t2 < |g| {
            assert r[t1] == g[t1] && r[t2] == g[t2];
          } else {
            assert r[t1] == g[t1] && r[t2] == c;
          }
        }
      }
    }
  }

  /** Drawing a and then b is drawing a + b. */
  lemma {:induction false} AppendNewConcat(pool: seq<Perm>, a: seq<Perm>, b: seq<Perm>)
    ensures AppendNew(AppendNew(pool, a), b) == AppendNew(pool, a + b)
    decreases |b|
  {
    if b == [] {
      assert a + b == a;
    } else {
      var init := b[..|b| - 1];
      assert (a + b)[..|a + b| - 1] == a + init;
      assert (a + b)[|a + b| - 1] == b[|b| - 1];
      AppendNewConcat(pool, a, init);
    }
  }

  /** Dropping a last draw that added nothing keeps the draw order of the rest. */
  lemma InDrawOrderDropLast(pool: seq<Perm>, init: seq<Perm>, c: Perm, grown: seq<Perm>)
    requires InDrawOrder(pool, init + [c], grown)
    requires forall t :: |pool| <= t < |grown| ==> grown[t] in init
    ensures InDrawOrder(pool, init, grown)
  {
    forall t1, t2 | |pool| <= t1 < t2 < |grown|
      ensures FirstIndex(init, grown[t1]) < FirstIndex(init, grown[t2])
    {
      FirstIndexConcat(init, [c], grown[t1]);
      FirstIndexConcat(init, [c], grown[t2]);
    }
  }

  /** The entries of a duplicate-free extension of `pool` beyond it are not in `pool`. */
  lemma NewEntriesOutsidePool(pool: seq<Perm>, grown: seq<Perm>)
    requires pool <= grown && NoDuplicates(grown)
    ensures forall t :: |pool| <= t < |grown| ==> grown[t] !in pool
  {
    forall t, s | |pool| <= t < |grown| && 0 <= s < |pool| ensures pool[s] != grown[t] {
      assert grown[s] == pool[s];
    }
  }

  /** A last draw c that is new, and so in the grown pool, sits at its end. */
  lemma NewDrawAtEnd(pool: seq<Perm>, init: seq<Perm>, c: Perm, grown: seq<Perm>)
    requires pool <= grown && c in grown
    requires InDrawOrder(pool, init + [c], grown)
    requires c !in pool && c !in init
    ensures |pool| < |grown| && grown[|grown| - 1] == c
  {
    var cs := init + [c];
    var s :| 0 <= s < |grown| && grown[s] == c;
    assert forall t :: 0 <= t < |pool| ==> grown[t] == pool[t];
    assert |pool| <= s;
    var last := |grown| - 1;
    assert grown[last] in cs;
    assert FirstIndex(cs, grown[last]) <= |init|;
    assert FirstIndex(cs, c) == |init|;
    assert s == last;
  }

  /**
   * When the last draw c was new, it is the last entry, and the entries
   * before it are a pool of the same kind for the earlier draws.
   */
  lemma NewDrawIsLast(pool: seq<Perm>, init: seq<Perm>, c: Perm, grown: seq<Perm>)
    requires pool <= grown && NoDuplicates(grown)
    requires Elements(grown) == Elements(pool) + Elements(init + [c])
    requires InDrawOrder(pool, init + [c], grown)
    requires c !in pool && c !in init
    ensures |pool| < |grown| && grown == grown[..|grown| - 1] + [c]
    ensures pool <= grown[..|grown| - 1] && NoDuplicates(grown[..|grown| - 1])
    ensures Elements(grown[..|grown| - 1]) == Elements(pool) + Elements(init)
    ensures InDrawOrder(pool, init, grown[..|grown| - 1])
  {
    var cs := init + [c];
    assert c in Elements(grown);
    NewDrawAtEnd(pool, init, c, grown);
    var h := grown[..|grown| - 1];
    assert grown == h + [c];
    NewEntriesOutsidePool(pool, grown);
    forall t | |pool| <= t < |h| ensures h[t] in init {
      assert h[t] == grown[t] && grown[t] in cs;
    }
    ElementsAppend(h, c);
    ElementsAppend(init, c);
    assert c !in Elements(h) by {
      forall t | 0 <= t < |h| ensures h[t] != c {
        assert h[t] == grown[t];
      }
    }
    AddedCancels(Elements(h), Elements(pool) + Elements(init), c);
    InDrawOrderDropLast(pool, init, c, h);
  }

  /** A duplicate-free extension of `pool` with no new elements is `pool` itself. */
  lemma NoNewEntries(pool: seq<Perm>, grown: seq<Perm>)
    requires pool <= grown && NoDuplicates(grown)
    requires Elements(grown) == Elements(pool)
    ensures grown == pool
  {
    assert NoDuplicates(pool) by {
      forall i, j | 0 <= i < j < |pool| ensures pool[i] != pool[j] {
        assert pool[i] == grown[i] && pool[j] == grown[j];
      }
    }
    DistinctCard(pool);
    DistinctCard(grown);
  }

  /**
   * When the last draw c was already held (in the old pool or drawn
   * before), the same pool is one for the earlier draws alone.
   */
  lemma OldDrawDropped(pool: seq<Perm>, init: seq<Perm>, c: Perm, grown: seq<Perm>)
    requires pool <= grown && NoDuplicates(grown)
    requires Elements(grown) == Elements(pool) + Elements(init + [c])
    requires InDrawOrder(pool, init + [c], grown)
    requires c in pool || c in init
    ensures Elements(grown) == Elements(pool) + Elements(init)
    ensures InDrawOrder(pool, init, grown)
    ensures c in grown
  {
    ElementsAppend(init, c);
    NewEntriesOutsidePool(pool, grown);
    forall t | |pool| <= t < |grown| ensures grown[t] in init {
      assert grown[t] in init + [c];
    }
    InDrawOrderDropLast(pool, init, c, grown);
    assert c in Elements(grown);
  }

  /**
   * The draw order determines the pool: a duplicate-free extension of
   * `pool` holding exactly the old entries and the candidates cs, with the
   * new entries in first-draw order, is AppendNew(pool, cs).
   */
  lemma {:induction false} DrawOrderUnique(pool: seq<Perm>, cs: seq<Perm>, grown: seq<Perm>)
    requires pool <= grown && NoDuplicates(grown)
    requires Elements(grown) == Elements(pool) + Elements(cs)
    requires InDrawOrder(pool, cs, grown)
    ensures grown == AppendNew(pool, cs)
    decreases |cs|
  {
    if cs == [] {
      NoNewEntries(pool, grown);
    } else {
      var init, c := cs[..|cs| - 1], cs[|cs| - 1];
      assert cs == init + [c];
      if c in pool || c in init {
        OldDrawDropped(pool, init, c, grown);
        DrawOrderUnique(pool, init, grown);
      } else {
        NewDrawIsLast(pool, init, c, grown);
        DrawOrderUnique(pool, init, grown[..|grown| - 1]);
      }
    }
  }

  /**
   * Grow `pool` towards k entries, consuming `candidates` in order: a
   * candidate already in the pool is dropped, any other is appended. The
   * source loops until the pool has k entries; here the loop also stops
   * when the candidates run out, and `used` says how many were consumed:
   * every draw up to the one that completed the pool, or the whole stream.
   */
  method GrowPool(pool: seq<Perm>, k: nat, candidates: seq<Perm>) returns (grown: seq<Perm>, used: nat)
    requires NoDuplicates(pool)
    ensures used <= |candidates|
    ensures InDrawOrder(pool, candidates[..used], grown)
    ensures pool <= grown
    ensures NoDuplicates(grown)
    ensures Elements(grown) == Elements(pool) + Elements(candidates[..used])
    ensures |grown| <= Max(k, |pool|)
    ensures |pool| >= k ==> grown == pool && used == 0
    ensures |grown| >= k || used == |candidates|
    ensures used > 0 && |grown| >= k ==>
              |grown| == k && grown[k - 1] == candidates[used - 1] && candidates[used - 1] !in candidates[..used - 1]
    ensures |Elements(candidates) - Elements(pool)| >= k - |pool| ==> |grown| >= k
  {
    grown := pool;
    used := 0;
    while |grown| < k && used < |candidates|
      invariant used <= |candidates|
      invariant grown == AppendNew(pool, candidates[..used])
      invariant |grown| <= Max(k, |pool|)
      invariant |pool| >= k ==> grown == pool && used == 0
      invariant used > 0 && |grown| >= k ==>
                  |grown| == k && grown[k - 1] == candidates[used - 1] && candidates[used - 1] !in candidates[..used - 1]
    {
      var hash := candidates[used];
      if hash !in grown {
        AppendNewOrder(pool, candidates[..used]);
        grown := grown + [hash];
      }
      assert candidates[..used + 1][..used] == candidates[..used];
      used := used + 1;
    }
    AppendNewFacts(pool, candidates[..used]);
    AppendNewOrder(pool, candidates[..used]);
    if |grown| < k {
      assert candidates[..used] == candidates;
      GrownSize(pool, candidates, grown);
    }
  }

  /**
   * Drawing keeps a duplicate-free pool duplicate-free, and the pool then
   * holds exactly the old entries and the candidates drawn.
   */
  lemma {:induction false} AppendNewFacts(pool: seq<Perm>, cs: seq<Perm>)
    requires NoDuplicates(pool)
    ensures NoDuplicates(AppendNew(pool, cs))
    ensures Elements(AppendNew(pool, cs)) == Elements(pool) + Elements(cs)
  {
    if cs != [] {
      var init, c := cs[..|cs| - 1], cs[|cs| - 1];
      assert cs == init + [c];
      var g := AppendNew(pool, init);
      AppendNewFacts(pool, init);
      ElementsAppend(init, c);
      ElementsAppend(g, c);
    }
  }

  /** A duplicate-free pool holding the old pool and the candidates has one entry per newOnes candidate. */
  lemma GrownSize(pool: seq<Perm>, candidates: seq<Perm>, grown: seq<Perm>)
    requires NoDuplicates(pool) && NoDuplicates(grown)
    requires Elements(grown) == Elements(pool) + Elements(candidates)
    ensures |grown| == |pool| + |Elements(candidates) - Elements(pool)|
  {
    DistinctCard(grown);
    DistinctCard(pool);
    var newOnes := Elements(candidates) - Elements(pool);
    assert Elements(grown) == Elements(pool) + newOnes;
    assert Elements(pool) !! newOnes;
  }

  /** Every pool entry is a valid permutation when every entry came from valid ones. */
  lemma GrownPoolValid(pool: seq<Perm>, candidates: seq<Perm>, grown: seq<Perm>, L: nat)
    requires forall p :: p in pool ==> IsPermutation(p, L)
    requires forall c :: c in candidates ==> IsPermutation(c, L)
    requires Elements(grown) <= Elements(pool) + Elements(candidates)
    ensures forall g :: g in grown ==> IsPermutation(g, L)
  {
    forall g | g in grown ensures IsPermutation(g, L) {
      assert g in Elements(grown);
    }
  }

  /**
   * With a single feature there is only one permutation, so a duplicate-free
   * pool never holds more than one: the source's loop for k >= 2 never
   * leaves when L == 1.
   */
  lemma SingleFeaturePoolBound(pool: seq<Perm>)
    requires NoDuplicates(pool)
    requires forall p :: p in pool ==> IsPermutation(p, 1)
    ensures |pool| <= 1
  {
    forall p | p in Elements(pool) ensures p == [0] {
      OnlyPermutationOfOne(p);
    }
    SubsetCard(Elements(pool), {[0]});
    DistinctCard(pool);
  }

  /**
   * With no features the only permutation is the empty one, so again a
   * duplicate-free pool never holds more than one: the source's loop never
   * leaves for any k >= 2 when L == 0.
   */
  lemma NoFeaturePoolBound(pool: seq<Perm>)
    requires NoDuplicates(pool)
    requires forall p :: p in pool ==> IsPermutation(p, 0)
    ensures |pool| <= 1
  {
    forall p | p in Elements(pool) ensures p == [] {
      assert |p| == 0;
    }
    SubsetCard(Elements(pool), {[]});
    DistinctCard(pool);
  }

  lemma OnlyPermutationOfOne(p: Perm)
    requires IsPermutation(p, 1)
    ensures p == [0]
  {
    assert 0 in p;
  }
}
