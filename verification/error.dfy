/**
 * The error score of `__error`: the sum, over every key of the `baseline`
 * matrix, of the squared difference between its score and the `minhash`
 * matrix's score for the same key. The source then takes the square root;
 * this model stops at the sum of squares (see README).
 */
module ErrorScore {
  import opened SimilarityMatrix

  function Square(x: real): (r: real) {
    x * x
  }

  lemma SquareSign(d: real)
    ensures Square(d) >= 0.0
    ensures Square(d) == 0.0 <==> d == 0.0
  {
    if d > 0.0 {
      calc {
        Square(d);
        d * d;
      >
        0.0;
      }
    } else if d < 0.0 {
      calc {
        Square(d);
        (-d) * (-d);
      >
        0.0;
      }
    }
  }

  /** Keys present in both matrices. */
  predicate Covers(keys: set<Pair>, minhash: Matrix, baseline: Matrix) {
    keys <= minhash.Keys && keys <= baseline.Keys
  }

  /** The sum of squared differences over a set of keys, in no particular order. */
  ghost function SquaredSum(keys: set<Pair>, minhash: Matrix, baseline: Matrix): (r: real)
    requires Covers(keys, minhash, baseline)
    decreases keys
  {
    if keys == {} then 0.0
    else
      var p :| p in keys;
      Square(baseline[p] - minhash[p]) + SquaredSum(keys - {p}, minhash, baseline)
  }

  /** Any key can be taken out first: the sum does not depend on the visiting order. */
  lemma {:induction false} SquaredSumRemove(keys: set<Pair>, minhash: Matrix, baseline: Matrix, x: Pair)
    requires Covers(keys, minhash, baseline)
    requires x in keys
    ensures SquaredSum(keys, minhash, baseline)
         == Square(baseline[x] - minhash[x]) + SquaredSum(keys - {x}, minhash, baseline)
    decreases keys
  {
    var p :| p in keys && SquaredSum(keys, minhash, baseline)
                          == Square(baseline[p] - minhash[p]) + SquaredSum(keys - {p}, minhash, baseline);
    if p != x {
      SquaredSumRemove(keys - {p}, minhash, baseline, x);
      SquaredSumRemove(keys - {x}, minhash, baseline, p);
      assert keys - {p} - {x} == keys - {x} - {p};
    }
  }

  lemma {:induction false} SquaredSumNonNegative(keys: set<Pair>, minhash: Matrix, baseline: Matrix)
    requires Covers(keys, minhash, baseline)
    ensures SquaredSum(keys, minhash, baseline) >= 0.0
    decreases keys
  {
    if keys != {} {
      var p :| p in keys;
      SquaredSumRemove(keys, minhash, baseline, p);
      SquaredSumNonNegative(keys - {p}, minhash, baseline);
      SquareSign(baseline[p] - minhash[p]);
    }
  }

  /** The sum is zero exactly when the two matrices agree on every key. */
  lemma {:induction false} SquaredSumZeroIff(keys: set<Pair>, minhash: Matrix, baseline: Matrix)
    requires Covers(keys, minhash, baseline)
    ensures SquaredSum(keys, minhash, baseline) == 0.0
        <==> forall p :: p in keys ==> baseline[p] == minhash[p]
    decreases keys
  {
    if keys != {} {
      var x :| x in keys;
      SquaredSumRemove(keys, minhash, baseline, x);
      SquaredSumNonNegative(keys - {x}, minhash, baseline);
      SquaredSumZeroIff(keys - {x}, minhash, baseline);
      SquareSign(baseline[x] - minhash[x]);
    }
  }

  /** Swapping the two matrices leaves the sum unchanged. */
  lemma {:induction false} SquaredSumSymmetric(keys: set<Pair>, minhash: Matrix, baseline: Matrix)
    requires Covers(keys, minhash, baseline)
    ensures SquaredSum(keys, minhash, baseline) == SquaredSum(keys, baseline, minhash)
    decreases keys
  {
    if keys != {} {
      var x :| x in keys;
      SquaredSumRemove(keys, minhash, baseline, x);
      SquaredSumRemove(keys, baseline, minhash, x);
      SquaredSumSymmetric(keys - {x}, minhash, baseline);
      assert Square(baseline[x] - minhash[x]) == Square(minhash[x] - baseline[x]);
    }
  }

  /**
   * The source's double loop over the rows and columns of `baseline`,
   * visiting keys in arbitrary order; every key of `baseline` must also be a
   * key of `minhash`, or the lookup fails.
   */
  method Error(minhash: Matrix, baseline: Matrix) returns (e: real)
    requires baseline.Keys <= minhash.Keys
    ensures e == SquaredSum(baseline.Keys, minhash, baseline)
    ensures e >= 0.0
    ensures e == 0.0 <==> forall p :: p in baseline ==> baseline[p] == minhash[p]
  {
    e := 0.0;
    var rest := baseline.Keys;
    while rest != {}
      invariant rest <= baseline.Keys
      invariant e + SquaredSum(rest, minhash, baseline) == SquaredSum(baseline.Keys, minhash, baseline)
      decreases rest
    {
      var p :| p in rest;
      SquaredSumRemove(rest, minhash, baseline, p);
      e := e + Square(baseline[p] - minhash[p]);
      rest := rest - {p};
    }
    SquaredSumNonNegative(baseline.Keys, minhash, baseline);
    SquaredSumZeroIff(baseline.Keys, minhash, baseline);
  }

  /**
   * Over matrices with the same keys, the call `__error(a, b)` and the call
   * `__error(b, a)` accumulate the same sum.
   */
  lemma ErrorArgumentOrder(m: Matrix, n: Matrix)
    requires m.Keys == n.Keys
    ensures SquaredSum(m.Keys, n, m) == SquaredSum(n.Keys, m, n)
  {
    SquaredSumSymmetric(m.Keys, n, m);
  }

  /** A matrix scored against itself has error zero. */
  lemma SelfErrorZero(m: Matrix)
    ensures SquaredSum(m.Keys, m, m) == 0.0
  {
    SquaredSumZeroIff(m.Keys, m, m);
  }
}
