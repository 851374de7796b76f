/**
 * Pairwise similarity matrices, as `__generate_similarity_matrix` builds
 * them: one score for every pair of distinct documents (i, j) with i < j,
 * and nothing for the diagonal or for reversed pairs. The source stores
 * `matrix[i][j]` in nested dictionaries; here a single map keyed by the
 * ordered pair (i, j) plays that role.
 */
module SimilarityMatrix {
  import opened Jaccard

  /** Documents are keyed by integers, compared with the usual order. */
  type DocId = int
  type Pair = (DocId, DocId)
  type Matrix = map<Pair, real>

  /** The pairs of document keys that get a score: both present, first strictly smaller. */
  function KeyPairs(keys: set<DocId>): (r: set<Pair>) {
    set i, j | i in keys && j in keys && i < j :: (i, j)
  }

  /** The matrix a dataset and a similarity function determine, whatever order the keys are visited in. */
  function PairMatrix<V>(ds: map<DocId, V>, sim: (V, V) -> real): (r: Matrix) {
    map p | p in KeyPairs(ds.Keys) :: sim(ds[p.0], ds[p.1])
  }

  /**
   * m scores exactly the key pairs (i, j) of ds with i < j, each with the
   * similarity of the two documents.
   */
  ghost predicate IsPairMatrix<V>(m: Matrix, ds: map<DocId, V>, sim: (V, V) -> real) {
    && (forall i, j :: (i, j) in m <==> i in ds && j in ds && i < j)
    && (forall i, j :: (i, j) in m ==> m[(i, j)] == sim(ds[i], ds[j]))
  }

  /** The rows of the nested-dictionary form: keys i for which some matrix[i][j] exists. */
  function Rows(m: Matrix): (r: set<DocId>) {
    set p | p in m :: p.0
  }

  /**
   * The double loop of the source over the dataset's keys, visited in the
   * (arbitrary) order `order` that Python's dictionary iteration yields.
   */
  method BuildMatrix<V>(ds: map<DocId, V>, order: seq<DocId>, sim: (V, V) -> real) returns (m: Matrix)
    requires forall i :: i in ds <==> i in order
    ensures forall i, j :: (i, j) in m <==> i in ds && j in ds && i < j
    ensures forall i, j :: (i, j) in m ==> m[(i, j)] == sim(ds[i], ds[j])
  {
    m := map[];
    var a := 0;
    while a < |order|
      invariant a <= |order|
      invariant forall i, j :: (i, j) in m <==> i in order[..a] && j in ds && i < j
      invariant forall i, j :: (i, j) in m ==> m[(i, j)] == sim(ds[i], ds[j])
    {
      var i := order[a];
      var b := 0;
      while b < |order|
        invariant b <= |order|
        invariant forall x, y :: (x, y) in m <==>
                    (x in order[..a] && y in ds && x < y) || (x == i && y in order[..b] && i < y)
        invariant forall x, y :: (x, y) in m ==> m[(x, y)] == sim(ds[x], ds[y])
      {
        var j := order[b];
        if i < j {
          m := m[(i, j) := sim(ds[i], ds[j])];
        }
        assert order[..b + 1] == order[..b] + [j];
        b := b + 1;
      }
      assert order[..|order|] == order;
      assert order[..a + 1] == order[..a] + [i];
      a := a + 1;
    }
    assert order[..|order|] == order;
  }

  /** The entry of PairMatrix for a key pair (i, j). */
  lemma PairMatrixEntry<V>(ds: map<DocId, V>, sim: (V, V) -> real, i: DocId, j: DocId)
    requires i in ds && j in ds && i < j
    ensures (i, j) in PairMatrix(ds, sim)
    ensures PairMatrix(ds, sim)[(i, j)] == sim(ds[i], ds[j])
  {
    assert (i, j) in KeyPairs(ds.Keys);
  }

  /** A row for i exists exactly when some key j greater than i exists. */
  lemma RowsOfPairMatrix<V>(ds: map<DocId, V>, sim: (V, V) -> real)
    ensures forall i :: i in Rows(PairMatrix(ds, sim)) <==> i in ds && exists j :: j in ds && i < j
  {
    var m := PairMatrix(ds, sim);
    forall i | i in ds && (exists j :: j in ds && i < j) ensures i in Rows(m) {
      var j :| j in ds && i < j;
      assert (i, j) in m;
    }
  }

  /**
   * The matrix is determined by the dataset alone: whatever order the keys
   * are visited in, a matrix with the properties of IsPairMatrix is PairMatrix.
   */
  lemma PairMatrixUnique<V>(m: Matrix, ds: map<DocId, V>, sim: (V, V) -> real)
    requires IsPairMatrix(m, ds, sim)
    ensures m == PairMatrix(ds, sim)
  {
    var r := PairMatrix(ds, sim);
    forall p | p in m ensures p in r && r[p] == m[p] {
      assert p == (p.0, p.1);
      PairMatrixEntry(ds, sim, p.0, p.1);
    }
    forall p | p in r ensures p in m {
      assert p == (p.0, p.1);
    }
    assert m.Keys == r.Keys;
  }

  /** Every score of a baseline matrix (version 0) lies in [0, 1]. */
  lemma BaselineScoresInRange(m: Matrix, ds: map<DocId, seq<bool>>)
    requires IsPairMatrix(m, ds, ExactSimilarity)
    ensures forall p :: p in m ==> 0.0 <= m[p] <= 1.0
  {
    forall p | p in m ensures 0.0 <= m[p] <= 1.0 {
      var i, j := p.0, p.1;
      assert p == (i, j);
      assert (i, j) in m;
    }
  }

  /** Every score of a sketch matrix (version 1) lies in [0, 1]. */
  lemma SketchScoresInRange(m: Matrix, sigs: map<DocId, seq<nat>>)
    requires IsPairMatrix(m, sigs, SketchSimilarity)
    ensures forall p :: p in m ==> 0.0 <= m[p] <= 1.0
  {
    forall p | p in m ensures 0.0 <= m[p] <= 1.0 {
      var i, j := p.0, p.1;
      assert p == (i, j);
      assert (i, j) in m;
    }
  }

  /** Two matrices built over the same documents share their keys. */
  lemma SameKeys<V, W>(m: Matrix, ds: map<DocId, V>, sim: (V, V) -> real,
                       n: Matrix, es: map<DocId, W>, tim: (W, W) -> real)
    requires IsPairMatrix(m, ds, sim) && IsPairMatrix(n, es, tim)
    requires ds.Keys == es.Keys
    ensures m.Keys == n.Keys
  {
    forall p | p in m ensures p in n {
      var i, j := p.0, p.1;
      assert p == (i, j);
      assert (i, j) in m;
    }
    forall p | p in n ensures p in m {
      var i, j := p.0, p.1;
      assert p == (i, j);
      assert (i, j) in n;
    }
  }
}
