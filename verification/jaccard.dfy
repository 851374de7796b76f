/**
 * Jaccard similarity of two documents, in the two versions of
 * `__jaccard_similarity`: version 0 compares boolean feature vectors
 * position by position, version 1 compares two signatures as sets of
 * feature indices. Both score |intersection| / |union|, and 0.0 when the
 * union is empty.
 */
module Jaccard {
  import opened Seqs

  /** The quotient the source returns: 0.0 for an empty union. */
  function Ratio(inter: nat, union: nat): (r: real) {
    if union == 0 then 0.0 else inter as real / union as real
  }

  lemma RatioFacts(inter: nat, union: nat)
    requires inter <= union
    ensures 0.0 <= Ratio(inter, union) <= 1.0
    ensures Ratio(inter, union) == 0.0 <==> inter == 0
    ensures Ratio(inter, union) == 1.0 <==> inter == union && union > 0
  {
    if union > 0 {
      var r := inter as real / union as real;
      assert r * union as real == inter as real;
    }
  }

  /** |a * b| never exceeds |a + b|, and they agree only when a == b. */
  lemma CardInterUnion<T>(a: set<T>, b: set<T>)
    ensures |a * b| <= |a + b|
    ensures |a * b| == |a + b| ==> a == b
  {
    assert a + b == (a * b) + (a - b) + (b - a);
    assert |a + b| == |a * b| + |a - b| + |b - a|;
    if |a * b| == |a + b| {
      assert |a - b| == 0 && |b - a| == 0;
      assert a - b == {} && b - a == {};
    }
  }

  /** Jaccard similarity of two finite sets of feature indices. */
  function SetJaccard(a: set<nat>, b: set<nat>): (r: real)
    ensures 0.0 <= r <= 1.0
    ensures r == 0.0 <==> a * b == {}
    ensures r == 1.0 <==> a == b && a != {}
  {
    CardInterUnion(a, b);
    RatioFacts(|a * b|, |a + b|);
    assert a == b ==> a * b == a + b;
    Ratio(|a * b|, |a + b|)
  }

  /** Indices below n whose bit is set in v. */
  function Positions(v: seq<bool>, n: nat): (r: set<nat>)
    requires n <= |v|
  {
    set i: nat | i < n && v[i]
  }

  /** Number of positions below n where either vector has its bit set. */
  function UnionUpTo(v1: seq<bool>, v2: seq<bool>, n: nat): (r: nat)
    requires n <= |v1| && n <= |v2|
  {
    if n == 0 then 0
    else UnionUpTo(v1, v2, n - 1) + (if v1[n - 1] || v2[n - 1] then 1 else 0)
  }

  /** Number of positions below n where both vectors have their bit set. */
  function InterUpTo(v1: seq<bool>, v2: seq<bool>, n: nat): (r: nat)
    requires n <= |v1| && n <= |v2|
  {
    if n == 0 then 0
    else InterUpTo(v1, v2, n - 1) + (if v1[n - 1] && v2[n - 1] then 1 else 0)
  }

  /** Extending the prefix by one position adds that position when its bit is set. */
  lemma PositionsStep(v: seq<bool>, m: nat)
    requires m < |v|
    ensures Positions(v, m + 1) == Positions(v, m) + (if v[m] then {m} else {})
    ensures m !in Positions(v, m)
  {
  }

  lemma {:induction false} UnionCountIsUnionSize(v1: seq<bool>, v2: seq<bool>, n: nat)
    requires n <= |v1| && n <= |v2|
    ensures UnionUpTo(v1, v2, n) == |Positions(v1, n) + Positions(v2, n)|
  {
    if n > 0 {
      var m := n - 1;
      UnionCountIsUnionSize(v1, v2, m);
      PositionsStep(v1, m);
      PositionsStep(v2, m);
      var e1: set<nat> := if v1[m] then {m} else {};
      var e2: set<nat> := if v2[m] then {m} else {};
      UnionOfExtended(Positions(v1, m), Positions(v2, m), e1, e2, m);
    }
  }

  /** Adding a fresh element m to either side adds m to the union once. */
  lemma UnionOfExtended(p1: set<nat>, p2: set<nat>, e1: set<nat>, e2: set<nat>, m: nat)
    requires m !in p1 && m !in p2
    requires e1 <= {m} && e2 <= {m}
    ensures |(p1 + e1) + (p2 + e2)| == |p1 + p2| + |e1 + e2|
  {
    assert (p1 + e1) + (p2 + e2) == (p1 + p2) + (e1 + e2);
    assert (p1 + p2) !! (e1 + e2);
  }

  /** Adding a fresh element m to either side adds m to the intersection only if both got it. */
  lemma InterOfExtended(p1: set<nat>, p2: set<nat>, e1: set<nat>, e2: set<nat>, m: nat)
    requires m !in p1 && m !in p2
    requires e1 <= {m} && e2 <= {m}
    ensures |(p1 + e1) * (p2 + e2)| == |p1 * p2| + |e1 * e2|
  {
    assert (p1 + e1) * (p2 + e2) == (p1 * p2) + (e1 * e2);
  }

  lemma {:induction false} InterCountIsInterSize(v1: seq<bool>, v2: seq<bool>, n: nat)
    requires n <= |v1| && n <= |v2|
    ensures InterUpTo(v1, v2, n) == |Positions(v1, n) * Positions(v2, n)|
  {
    if n > 0 {
      var m := n - 1;
      InterCountIsInterSize(v1, v2, m);
      PositionsStep(v1, m);
      PositionsStep(v2, m);
      var e1: set<nat> := if v1[m] then {m} else {};
      var e2: set<nat> := if v2[m] then {m} else {};
      InterOfExtended(Positions(v1, m), Positions(v2, m), e1, e2, m);
    }
  }

  /** The two running counts are the sizes of the union and the intersection of the set positions. */
  lemma CountsAreSetSizes(v1: seq<bool>, v2: seq<bool>, n: nat)
    requires n <= |v1| && n <= |v2|
    ensures UnionUpTo(v1, v2, n) == |Positions(v1, n) + Positions(v2, n)|
    ensures InterUpTo(v1, v2, n) == |Positions(v1, n) * Positions(v2, n)|
    ensures InterUpTo(v1, v2, n) <= UnionUpTo(v1, v2, n)
  {
    UnionCountIsUnionSize(v1, v2, n);
    InterCountIsInterSize(v1, v2, n);
    CardInterUnion(Positions(v1, n), Positions(v2, n));
  }

  /**
   * Version 0: bit-by-bit counts over the common prefix of the two vectors
   * (Python's `zip` stops at the shorter one).
   */
  function ExactSimilarity(v1: seq<bool>, v2: seq<bool>): (r: real)
    ensures 0.0 <= r <= 1.0
  {
    var n := Min(|v1|, |v2|);
    CountsAreSetSizes(v1, v2, n);
    CardInterUnion(Positions(v1, n), Positions(v2, n));
    RatioFacts(InterUpTo(v1, v2, n), UnionUpTo(v1, v2, n));
    Ratio(InterUpTo(v1, v2, n), UnionUpTo(v1, v2, n))
  }

  lemma DisjointElements(s1: seq<nat>, s2: seq<nat>)
    ensures Elements(s1) * Elements(s2) == {} <==> forall x :: x in s1 ==> x !in s2
  {
    if Elements(s1) * Elements(s2) != {} {
      var x :| x in Elements(s1) * Elements(s2);
      assert x in s1 && x in s2;
    } else {
      forall x | x in s1 ensures x !in s2 {
        assert x in s2 ==> x in Elements(s1) * Elements(s2);
      }
    }
  }

  /** Version 1: the two signatures are read as sets of feature indices. */
  function SketchSimilarity(s1: seq<nat>, s2: seq<nat>): (r: real)
    ensures 0.0 <= r <= 1.0
    ensures r == 1.0 <==> Elements(s1) == Elements(s2) && s1 != []
  {
    var r := SetJaccard(Elements(s1), Elements(s2));
    assert s1 != [] ==> s1[0] in Elements(s1);
    r
  }

  /** A sketch score is 0.0 exactly when the two signatures share no feature index. */
  lemma SketchZeroIff(s1: seq<nat>, s2: seq<nat>)
    ensures SketchSimilarity(s1, s2) == 0.0 <==> forall x :: x in s1 ==> x !in s2
  {
    DisjointElements(s1, s2);
  }

  /** The bit counting of version 0 is the set Jaccard of the positions that are set. */
  lemma ExactIsSetJaccard(v1: seq<bool>, v2: seq<bool>)
    ensures ExactSimilarity(v1, v2)
         == SetJaccard(Positions(v1, Min(|v1|, |v2|)), Positions(v2, Min(|v1|, |v2|)))
  {
    CountsAreSetSizes(v1, v2, Min(|v1|, |v2|));
  }

  lemma ExactSymmetric(v1: seq<bool>, v2: seq<bool>)
    ensures ExactSimilarity(v1, v2) == ExactSimilarity(v2, v1)
  {
    ExactIsSetJaccard(v1, v2);
    ExactIsSetJaccard(v2, v1);
    var n := Min(|v1|, |v2|);
    assert Positions(v1, n) * Positions(v2, n) == Positions(v2, n) * Positions(v1, n);
    assert Positions(v1, n) + Positions(v2, n) == Positions(v2, n) + Positions(v1, n);
  }

  lemma SketchSymmetric(s1: seq<nat>, s2: seq<nat>)
    ensures SketchSimilarity(s1, s2) == SketchSimilarity(s2, s1)
  {
    assert Elements(s1) * Elements(s2) == Elements(s2) * Elements(s1);
    assert Elements(s1) + Elements(s2) == Elements(s2) + Elements(s1);
  }

  /** A vector is as similar to itself as possible, unless no bit is set. */
  lemma ExactSelfSimilarity(v: seq<bool>)
    ensures (exists i :: 0 <= i < |v| && v[i]) ==> ExactSimilarity(v, v) == 1.0
    ensures (forall i :: 0 <= i < |v| ==> !v[i]) ==> ExactSimilarity(v, v) == 0.0
  {
    ExactIsSetJaccard(v, v);
    assert Min(|v|, |v|) == |v|;
    if i :| 0 <= i < |v| && v[i] {
      assert i in Positions(v, |v|);
    } else {
      assert Positions(v, |v|) == {};
    }
  }

  lemma SketchSelfSimilarity(s: seq<nat>)
    ensures s != [] ==> SketchSimilarity(s, s) == 1.0
    ensures s == [] ==> SketchSimilarity(s, s) == 0.0
  {
  }

  /** Exact score 1.0 means the two vectors set exactly the same positions, and at least one. */
  lemma ExactOneIff(v1: seq<bool>, v2: seq<bool>)
    ensures ExactSimilarity(v1, v2) == 1.0
        <==> (exists i :: 0 <= i < Min(|v1|, |v2|) && v1[i])
             && forall i :: 0 <= i < Min(|v1|, |v2|) ==> v1[i] == v2[i]
  {
    var n := Min(|v1|, |v2|);
    ExactIsSetJaccard(v1, v2);
    var p1, p2 := Positions(v1, n), Positions(v2, n);
    if ExactSimilarity(v1, v2) == 1.0 {
      assert p1 == p2 && p1 != {};
      var x :| x in p1;
      forall i | 0 <= i < n ensures v1[i] == v2[i] {
        assert v1[i] <==> i in p1;
      }
    }
    if (exists i :: 0 <= i < n && v1[i]) && forall i :: 0 <= i < n ==> v1[i] == v2[i] {
      var i :| 0 <= i < n && v1[i];
      assert i in p1;
      assert p1 == p2;
    }
  }

  /** Exact score 0.0 means no position below the common length is set in both vectors. */
  lemma ExactZeroIff(v1: seq<bool>, v2: seq<bool>)
    ensures ExactSimilarity(v1, v2) == 0.0
        <==> forall i :: 0 <= i < Min(|v1|, |v2|) ==> !(v1[i] && v2[i])
  {
    var n := Min(|v1|, |v2|);
    ExactIsSetJaccard(v1, v2);
    var p1, p2 := Positions(v1, n), Positions(v2, n);
    if i :| 0 <= i < n && v1[i] && v2[i] {
      assert i in p1 * p2;
    } else {
      assert p1 * p2 == {};
    }
  }

  /** The worked example: d0 = 1100, d1 = 1010, d2 = 0000. */
  lemma Example()
    ensures ExactSimilarity([true, true, false, false], [true, false, true, false]) == 1.0 / 3.0
    ensures ExactSimilarity([true, true, false, false], [false, false, false, false]) == 0.0
    ensures ExactSimilarity([true, false, true, false], [false, false, false, false]) == 0.0
  {
    var d0, d1, d2 := [true, true, false, false], [true, false, true, false], [false, false, false, false];
    assert UnionUpTo(d0, d1, 4) == 3 by {
      assert UnionUpTo(d0, d1, 1) == 1;
      assert UnionUpTo(d0, d1, 2) == 2;
      assert UnionUpTo(d0, d1, 3) == 3;
    }
    assert InterUpTo(d0, d1, 4) == 1 by {
      assert InterUpTo(d0, d1, 1) == 1;
      assert InterUpTo(d0, d1, 2) == 1;
      assert InterUpTo(d0, d1, 3) == 1;
    }
    assert InterUpTo(d0, d2, 4) == 0 by {
      assert InterUpTo(d0, d2, 1) == 0;
      assert InterUpTo(d0, d2, 2) == 0;
      assert InterUpTo(d0, d2, 3) == 0;
    }
    assert InterUpTo(d1, d2, 4) == 0 by {
      assert InterUpTo(d1, d2, 1) == 0;
      assert InterUpTo(d1, d2, 2) == 0;
      assert InterUpTo(d1, d2, 3) == 0;
    }
  }
}
