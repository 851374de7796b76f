/**
 * MinHash signatures, as `__generate_signatures` computes them: for each
 * permutation in the pool, the first feature index in that permutation's
 * order whose bit is set in the document's vector. A permutation that finds
 * no set bit contributes nothing, so the signature is then shorter than the
 * pool.
 */
module Signatures {
  import opened Wrappers
  import opened Seqs
  import opened PermutationPool
  import opened SimilarityMatrix

  /** Every index of every permutation can be looked up in a vector of length L. */
  predicate IndicesBelow(perms: seq<Perm>, L: nat) {
    forall t, s :: 0 <= t < |perms| && 0 <= s < |perms[t]| ==> perms[t][s] < L
  }

  /** The pool can be applied to every document of the dataset. */
  predicate IndexesDataset(ds: map<DocId, seq<bool>>, perms: seq<Perm>) {
    forall i :: i in ds ==> IndicesBelow(perms, |ds[i]|)
  }

  /** The first position at or after `from` of `perm` whose index has its bit set in fv. */
  function FirstHit(fv: seq<bool>, perm: Perm, from: nat): (r: Option<nat>)
    requires from <= |perm|
    requires forall s :: 0 <= s < |perm| ==> perm[s] < |fv|
    decreases |perm| - from
    ensures r.Some? ==> from <= r.value < |perm| && fv[perm[r.value]]
                        && forall s :: from <= s < r.value ==> !fv[perm[s]]
    ensures r.None? ==> forall s :: from <= s < |perm| ==> !fv[perm[s]]
  {
    if from == |perm| then None
    else if fv[perm[from]] then Some(from)
    else FirstHit(fv, perm, from + 1)
  }

  /** The min-wise element of fv under one permutation, if any bit is set along it. */
  function MinHash(fv: seq<bool>, perm: Perm): (r: Option<nat>)
    requires forall s :: 0 <= s < |perm| ==> perm[s] < |fv|
  {
    match FirstHit(fv, perm, 0)
    case Some(s) => Some(perm[s])
    case None => None
  }

  /** What MinHash returns: the index at the first set position of the permutation, or nothing. */
  lemma MinHashIsFirstSet(fv: seq<bool>, perm: Perm)
    requires forall s :: 0 <= s < |perm| ==> perm[s] < |fv|
    ensures MinHash(fv, perm).Some? <==> exists s :: 0 <= s < |perm| && fv[perm[s]]
    ensures MinHash(fv, perm).Some? ==>
              exists s :: 0 <= s < |perm| && perm[s] == MinHash(fv, perm).value
                          && fv[perm[s]] && forall s' :: 0 <= s' < s ==> !fv[perm[s']]
  {
    match FirstHit(fv, perm, 0)
    case Some(s) =>
      assert perm[s] == MinHash(fv, perm).value;
    case None =>
  }

  /** The signature of one document: the min-wise elements, in pool order, of the permutations that hit. */
  function Signature(fv: seq<bool>, perms: seq<Perm>): (sig: seq<nat>)
    requires IndicesBelow(perms, |fv|)
    ensures |sig| <= |perms|
    ensures forall t :: 0 <= t < |sig| ==> sig[t] < |fv| && fv[sig[t]]
  {
    if perms == [] then []
    else
      var init := perms[..|perms| - 1];
      var last := perms[|perms| - 1];
      assert IndicesBelow(init, |fv|) by {
        forall t, s | 0 <= t < |init| && 0 <= s < |init[t]| ensures init[t][s] < |fv| {
          assert init[t] == perms[t];
        }
      }
      match MinHash(fv, last)
      case Some(x) => Signature(fv, init) + [x]
      case None => Signature(fv, init)
  }

  /**
   * When every permutation is a bijection on the feature indices, either
   * every permutation hits (the vector has a set bit) and the signature
   * holds one min-wise element per permutation, or none does and the
   * signature is empty.
   */
  lemma {:induction false} SignatureOfPermutations(fv: seq<bool>, perms: seq<Perm>)
    requires forall t :: 0 <= t < |perms| ==> IsPermutation(perms[t], |fv|)
    ensures IndicesBelow(perms, |fv|)
    ensures (exists i :: 0 <= i < |fv| && fv[i]) ==>
              |Signature(fv, perms)| == |perms|
              && forall t :: 0 <= t < |perms| ==> MinHash(fv, perms[t]) == Some(Signature(fv, perms)[t])
    ensures (forall i :: 0 <= i < |fv| ==> !fv[i]) ==> Signature(fv, perms) == []
  {
    if perms != [] {
      var init := perms[..|perms| - 1];
      var last := perms[|perms| - 1];
      SignatureOfPermutations(fv, init);
      MinHashIsFirstSet(fv, last);
      if i: nat :| i < |fv| && fv[i] {
        assert i in last;
        var s :| 0 <= s < |last| && last[s] == i;
        assert fv[last[s]];
        var x := MinHash(fv, last).value;
        assert Signature(fv, perms) == Signature(fv, init) + [x];
      } else {
        assert MinHash(fv, last).None?;
      }
    }
  }

  /** The nested scan of the source for one document: the inner loop stops at the first hit. */
  method ScanPermutation(fv: seq<bool>, hash: Perm) returns (found: bool, index: nat)
    requires forall s :: 0 <= s < |hash| ==> hash[s] < |fv|
    ensures found <==> MinHash(fv, hash).Some?
    ensures found ==> index == MinHash(fv, hash).value && fv[index]
  {
    var s := 0;
    while s < |hash|
      invariant s <= |hash|
      invariant FirstHit(fv, hash, 0) == FirstHit(fv, hash, s)
    {
      if fv[hash[s]] {
        return true, hash[s];
      }
      s := s + 1;
    }
    return false, 0;
  }

  /** The per-document loop of the source: one scan per permutation, appending each hit. */
  method GenerateSignature(fv: seq<bool>, perms: seq<Perm>) returns (sig: seq<nat>)
    requires IndicesBelow(perms, |fv|)
    ensures sig == Signature(fv, perms)
  {
    sig := [];
    var t := 0;
    while t < |perms|
      invariant t <= |perms|
      invariant IndicesBelow(perms[..t], |fv|)
      invariant sig == Signature(fv, perms[..t])
    {
      var hash := perms[t];
      var found, index := ScanPermutation(fv, hash);
      assert perms[..t + 1][..t] == perms[..t];
      if found {
        sig := sig + [index];
      }
      t := t + 1;
    }
    assert perms[..t] == perms;
  }

  /** The source's loop over the dataset, visiting the keys in Python's dictionary order `order`. */
  method GenerateSignatures(ds: map<DocId, seq<bool>>, order: seq<DocId>, perms: seq<Perm>)
    returns (sigs: map<DocId, seq<nat>>)
    requires forall i :: i in ds <==> i in order
    requires IndexesDataset(ds, perms)
    ensures sigs.Keys == ds.Keys
    ensures forall i :: i in sigs ==> sigs[i] == Signature(ds[i], perms)
  {
    sigs := map[];
    var a := 0;
    while a < |order|
      invariant a <= |order|
      invariant forall i :: i in sigs <==> i in order[..a]
      invariant forall i :: i in sigs ==> sigs[i] == Signature(ds[i], perms)
    {
      var i := order[a];
      var signature := GenerateSignature(ds[i], perms);
      sigs := sigs[i := signature];
      assert order[..a + 1] == order[..a] + [i];
      a := a + 1;
    }
    assert order[..a] == order;
    forall i | i in ds ensures i in sigs {
      assert i in order;
    }
    assert forall i :: i in sigs ==> i in ds;
    assert sigs.Keys <= ds.Keys;
    assert ds.Keys <= sigs.Keys;
    assert sigs.Keys == ds.Keys;
  }
}
