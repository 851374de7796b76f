/** The Some/None datatype used for "first index found, or nothing". */
module Wrappers {

  datatype Option<+T> = None | Some(value: T)
}

/** Small facts about sequences used throughout the model. */
module Seqs {

  /** No element occurs twice. */
  predicate NoDuplicates<T(==)>(s: seq<T>) {
    forall i, j :: 0 <= i < j < |s| ==> s[i] != s[j]
  }

  /** The set of elements of a sequence, as Python's `set(s)`. */
  function Elements<T(==)>(s: seq<T>): (r: set<T>) {
    set x | x in s
  }

  function Min(a: nat, b: nat): (r: nat) {
    if a <= b then a else b
  }

  function Max(a: nat, b: nat): (r: nat) {
    if a <= b then b else a
  }

  /** The position of the first occurrence of x in s. */
  function FirstIndex<T(==)>(s: seq<T>, x: T): (i: nat)
    requires x in s
    ensures i < |s| && s[i] == x
    ensures forall j :: 0 <= j < i ==> s[j] != x
  {
    if s[0] == x then 0 else 1 + FirstIndex(s[1..], x)
  }

  /** Appending to s does not move the first occurrence of an element already in s. */
  lemma FirstIndexConcat<T>(s: seq<T>, t: seq<T>, x: T)
    requires x in s
    ensures FirstIndex(s + t, x) == FirstIndex(s, x)
  {
    var a, b := FirstIndex(s + t, x), FirstIndex(s, x);
    assert (s + t)[b] == x;
    assert a <= b;
    assert s[a] == (s + t)[a];
  }

  lemma ElementsAppend<T>(s: seq<T>, x: T)
    ensures Elements(s + [x]) == Elements(s) + {x}
  {
    assert forall y :: y in s + [x] <==> y in s || y == x;
  }

  lemma ElementsConcat<T>(a: seq<T>, b: seq<T>)
    ensures Elements(a + b) == Elements(a) + Elements(b)
  {
    assert forall y :: y in a + b <==> y in a || y in b;
  }

  /** Adding the same new element to two sets keeps them equal only if they were. */
  lemma AddedCancels<T>(a: set<T>, b: set<T>, x: T)
    requires a + {x} == b + {x}
    requires x !in a && x !in b
    ensures a == b
  {
    assert a == (a + {x}) - {x};
    assert b == (b + {x}) - {x};
  }

  /** The first n = a + b elements are the first a followed by the b after them. */
  lemma TakeSplit<T>(s: seq<T>, a: nat, b: nat, n: nat)
    requires n == a + b <= |s|
    ensures s[..n] == s[..a] + s[a..][..b]
  {
  }

  lemma SubsetCard<T>(a: set<T>, b: set<T>)
    requires a <= b
    ensures |a| <= |b|
  {
    assert b == a + (b - a);
  }

  /** A duplicate-free sequence has as many distinct elements as positions. */
  lemma {:induction false} DistinctCard<T>(s: seq<T>)
    requires NoDuplicates(s)
    ensures |Elements(s)| == |s|
  {
    if |s| > 0 {
      var init := s[..|s| - 1];
      var last := s[|s| - 1];
      assert NoDuplicates(init) by {
        forall i, j | 0 <= i < j < |init| ensures init[i] != init[j] {
          assert init[i] == s[i] && init[j] == s[j];
        }
      }
      DistinctCard(init);
      assert s == init + [last];
      assert Elements(s) == Elements(init) + {last};
      assert last !in Elements(init);
    }
  }
}
