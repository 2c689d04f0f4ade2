/** Facts about sequences of keys used by the retention policy. */
module SeqFacts {

  /** No element occurs twice. */
  predicate Distinct<T(==)>(xs: seq<T>) {
    forall i, j :: 0 <= i < j < |xs| ==> xs[i] != xs[j]
  }

  /** The set of elements of a sequence. */
  function Elems<T>(xs: seq<T>): set<T> {
    set x | x in xs
  }

  /** The tail of a repetition-free sequence is repetition-free and lacks the head. */
  lemma DistinctTail<T>(xs: seq<T>)
    requires xs != [] && Distinct(xs)
    ensures Distinct(xs[1..]) && xs[0] !in xs[1..]
  {
    forall j | 0 <= j < |xs[1..]| ensures xs[1..][j] != xs[0] {
      assert xs[1..][j] == xs[j + 1];
    }
    forall i, j | 0 <= i < j < |xs[1..]| ensures xs[1..][i] != xs[1..][j] {
      assert xs[1..][i] == xs[i + 1] && xs[1..][j] == xs[j + 1];
    }
  }

  /** Prepending an absent element keeps a sequence repetition-free. */
  lemma DistinctCons<T>(x: T, xs: seq<T>)
    requires Distinct(xs) && x !in xs
    ensures Distinct([x] + xs)
  {
    var r := [x] + xs;
    forall i, j | 0 <= i < j < |r| ensures r[i] != r[j] {
      assert r[j] == xs[j - 1];
      if i > 0 { assert r[i] == xs[i - 1]; }
    }
  }

  /** A sequence without repetitions has as many elements as its length. */
  lemma {:induction false} DistinctCard<T>(xs: seq<T>)
    requires Distinct(xs)
    ensures |Elems(xs)| == |xs|
  {
    if xs != [] {
      assert xs == [xs[0]] + xs[1..];
      DistinctTail(xs);
      DistinctCard(xs[1..]);
      assert Elems(xs) == {xs[0]} + Elems(xs[1..]);
    }
  }

  /** Sequences with the same multiset have the same elements. */
  lemma SameElems<T>(a: seq<T>, b: seq<T>)
    requires multiset(a) == multiset(b)
    ensures Elems(a) == Elems(b)
  {
    forall x ensures x in a <==> x in b {
      assert x in a <==> x in multiset(a);
      assert x in b <==> x in multiset(b);
    }
  }

  /** Removing a subset removes exactly its size. */
  lemma SubsetCard<T>(b: set<T>, a: set<T>)
    requires b <= a
    ensures |a - b| == |a| - |b|
  {
    assert a == (a - b) + b;
  }

  /** A sequence has at most as many elements as its length. */
  lemma {:induction false} ElemsCard<T>(xs: seq<T>)
    ensures |Elems(xs)| <= |xs|
  {
    if xs != [] {
      ElemsCard(xs[1..]);
      assert xs == [xs[0]] + xs[1..];
      assert Elems(xs) == {xs[0]} + Elems(xs[1..]);
    }
  }

  /**
   When a sequence has as many elements as its length (no repetitions), so does
   each of its leading parts, and those elements are among the whole's.
   */
  lemma PrefixElemsCard<T>(xs: seq<T>, n: nat)
    requires n <= |xs| && |Elems(xs)| == |xs|
    ensures |Elems(xs[..n])| == n
    ensures Elems(xs[..n]) <= Elems(xs)
  {
    assert xs == xs[..n] + xs[n..];
    ElemsCard(xs[..n]);
    ElemsCard(xs[n..]);
    assert Elems(xs) == Elems(xs[..n]) + Elems(xs[n..]);
  }

  /** A sequence with as many elements as its length has no repetitions. */
  lemma {:induction false} CardDistinct<T>(xs: seq<T>)
    requires |Elems(xs)| == |xs|
    ensures Distinct(xs)
  {
    if xs != [] {
      assert xs == [xs[0]] + xs[1..];
      assert Elems(xs) == {xs[0]} + Elems(xs[1..]);
      assert xs[0] in xs[1..] ==> Elems(xs) == Elems(xs[1..]);
      ElemsCard(xs[1..]);
      CardDistinct(xs[1..]);
      DistinctCons(xs[0], xs[1..]);
    }
  }

  /** Some listing of a set, each element once. */
  ghost function ListingOf<T>(xs: set<T>): (r: seq<T>)
    ensures Elems(r) == xs && |r| == |xs|
    decreases xs
  {
    if xs == {} then []
    else
      var x :| x in xs;
      var rest := ListingOf(xs - {x});
      var r := [x] + rest;
      assert Elems(r) == {x} + Elems(rest);
      assert Elems(r) == xs;
      r
  }
}
