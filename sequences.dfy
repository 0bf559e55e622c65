/**
 * List comprehensions over sequences: `[f(x) for x in xs]` and
 * `[x for x in xs if keep(x)]`, with the facts the transcript loops rely on.
 */
module Sequences {

  /** [f(x) for x in xs]. */
  function MapSeq<A, B>(f: A -> B, xs: seq<A>): (ys: seq<B>)
    ensures |ys| == |xs|
  {
    if xs == [] then [] else MapSeq(f, xs[..|xs| - 1]) + [f(xs[|xs| - 1])]
  }

  /** Element i of the mapped sequence is f applied to element i. */
  lemma {:induction false} MapSeqAt<A, B>(f: A -> B, xs: seq<A>, i: nat)
    requires i < |xs|
    ensures MapSeq(f, xs)[i] == f(xs[i])
    decreases |xs|
  {
    if i < |xs| - 1 {
      MapSeqAt(f, xs[..|xs| - 1], i);
    }
  }

  /** [x for x in xs if keep(x)]. */
  function Filter<T>(keep: T -> bool, xs: seq<T>): (ys: seq<T>)
    ensures |ys| <= |xs|
  {
    if xs == [] then []
    else Filter(keep, xs[..|xs| - 1]) + (if keep(xs[|xs| - 1]) then [xs[|xs| - 1]] else [])
  }

  /** The positions of the elements Filter keeps, in order. */
  function KeptIndices<T>(keep: T -> bool, xs: seq<T>): seq<nat> {
    if xs == [] then []
    else KeptIndices(keep, xs[..|xs| - 1]) + (if keep(xs[|xs| - 1]) then [|xs| - 1] else [])
  }

  /** The kept positions are increasing, and a position is kept exactly when keep holds of its element. */
  lemma {:induction false} KeptIndicesFacts<T>(keep: T -> bool, xs: seq<T>)
    ensures var ks := KeptIndices(keep, xs);
            && (forall k :: 0 <= k < |ks| ==> ks[k] < |xs|)
            && (forall a, b :: 0 <= a < b < |ks| ==> ks[a] < ks[b])
            && (forall i :: 0 <= i < |xs| ==> (i in ks <==> keep(xs[i])))
  {
    if xs != [] {
      var init := xs[..|xs| - 1];
      KeptIndicesFacts(keep, init);
      forall i | 0 <= i < |init| ensures init[i] == xs[i] { }
    }
  }

  /** Element k of the filtered sequence is the element at the k-th kept position. */
  lemma {:induction false} FilterIsKeptElements<T>(keep: T -> bool, xs: seq<T>)
    ensures |Filter(keep, xs)| == |KeptIndices(keep, xs)|
    ensures forall k :: 0 <= k < |Filter(keep, xs)| ==>
              KeptIndices(keep, xs)[k] < |xs| && Filter(keep, xs)[k] == xs[KeptIndices(keep, xs)[k]]
  {
    if xs != [] {
      var init := xs[..|xs| - 1];
      FilterIsKeptElements(keep, init);
      KeptIndicesFacts(keep, init);
      forall i | 0 <= i < |init| ensures init[i] == xs[i] { }
    }
  }

  /** Everything Filter keeps passes the test. */
  lemma {:induction false} FilterAllKept<T>(keep: T -> bool, xs: seq<T>)
    ensures forall y :: y in Filter(keep, xs) ==> keep(y)
  {
    if xs != [] {
      FilterAllKept(keep, xs[..|xs| - 1]);
    }
  }

  /** Filter keeps only elements of its input. */
  lemma {:induction false} FilterSubset<T>(keep: T -> bool, xs: seq<T>)
    ensures forall y :: y in Filter(keep, xs) ==> y in xs
  {
    if xs != [] {
      FilterSubset(keep, xs[..|xs| - 1]);
      assert forall y :: y in xs[..|xs| - 1] ==> y in xs;
    }
  }

  /** Filtering one more element. */
  lemma FilterSnoc<T>(keep: T -> bool, xs: seq<T>, x: T)
    ensures Filter(keep, xs + [x]) == Filter(keep, xs) + (if keep(x) then [x] else [])
  {
    assert (xs + [x])[..|xs|] == xs;
  }

  /** One more step of a loop that filters xs in order. */
  lemma FilterStep<T>(keep: T -> bool, xs: seq<T>, i: nat)
    requires i < |xs|
    ensures Filter(keep, xs[..i + 1]) == Filter(keep, xs[..i]) + (if keep(xs[i]) then [xs[i]] else [])
  {
    TakeSnoc(xs, i);
    FilterSnoc(keep, xs[..i], xs[i]);
  }

  /** Mapping one more element. */
  lemma MapSeqSnoc<A, B>(f: A -> B, xs: seq<A>, x: A)
    ensures MapSeq(f, xs + [x]) == MapSeq(f, xs) + [f(x)]
  {
    assert (xs + [x])[..|xs|] == xs;
  }

  /** One more step of a loop that maps xs in order. */
  lemma MapSeqStep<A, B>(f: A -> B, xs: seq<A>, i: nat)
    requires i < |xs|
    ensures MapSeq(f, xs[..i + 1]) == MapSeq(f, xs[..i]) + [f(xs[i])]
  {
    TakeSnoc(xs, i);
    MapSeqSnoc(f, xs[..i], xs[i]);
  }

  /** [x] * n. */
  function Repeat<T>(x: T, n: nat): (r: seq<T>)
    ensures |r| == n
    ensures forall i :: 0 <= i < n ==> r[i] == x
  {
    seq(n, _ => x)
  }

  /** One more copy. */
  lemma RepeatSnoc<T>(x: T, n: nat)
    ensures Repeat(x, n + 1) == Repeat(x, n) + [x]
  {
  }

  /** The first i + 1 elements are the first i followed by element i. */
  lemma TakeSnoc<T>(s: seq<T>, i: nat)
    requires i < |s|
    ensures s[..i + 1] == s[..i] + [s[i]]
  {
  }

  /** A slice of a slice is a slice of the original. */
  lemma SliceOfSlice<T>(s: seq<T>, a: nat, b: nat, c: nat, d: nat)
    requires a <= b <= |s| && c <= d <= b - a
    ensures s[a..b][c..d] == s[a + c..a + d]
  {
    forall k | 0 <= k < d - c
      ensures s[a..b][c..d][k] == s[a + c..a + d][k]
    {
      assert s[a..b][c..d][k] == s[a..b][c + k] == s[a + c + k];
    }
  }

  /** Appending is associative. */
  lemma AppendAssoc<T>(a: seq<T>, b: seq<T>, c: seq<T>)
    ensures a + b + c == a + (b + c)
  {
  }

  /** Indexing into the second part of a concatenation. */
  lemma AppendIndexRight<T>(a: seq<T>, b: seq<T>, i: nat)
    requires i < |b|
    ensures |a| + i < |a + b| && (a + b)[|a| + i] == b[i]
  {
  }

  /** A suffix splits into consecutive slices. */
  lemma SuffixSplit<T>(s: seq<T>, a: nat, b: nat, c: nat)
    requires a <= b <= c <= |s|
    ensures s[a..] == s[a..b] + s[b..c] + s[c..]
  {
  }
}
