/** Sequence helpers shared by the dispatcher and the receipt reconciler. */
module Seqs {

  /** `f` applied to every element of `s`, the results concatenated in order. */
  function FlatMap<X, Y>(f: X -> seq<Y>, s: seq<X>): seq<Y>
  {
    if s == [] then [] else FlatMap(f, s[..|s| - 1]) + f(s[|s| - 1])
  }

  lemma {:induction false} FlatMapAppend<X, Y>(f: X -> seq<Y>, a: seq<X>, b: seq<X>)
    ensures FlatMap(f, a + b) == FlatMap(f, a) + FlatMap(f, b)
    decreases |b|
  {
    if b == [] {
      assert a + b == a;
    } else {
      var front := b[..|b| - 1];
      assert (a + b)[..|a + b| - 1] == a + front;
      assert (a + b)[|a + b| - 1] == b[|b| - 1];
      FlatMapAppend(f, a, front);
    }
  }

  function Id<X>(xs: seq<X>): seq<X>
  {
    xs
  }

  /** The concatenation, in order, of a list of chunks. */
  function Flatten<X>(chunks: seq<seq<X>>): seq<X>
  {
    FlatMap(Id, chunks)
  }

  /** `chunks` splits `xs` into non-empty pieces that, read in order, give back `xs`. */
  ghost predicate Partitions<X>(chunks: seq<seq<X>>, xs: seq<X>)
  {
    Flatten(chunks) == xs && forall i :: 0 <= i < |chunks| ==> chunks[i] != []
  }

  /** A non-empty list of chunks flattens to its first chunk followed by the rest. */
  lemma FlattenFirst<X>(chunks: seq<seq<X>>)
    requires chunks != []
    ensures Flatten(chunks) == chunks[0] + Flatten(chunks[1..])
  {
    assert chunks == [chunks[0]] + chunks[1..];
    FlatMapAppend(Id, [chunks[0]], chunks[1..]);
    assert FlatMap(Id, [chunks[0]]) == FlatMap(Id, []) + Id(chunks[0]);
  }

  /** The elements of `s` that satisfy `p`, in their original order. */
  function Filter<X>(p: X -> bool, s: seq<X>): (r: seq<X>)
    ensures |r| <= |s|
    ensures forall x | x in r :: x in s && p(x)
    ensures forall x | x in s && p(x) :: x in r
  {
    if s == [] then []
    else (if p(s[0]) then [s[0]] else []) + Filter(p, s[1..])
  }

  lemma {:induction false} FilterSnoc<X>(p: X -> bool, s: seq<X>, x: X)
    ensures Filter(p, s + [x]) == Filter(p, s) + (if p(x) then [x] else [])
    decreases |s|
  {
    if s == [] {
      assert Filter(p, [x]) == (if p(x) then [x] else []) + Filter(p, []);
    } else {
      assert (s + [x])[0] == s[0];
      assert (s + [x])[1..] == s[1..] + [x];
      FilterSnoc(p, s[1..], x);
    }
  }

  /** Every element is kept by exactly one of `p` and its negation. */
  lemma {:induction false} FilterSplits<X>(p: X -> bool, q: X -> bool, s: seq<X>)
    requires forall x :: q(x) == !p(x)
    ensures |Filter(p, s)| + |Filter(q, s)| == |s|
    decreases |s|
  {
    if s != [] {
      FilterSplits(p, q, s[1..]);
    }
  }
}
