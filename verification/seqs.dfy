/** Order-preserving sub-sequences and the filter that produces them, used to
    state what the date and tag filters keep. */
module Seqs {

  /** `a` is `b` with some elements left out, the rest in their original order. */
  predicate IsSubseq<T(==)>(a: seq<T>, b: seq<T>)
    decreases |b|
  {
    if |a| == 0 then true
    else if |b| == 0 then false
    else if a[0] == b[0] then IsSubseq(a[1..], b[1..])
    else IsSubseq(a, b[1..])
  }

  lemma {:induction false} SubseqDropHead<T>(a: seq<T>, b: seq<T>)
    requires |a| > 0 && IsSubseq(a, b)
    ensures IsSubseq(a[1..], b)
    decreases |b|, 0
  {
    if a[0] != b[0] {
      SubseqDropHead(a, b[1..]);
      SubseqSkip(b[0], a[1..], b[1..]);
      assert [b[0]] + b[1..] == b;
    } else {
      SubseqSkip(b[0], a[1..], b[1..]);
      assert [b[0]] + b[1..] == b;
    }
  }

  /** An extra element of the larger sequence does not break the relation. */
  lemma {:induction false} SubseqSkip<T>(x: T, a: seq<T>, b: seq<T>)
    requires IsSubseq(a, b)
    ensures IsSubseq(a, [x] + b)
    decreases |b|, 1
  {
    assert ([x] + b)[1..] == b;
    if |a| > 0 && a[0] == x {
      SubseqDropHead(a, b);
    }
  }

  lemma SubseqKeep<T>(x: T, a: seq<T>, b: seq<T>)
    requires IsSubseq(a, b)
    ensures IsSubseq([x] + a, [x] + b)
  {
    assert ([x] + a)[1..] == a;
    assert ([x] + b)[1..] == b;
  }

  lemma {:induction false} SubseqRefl<T>(a: seq<T>)
    ensures IsSubseq(a, a)
    decreases |a|
  {
    if |a| > 0 {
      SubseqRefl(a[1..]);
    }
  }

  lemma ConcatAssoc<T>(a: seq<T>, b: seq<T>, c: seq<T>)
    ensures a + b + c == a + (b + c)
  {
  }

  /** The elements of `xs` that `keep` accepts, in their original order. */
  function Filter<T>(xs: seq<T>, keep: T -> bool): seq<T> {
    if |xs| == 0 then []
    else (if keep(xs[0]) then [xs[0]] else []) + Filter(xs[1..], keep)
  }

  /** A filter of a non-empty sequence: the head, if accepted, then the
      filtered tail. */
  lemma FilterCons<T>(xs: seq<T>, keep: T -> bool)
    requires |xs| > 0
    ensures Filter(xs, keep) == if keep(xs[0]) then [xs[0]] + Filter(xs[1..], keep) else Filter(xs[1..], keep)
  {
  }

  /** What the filter keeps: a sub-sequence of accepted elements, each as
      often as it occurs in `xs`. */
  lemma FilterSpec<T(!new)>(xs: seq<T>, keep: T -> bool)
    ensures IsSubseq(Filter(xs, keep), xs)
    ensures forall k :: 0 <= k < |Filter(xs, keep)| ==> keep(Filter(xs, keep)[k])
    ensures forall x :: multiset(Filter(xs, keep))[x] == if keep(x) then multiset(xs)[x] else 0
  {
    FilterSubseq(xs, keep);
    FilterMultiset(xs, keep);
  }

  lemma {:induction false} FilterSubseq<T>(xs: seq<T>, keep: T -> bool)
    ensures IsSubseq(Filter(xs, keep), xs)
    ensures forall k :: 0 <= k < |Filter(xs, keep)| ==> keep(Filter(xs, keep)[k])
    decreases |xs|
  {
    if |xs| > 0 {
      FilterSubseq(xs[1..], keep);
      var rest := Filter(xs[1..], keep);
      FilterCons(xs, keep);
      assert xs == [xs[0]] + xs[1..];
      if keep(xs[0]) {
        SubseqKeep(xs[0], rest, xs[1..]);
        assert forall k :: 1 <= k < |[xs[0]] + rest| ==> ([xs[0]] + rest)[k] == rest[k - 1];
      } else {
        SubseqSkip(xs[0], rest, xs[1..]);
      }
    }
  }

  lemma FilterMultiset<T(!new)>(xs: seq<T>, keep: T -> bool)
    ensures forall x :: multiset(Filter(xs, keep))[x] == if keep(x) then multiset(xs)[x] else 0
  {
    forall x
      ensures multiset(Filter(xs, keep))[x] == if keep(x) then multiset(xs)[x] else 0
    {
      FilterOccurrences(xs, keep, x);
    }
  }

  /** How often one value occurs in the filter's result. */
  lemma {:induction false} FilterOccurrences<T>(xs: seq<T>, keep: T -> bool, x: T)
    ensures multiset(Filter(xs, keep))[x] == if keep(x) then multiset(xs)[x] else 0
    decreases |xs|
  {
    if |xs| > 0 {
      var rest := Filter(xs[1..], keep);
      FilterOccurrences(xs[1..], keep, x);
      FilterCons(xs, keep);
      assert xs == xs[..1] + xs[1..];
      assert xs[..1] == [xs[0]];
      MultisetCons(xs[0], xs[1..], x);
      MultisetCons(xs[0], rest, x);
    }
  }

  /** One more copy of `y` in front adds one occurrence of `y`. */
  lemma MultisetCons<T>(y: T, ys: seq<T>, x: T)
    ensures multiset([y] + ys)[x] == (if x == y then 1 else 0) + multiset(ys)[x]
  {
    assert multiset([y] + ys) == multiset{y} + multiset(ys);
  }

  /** The filter drops something exactly when something is not accepted, and
      keeps all of `xs` otherwise. */
  lemma {:induction false} FilterLength<T>(xs: seq<T>, keep: T -> bool)
    ensures |Filter(xs, keep)| <= |xs|
    ensures |Filter(xs, keep)| == |xs| <==> forall k :: 0 <= k < |xs| ==> keep(xs[k])
    ensures (forall k :: 0 <= k < |xs| ==> keep(xs[k])) ==> Filter(xs, keep) == xs
    decreases |xs|
  {
    if |xs| > 0 {
      FilterLength(xs[1..], keep);
      FilterCons(xs, keep);
      assert forall k :: 1 <= k < |xs| ==> xs[k] == xs[1..][k - 1];
      assert xs == [xs[0]] + xs[1..];
    }
  }

  /** Filtering a filtered sequence again changes nothing. */
  lemma FilterIdempotent<T(!new)>(xs: seq<T>, keep: T -> bool)
    ensures Filter(Filter(xs, keep), keep) == Filter(xs, keep)
  {
    FilterSpec(xs, keep);
    FilterLength(Filter(xs, keep), keep);
  }

  /** The positions of `xs` whose element `keep` accepts. */
  function Positions<T>(xs: seq<T>, keep: T -> bool): set<int> {
    set k | 0 <= k < |xs| && keep(xs[k])
  }

  /** Filtering a concatenation filters each part. */
  lemma {:induction false} FilterAppend<T>(xs: seq<T>, ys: seq<T>, keep: T -> bool)
    ensures Filter(xs + ys, keep) == Filter(xs, keep) + Filter(ys, keep)
    decreases |xs|
  {
    if |xs| == 0 {
      assert xs + ys == ys;
    } else {
      var zs := xs + ys;
      assert zs[0] == xs[0] && zs[1..] == xs[1..] + ys;
      FilterAppend(xs[1..], ys, keep);
      FilterCons(zs, keep);
      FilterCons(xs, keep);
      var head := if keep(xs[0]) then [xs[0]] else [];
      assert Filter(zs, keep) == head + (Filter(xs[1..], keep) + Filter(ys, keep));
      assert Filter(xs, keep) == head + Filter(xs[1..], keep);
      ConcatAssoc(head, Filter(xs[1..], keep), Filter(ys, keep));
    }
  }

  /** The accepted positions of `ys + [z]`: those of `ys`, and `|ys|` when
      `z` is accepted. */
  lemma PositionsSnoc<T>(ys: seq<T>, z: T, keep: T -> bool)
    ensures Positions(ys + [z], keep) == Positions(ys, keep) + (if keep(z) then {|ys|} else {})
  {
    var xs := ys + [z];
    forall k | 0 <= k < |ys|
      ensures xs[k] == ys[k]
    {
    }
  }

  /** The filter keeps exactly as many elements as there are accepted positions. */
  lemma {:induction false} FilterCount<T(!new)>(xs: seq<T>, keep: T -> bool)
    ensures |Filter(xs, keep)| == |Positions(xs, keep)|
    decreases |xs|
  {
    if |xs| > 0 {
      var ys := xs[..|xs| - 1];
      var z := xs[|xs| - 1];
      assert xs == ys + [z];
      FilterCount(ys, keep);
      FilterAppend(ys, [z], keep);
      assert [z][1..] == [];
      PositionsSnoc(ys, z, keep);
      assert |ys| !in Positions(ys, keep);
    }
  }
}
