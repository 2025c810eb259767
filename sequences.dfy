/**
 * Order-preserving selection over sequences: the shape of every boolean-mask
 * indexing `data[mask]` in the script.
 */
module Sequences {

  /** The elements of `s` that satisfy `p`, in their original order. */
  function Filter<T>(s: seq<T>, p: T -> bool): (r: seq<T>)
    ensures |r| <= |s|
    ensures forall i :: 0 <= i < |r| ==> r[i] in s && p(r[i])
    decreases |s|
  {
    if |s| == 0 then []
    else
      var init := s[..|s| - 1];
      assert s == init + [s[|s| - 1]];
      Filter(init, p) + (if p(s[|s| - 1]) then [s[|s| - 1]] else [])
  }

  /** The positions of `s` whose element satisfies `p`, in increasing order. */
  function KeptIndices<T>(s: seq<T>, p: T -> bool): (r: seq<nat>)
    decreases |s|
  {
    if |s| == 0 then []
    else KeptIndices(s[..|s| - 1], p) + (if p(s[|s| - 1]) then [|s| - 1] else [])
  }

  /** `i < j` for every earlier position `i` and later position `j` of `idx`. */
  predicate StrictlyIncreasing(idx: seq<nat>) {
    forall k, l :: 0 <= k < l < |idx| ==> idx[k] < idx[l]
  }

  /**
   * Filter keeps exactly the elements that satisfy `p`, in order: its k-th
   * element is the element at the k-th kept position, the kept positions
   * increase, and a position is kept exactly when its element satisfies `p`.
   */
  lemma FilterExactly<T>(s: seq<T>, p: T -> bool)
    ensures |Filter(s, p)| == |KeptIndices(s, p)|
    ensures forall k :: 0 <= k < |KeptIndices(s, p)| ==>
      KeptIndices(s, p)[k] < |s| && Filter(s, p)[k] == s[KeptIndices(s, p)[k]]
    ensures StrictlyIncreasing(KeptIndices(s, p))
    ensures forall i :: 0 <= i < |s| ==> (i in KeptIndices(s, p) <==> p(s[i]))
  {
    KeptIndicesExactly(s, p);
    FilterAtKept(s, p);
  }

  /** The kept positions are in range, increase, and are exactly the positions satisfying `p`. */
  lemma {:induction false} KeptIndicesExactly<T>(s: seq<T>, p: T -> bool)
    ensures forall k :: 0 <= k < |KeptIndices(s, p)| ==> KeptIndices(s, p)[k] < |s|
    ensures StrictlyIncreasing(KeptIndices(s, p))
    ensures forall i :: 0 <= i < |s| ==> (i in KeptIndices(s, p) <==> p(s[i]))
    decreases |s|
  {
    if |s| > 0 {
      var init := s[..|s| - 1];
      KeptIndicesExactly(init, p);
      var idx := KeptIndices(s, p);
      var idx0 := KeptIndices(init, p);
      forall i | 0 <= i < |s| ensures (i in idx <==> p(s[i])) {
        if i < |s| - 1 {
          assert init[i] == s[i];
          assert i in idx <==> i in idx0;
        }
      }
    }
  }

  /** The k-th element of the filter is the element at the k-th kept position. */
  lemma {:induction false} FilterAtKept<T>(s: seq<T>, p: T -> bool)
    ensures |Filter(s, p)| == |KeptIndices(s, p)|
    ensures forall k :: 0 <= k < |KeptIndices(s, p)| ==>
      KeptIndices(s, p)[k] < |s| && Filter(s, p)[k] == s[KeptIndices(s, p)[k]]
    decreases |s|
  {
    if |s| > 0 {
      var init := s[..|s| - 1];
      FilterAtKept(init, p);
      var last := s[|s| - 1];
      var f, f0 := Filter(s, p), Filter(init, p);
      var idx, idx0 := KeptIndices(s, p), KeptIndices(init, p);
      assert f == f0 + (if p(last) then [last] else []);
      assert idx == idx0 + (if p(last) then [|s| - 1] else []);
      forall k | 0 <= k < |idx| ensures idx[k] < |s| && f[k] == s[idx[k]] {
        if k < |idx0| {
          assert idx[k] == idx0[k] && f[k] == f0[k];
          assert init[idx0[k]] == s[idx0[k]];
        } else {
          assert idx[k] == |s| - 1 && f[k] == last;
        }
      }
    }
  }

  /** Filtering again with the same predicate changes nothing. */
  lemma {:induction false} FilterIdempotent<T>(s: seq<T>, p: T -> bool)
    ensures Filter(Filter(s, p), p) == Filter(s, p)
  {
    FilterExactly(s, p);
    FilterAllKept(Filter(s, p), p);
  }

  /** A sequence all of whose elements satisfy `p` is its own filter. */
  lemma {:induction false} FilterAllKept<T>(s: seq<T>, p: T -> bool)
    requires forall i :: 0 <= i < |s| ==> p(s[i])
    ensures Filter(s, p) == s
    decreases |s|
  {
    if |s| > 0 {
      FilterAllKept(s[..|s| - 1], p);
      assert s == s[..|s| - 1] + [s[|s| - 1]];
    }
  }

  /** Nothing is kept when no element satisfies `p`. */
  lemma {:induction false} FilterNoneKept<T>(s: seq<T>, p: T -> bool)
    requires forall i :: 0 <= i < |s| ==> !p(s[i])
    ensures Filter(s, p) == []
    decreases |s|
  {
    if |s| > 0 {
      FilterNoneKept(s[..|s| - 1], p);
    }
  }

  /** Two successive filters are one filter by the conjunction. */
  lemma {:induction false} FilterThenFilter<T>(s: seq<T>, p: T -> bool, q: T -> bool, pq: T -> bool)
    requires forall x :: pq(x) == (p(x) && q(x))
    ensures Filter(Filter(s, p), q) == Filter(s, pq)
    decreases |s|
  {
    if |s| > 0 {
      var init, last := s[..|s| - 1], s[|s| - 1];
      FilterThenFilter(init, p, q, pq);
      FilterAppend(Filter(init, p), if p(last) then [last] else [], q);
    }
  }

  /** Filtering with two predicates that agree everywhere gives the same sequence. */
  lemma {:induction false} FilterSamePredicate<T>(s: seq<T>, p: T -> bool, q: T -> bool)
    requires forall x :: p(x) == q(x)
    ensures Filter(s, p) == Filter(s, q)
    decreases |s|
  {
    if |s| > 0 {
      FilterSamePredicate(s[..|s| - 1], p, q);
    }
  }

  /** Filtering distributes over concatenation. */
  lemma {:induction false} FilterAppend<T>(a: seq<T>, b: seq<T>, p: T -> bool)
    ensures Filter(a + b, p) == Filter(a, p) + Filter(b, p)
    decreases |b|
  {
    if |b| > 0 {
      var b0 := b[..|b| - 1];
      assert (a + b)[..|a + b| - 1] == a + b0;
      assert (a + b)[|a + b| - 1] == b[|b| - 1];
      FilterAppend(a, b0, p);
    } else {
      assert a + b == a;
    }
  }

  /** Two filters by predicates no element satisfies together keep at most the whole input between them. */
  lemma {:induction false} FilterDisjointLengths<T>(s: seq<T>, p: T -> bool, q: T -> bool)
    requires forall i :: 0 <= i < |s| ==> !(p(s[i]) && q(s[i]))
    ensures |Filter(s, p)| + |Filter(s, q)| <= |s|
    decreases |s|
  {
    if |s| > 0 {
      FilterDisjointLengths(s[..|s| - 1], p, q);
    }
  }

  /** The values of one projection of the elements, in order. */
  function MapSeq<T, U>(s: seq<T>, f: T -> U): (r: seq<U>)
    ensures |r| == |s|
    ensures forall i :: 0 <= i < |s| ==> r[i] == f(s[i])
  {
    seq(|s|, i requires 0 <= i < |s| => f(s[i]))
  }
}
