/** Generic facts about sequences used throughout the model: order-preserving
    filtering, subsequences, order-preserving partitions and distinctness. */
module Seqs {

  /** No element occurs twice. */
  predicate Distinct<T(==)>(xs: seq<T>)
  {
    forall i, j :: 0 <= i < j < |xs| ==> xs[i] != xs[j]
  }

  /** `a` can be obtained from `b` by deleting elements (order is kept). */
  predicate IsSubsequence<T(==)>(a: seq<T>, b: seq<T>)
    decreases |b|
  {
    a == [] ||
    (b != [] && ((a[0] == b[0] && IsSubsequence(a[1..], b[1..])) || IsSubsequence(a, b[1..])))
  }

  lemma {:induction false} IsSubsequenceReflexive<T>(xs: seq<T>)
    ensures IsSubsequence(xs, xs)
  {
    if xs != [] {
      IsSubsequenceReflexive(xs[1..]);
    }
  }

  lemma {:induction false} SubsequenceMembers<T>(a: seq<T>, b: seq<T>, x: T)
    requires IsSubsequence(a, b) && x in a
    ensures x in b
    decreases |b|
  {
    if a[0] == b[0] && IsSubsequence(a[1..], b[1..]) {
      if x != a[0] {
        assert a == [a[0]] + a[1..];
        SubsequenceMembers(a[1..], b[1..], x);
      }
    } else {
      SubsequenceMembers(a, b[1..], x);
    }
  }

  lemma {:induction false} IsSubsequenceTransitive<T>(a: seq<T>, b: seq<T>, c: seq<T>)
    requires IsSubsequence(a, b) && IsSubsequence(b, c)
    ensures IsSubsequence(a, c)
    decreases |c|
  {
    if a != [] {
      if b[0] == c[0] && IsSubsequence(b[1..], c[1..]) {
        if a[0] == b[0] && IsSubsequence(a[1..], b[1..]) {
          IsSubsequenceTransitive(a[1..], b[1..], c[1..]);
        } else {
          IsSubsequenceTransitive(a, b[1..], c[1..]);
        }
      } else {
        IsSubsequenceTransitive(a, b, c[1..]);
      }
    }
  }

  /** `a` and `b` split `xs` into two parts, each keeping the order of `xs`. */
  predicate Interleaves<T(==)>(xs: seq<T>, a: seq<T>, b: seq<T>)
    decreases |xs|
  {
    if xs == [] then a == [] && b == []
    else
      (a != [] && a[0] == xs[0] && Interleaves(xs[1..], a[1..], b)) ||
      (b != [] && b[0] == xs[0] && Interleaves(xs[1..], a, b[1..]))
  }

  lemma PrefixTransitive<T>(a: seq<T>, b: seq<T>, c: seq<T>)
    requires a <= b && b <= c
    ensures a <= c
  {
    assert c[..|b|][..|a|] == c[..|a|];
  }

  /** Membership in `xs` negated, as a filter predicate. */
  function NotIn<T(==)>(xs: seq<T>): T -> bool
  {
    x => x !in xs
  }

  /** The negation of a filter predicate. */
  function Not<T>(p: T -> bool): T -> bool
  {
    x => !p(x)
  }

  /** The elements of `xs` that satisfy `p`, in their original order. */
  function Filter<T(==,!new)>(xs: seq<T>, p: T -> bool): (r: seq<T>)
    ensures |r| <= |xs|
  {
    if xs == [] then []
    else if p(xs[0]) then [xs[0]] + Filter(xs[1..], p)
    else Filter(xs[1..], p)
  }

  /** Filtering keeps exactly the elements satisfying `p`. */
  lemma {:induction false} FilterMembers<T(!new)>(xs: seq<T>, p: T -> bool)
    ensures forall x :: x in Filter(xs, p) <==> x in xs && p(x)
  {
    if xs != [] {
      FilterMembers(xs[1..], p);
      assert xs == [xs[0]] + xs[1..];
    }
  }

  /** ... and keeps every occurrence of them. */
  lemma {:induction false} FilterCounts<T(!new)>(xs: seq<T>, p: T -> bool)
    ensures forall x :: multiset(Filter(xs, p))[x] == (if p(x) then multiset(xs)[x] else 0)
  {
    if xs != [] {
      FilterCounts(xs[1..], p);
      assert xs == [xs[0]] + xs[1..];
    }
  }

  lemma {:induction false} FilterIsSubsequence<T(!new)>(xs: seq<T>, p: T -> bool)
    ensures IsSubsequence(Filter(xs, p), xs)
  {
    if xs != [] {
      FilterIsSubsequence(xs[1..], p);
      var r := Filter(xs[1..], p);
      if p(xs[0]) {
        assert Filter(xs, p) == [xs[0]] + r;
        assert ([xs[0]] + r)[1..] == r;
      } else {
        if r != [] {
          assert IsSubsequence(r, xs[1..]);
        }
      }
    }
  }

  /** Filtering by `p` and by its negation is an order-preserving partition. */
  lemma {:induction false} FilterSplits<T(!new)>(xs: seq<T>, p: T -> bool)
    ensures Interleaves(xs, Filter(xs, p), Filter(xs, Not(p)))
  {
    if xs != [] {
      FilterSplits(xs[1..], p);
      var a, b := Filter(xs[1..], p), Filter(xs[1..], Not(p));
      if p(xs[0]) {
        assert Filter(xs, p) == [xs[0]] + a;
        assert ([xs[0]] + a)[1..] == a;
      } else {
        assert Filter(xs, Not(p)) == [xs[0]] + b;
        assert ([xs[0]] + b)[1..] == b;
      }
    }
  }

  lemma {:induction false} FilterAppend<T(!new)>(xs: seq<T>, x: T, p: T -> bool)
    ensures Filter(xs + [x], p) == Filter(xs, p) + (if p(x) then [x] else [])
  {
    if xs == [] {
      assert [] + [x] == [x];
    } else {
      assert (xs + [x])[1..] == xs[1..] + [x];
      FilterAppend(xs[1..], x, p);
    }
  }

  lemma {:induction false} FilterConcat<T(!new)>(a: seq<T>, b: seq<T>, p: T -> bool)
    ensures Filter(a + b, p) == Filter(a, p) + Filter(b, p)
  {
    if a == [] {
      assert a + b == b;
    } else {
      assert (a + b)[0] == a[0] && (a + b)[1..] == a[1..] + b;
      FilterConcat(a[1..], b, p);
    }
  }

  /** Filtering twice is filtering once by the conjunction. */
  lemma {:induction false} FilterCompose<T(!new)>(xs: seq<T>, p: T -> bool, q: T -> bool, pq: T -> bool)
    requires forall x :: pq(x) == (p(x) && q(x))
    ensures Filter(Filter(xs, p), q) == Filter(xs, pq)
  {
    if xs != [] {
      FilterCompose(xs[1..], p, q, pq);
      if p(xs[0]) {
        assert Filter(xs, p) == [xs[0]] + Filter(xs[1..], p);
        assert ([xs[0]] + Filter(xs[1..], p))[1..] == Filter(xs[1..], p);
      }
    }
  }

  /** Filtering is idempotent. */
  lemma FilterIdempotent<T(!new)>(xs: seq<T>, p: T -> bool)
    ensures Filter(Filter(xs, p), p) == Filter(xs, p)
  {
    FilterCompose(xs, p, p, p);
  }

  /** A predicate that holds of every element keeps everything. */
  lemma {:induction false} FilterKeepsAll<T(!new)>(xs: seq<T>, p: T -> bool)
    requires forall x :: x in xs ==> p(x)
    ensures Filter(xs, p) == xs
  {
    if xs != [] {
      FilterKeepsAll(xs[1..], p);
      assert xs == [xs[0]] + xs[1..];
    }
  }

  lemma {:induction false} FilterDistinct<T(!new)>(xs: seq<T>, p: T -> bool)
    requires Distinct(xs)
    ensures Distinct(Filter(xs, p))
  {
    if xs != [] {
      assert Distinct(xs[1..]) by {
        forall i, j | 0 <= i < j < |xs[1..]| ensures xs[1..][i] != xs[1..][j] {
          assert xs[1..][i] == xs[i + 1] && xs[1..][j] == xs[j + 1];
        }
      }
      FilterDistinct(xs[1..], p);
      var r := Filter(xs[1..], p);
      FilterMembers(xs[1..], p);
      if p(xs[0]) {
        assert xs[0] !in xs[1..];
        assert xs[0] !in r;
        forall i, j | 0 <= i < j < |[xs[0]] + r| ensures ([xs[0]] + r)[i] != ([xs[0]] + r)[j] {
          if i == 0 {
            assert ([xs[0]] + r)[j] == r[j - 1];
          } else {
            assert ([xs[0]] + r)[i] == r[i - 1] && ([xs[0]] + r)[j] == r[j - 1];
          }
        }
      }
    }
  }

  /** An order-preserving partition keeps every element exactly once. */
  lemma {:induction false} InterleavesMultiset<T>(xs: seq<T>, a: seq<T>, b: seq<T>)
    requires Interleaves(xs, a, b)
    ensures multiset(xs) == multiset(a) + multiset(b)
    ensures |xs| == |a| + |b|
  {
    if xs != [] {
      assert xs == [xs[0]] + xs[1..];
      if a != [] && a[0] == xs[0] && Interleaves(xs[1..], a[1..], b) {
        InterleavesMultiset(xs[1..], a[1..], b);
        assert a == [a[0]] + a[1..];
      } else {
        InterleavesMultiset(xs[1..], a, b[1..]);
        assert b == [b[0]] + b[1..];
      }
    }
  }

  /** Every element of the partitioned sequence lies in one of the parts. */
  lemma InterleavesMembers<T>(xs: seq<T>, a: seq<T>, b: seq<T>)
    requires Interleaves(xs, a, b)
    ensures forall x :: x in xs <==> x in a || x in b
  {
    InterleavesMultiset(xs, a, b);
    assert forall x :: x in xs <==> x in multiset(xs);
    assert forall x :: x in a <==> x in multiset(a);
    assert forall x :: x in b <==> x in multiset(b);
  }

  lemma DistinctTail<T>(xs: seq<T>)
    requires Distinct(xs) && xs != []
    ensures Distinct(xs[1..]) && xs[0] !in xs[1..]
  {
    forall i, j | 0 <= i < j < |xs[1..]| ensures xs[1..][i] != xs[1..][j] {
      assert xs[1..][i] == xs[i + 1] && xs[1..][j] == xs[j + 1];
    }
  }

  /** The parts of a partition of a sequence without repetitions share no
      element. */
  lemma {:induction false} InterleavesDisjoint<T>(xs: seq<T>, a: seq<T>, b: seq<T>)
    requires Interleaves(xs, a, b) && Distinct(xs)
    ensures forall x :: x in a ==> x !in b
  {
    if xs != [] {
      DistinctTail(xs);
      if a != [] && a[0] == xs[0] && Interleaves(xs[1..], a[1..], b) {
        InterleavesDisjoint(xs[1..], a[1..], b);
        InterleavesMembers(xs[1..], a[1..], b);
        assert a == [a[0]] + a[1..];
      } else {
        InterleavesDisjoint(xs[1..], a, b[1..]);
        InterleavesMembers(xs[1..], a, b[1..]);
        assert b == [b[0]] + b[1..];
      }
    }
  }

  /** Extending the partitioned sequence by one element on either side. */
  lemma {:induction false} InterleavesSnoc<T>(xs: seq<T>, a: seq<T>, b: seq<T>, x: T)
    requires Interleaves(xs, a, b)
    ensures Interleaves(xs + [x], a + [x], b)
    ensures Interleaves(xs + [x], a, b + [x])
    decreases |xs|
  {
    if xs == [] {
      assert [] + [x] == [x];
      assert a == [] && b == [];
      assert Interleaves([x][1..], ([] + [x])[1..], []);
    } else {
      assert (xs + [x])[1..] == xs[1..] + [x];
      if a != [] && a[0] == xs[0] && Interleaves(xs[1..], a[1..], b) {
        InterleavesSnoc(xs[1..], a[1..], b, x);
        assert (a + [x])[1..] == a[1..] + [x];
      } else {
        InterleavesSnoc(xs[1..], a, b[1..], x);
        assert (b + [x])[1..] == b[1..] + [x];
      }
    }
  }

  /** Each part of an order-preserving partition is a subsequence. */
  lemma {:induction false} InterleavesSubsequences<T>(xs: seq<T>, a: seq<T>, b: seq<T>)
    requires Interleaves(xs, a, b)
    ensures IsSubsequence(a, xs) && IsSubsequence(b, xs)
  {
    if xs != [] {
      if a != [] && a[0] == xs[0] && Interleaves(xs[1..], a[1..], b) {
        InterleavesSubsequences(xs[1..], a[1..], b);
      } else {
        InterleavesSubsequences(xs[1..], a, b[1..]);
      }
    }
  }

  /** Removes the first occurrence of `x`, like Python's `list.remove` (the
      caller checks membership first). */
  function RemoveFirst<T(==)>(xs: seq<T>, x: T): (r: seq<T>)
    ensures x in xs ==> multiset(r) == multiset(xs) - multiset{x}
    ensures x !in xs ==> r == xs
  {
    if xs == [] then []
    else
      assert xs == [xs[0]] + xs[1..];
      if xs[0] == x then xs[1..] else [xs[0]] + RemoveFirst(xs[1..], x)
  }

  /** Without repetitions, removing the first occurrence removes the element
      and keeps the others in order. */
  lemma {:induction false} RemoveFirstIsFilter<T(!new)>(xs: seq<T>, x: T)
    requires Distinct(xs)
    ensures RemoveFirst(xs, x) == Filter(xs, NotIn([x]))
  {
    if xs != [] {
      DistinctTail(xs);
      if xs[0] == x {
        FilterKeepsAll(xs[1..], NotIn([x]));
      } else {
        RemoveFirstIsFilter(xs[1..], x);
      }
    }
  }

  lemma DistinctConcat<T>(a: seq<T>, b: seq<T>)
    requires Distinct(a) && Distinct(b) && forall x :: x in a ==> x !in b
    ensures Distinct(a + b)
  {
    forall i, j | 0 <= i < j < |a + b| ensures (a + b)[i] != (a + b)[j] {
      if j < |a| {
      } else if i >= |a| {
        assert (a + b)[i] == b[i - |a|] && (a + b)[j] == b[j - |a|];
      } else {
        assert (a + b)[i] in a && (a + b)[j] in b;
      }
    }
  }

  /** No element repeats exactly when no element occurs more than once. */
  lemma {:induction false} DistinctMultiset<T>(xs: seq<T>)
    ensures Distinct(xs) <==> forall x :: multiset(xs)[x] <= 1
  {
    if xs != [] {
      var init, last := xs[..|xs| - 1], xs[|xs| - 1];
      DistinctMultiset(init);
      assert xs == init + [last];
      assert multiset(xs) == multiset(init) + multiset{last};
      if Distinct(xs) {
        assert Distinct(init);
        assert last !in init by {
          forall k | 0 <= k < |init| ensures init[k] != last {
            assert xs[k] == init[k];
          }
        }
      } else if forall x :: multiset(xs)[x] <= 1 {
        assert forall x :: multiset(init)[x] <= 1 by {
          forall x ensures multiset(init)[x] <= 1 {
            assert multiset(init)[x] <= multiset(xs)[x];
          }
        }
        assert multiset(init)[last] == 0 by {
          assert multiset(xs)[last] <= 1;
        }
        DistinctConcat(init, [last]);
      }
    }
  }

  lemma {:induction false} RemoveFirstDistinct<T>(xs: seq<T>, x: T)
    requires Distinct(xs)
    ensures x !in RemoveFirst(xs, x)
    ensures forall y :: y != x ==> (y in RemoveFirst(xs, x) <==> y in xs)
  {
    if xs != [] {
      if xs[0] == x {
        assert forall k :: 0 <= k < |xs[1..]| ==> xs[1..][k] == xs[k + 1];
      } else {
        assert Distinct(xs[1..]) by {
          forall i, j | 0 <= i < j < |xs[1..]| ensures xs[1..][i] != xs[1..][j] {
            assert xs[1..][i] == xs[i + 1] && xs[1..][j] == xs[j + 1];
          }
        }
        RemoveFirstDistinct(xs[1..], x);
      }
    }
  }

  /** The positions from `lo` on whose elements satisfy `p`. */
  ghost function Positions<T>(xs: seq<T>, p: T -> bool, lo: nat): set<int>
  {
    set j | lo <= j < |xs| && p(xs[j])
  }

  /** The positions from `lo` on, within both lists, whose elements at the
      same position satisfy `p` together (the positions of `zip(xs, ys)`). */
  ghost function ZipPositions<T, U>(xs: seq<T>, ys: seq<U>, p: (T, U) -> bool, lo: nat): set<int>
  {
    set k | lo <= k < |xs| && k < |ys| && p(xs[k], ys[k])
  }

  /** The position pairs, with the first position from `lo` on, whose
      elements satisfy `p` together. */
  ghost function PairPositions<T, U>(xs: seq<T>, ys: seq<U>, p: (T, U) -> bool, lo: nat): set<(int, int)>
  {
    set i, j | lo <= i < |xs| && 0 <= j < |ys| && p(xs[i], ys[j]) :: (i, j)
  }

  /** The pairs whose first position is `i` and second position is from
      `lo` on. */
  ghost function RowPairs<T, U>(xs: seq<T>, ys: seq<U>, p: (T, U) -> bool, i: nat, lo: nat): set<(int, int)>
    requires i < |xs|
  {
    set j | lo <= j < |ys| && p(xs[i], ys[j]) :: (i, j)
  }

  /** `p` with its first argument fixed to `x`. */
  function Fix<T, U>(x: T, p: (T, U) -> bool): U -> bool
  {
    y => p(x, y)
  }

  /** Counting positions from `lo`: position `lo`, then the later ones. */
  lemma PositionsStep<T>(xs: seq<T>, p: T -> bool, lo: nat)
    requires lo < |xs|
    ensures |Positions(xs, p, lo)| == (if p(xs[lo]) then 1 else 0) + |Positions(xs, p, lo + 1)|
  {
    if p(xs[lo]) {
      assert Positions(xs, p, lo) == Positions(xs, p, lo + 1) + {lo};
    } else {
      assert Positions(xs, p, lo) == Positions(xs, p, lo + 1);
    }
  }

  lemma ZipPositionsStep<T, U>(xs: seq<T>, ys: seq<U>, p: (T, U) -> bool, lo: nat)
    requires lo < |xs| && lo < |ys|
    ensures |ZipPositions(xs, ys, p, lo)| == (if p(xs[lo], ys[lo]) then 1 else 0) + |ZipPositions(xs, ys, p, lo + 1)|
  {
    if p(xs[lo], ys[lo]) {
      assert ZipPositions(xs, ys, p, lo) == ZipPositions(xs, ys, p, lo + 1) + {lo};
    } else {
      assert ZipPositions(xs, ys, p, lo) == ZipPositions(xs, ys, p, lo + 1);
    }
  }

  /** The pairs of row `i` are as many as the positions matching `xs[i]`. */
  lemma {:induction false} RowPairsCount<T, U>(xs: seq<T>, ys: seq<U>, p: (T, U) -> bool, i: nat, lo: nat)
    requires i < |xs| && lo <= |ys|
    ensures |RowPairs(xs, ys, p, i, lo)| == |Positions(ys, Fix(xs[i], p), lo)|
    decreases |ys| - lo
  {
    if lo == |ys| {
      assert RowPairs(xs, ys, p, i, lo) == {};
      assert Positions(ys, Fix(xs[i], p), lo) == {};
    } else {
      RowPairsCount(xs, ys, p, i, lo + 1);
      PositionsStep(ys, Fix(xs[i], p), lo);
      if p(xs[i], ys[lo]) {
        assert RowPairs(xs, ys, p, i, lo) == RowPairs(xs, ys, p, i, lo + 1) + {(i, lo)};
      } else {
        assert RowPairs(xs, ys, p, i, lo) == RowPairs(xs, ys, p, i, lo + 1);
      }
    }
  }

  /** Counting pairs from `lo`: those of row `lo`, then the later rows. */
  lemma PairPositionsStep<T, U>(xs: seq<T>, ys: seq<U>, p: (T, U) -> bool, lo: nat)
    requires lo < |xs|
    ensures |PairPositions(xs, ys, p, lo)| == |Positions(ys, Fix(xs[lo], p), 0)| + |PairPositions(xs, ys, p, lo + 1)|
  {
    RowPairsCount(xs, ys, p, lo, 0);
    var row, rest := RowPairs(xs, ys, p, lo, 0), PairPositions(xs, ys, p, lo + 1);
    assert PairPositions(xs, ys, p, lo) == row + rest;
    assert row * rest == {};
  }
}
