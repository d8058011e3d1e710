/**
 * The array operations the source builds its derivations from: `filter`,
 * `find`, `Array.from(new Set(...))` and `indexOf`, with the facts
 * about them that the rest of the model uses.
 */
module Seqs {
  import opened Wrappers

  /** `xs.filter(p)`. */
  function Filter<T>(xs: seq<T>, p: T -> bool): (r: seq<T>)
    ensures |r| <= |xs|
  {
    if xs == [] then [] else (if p(xs[0]) then [xs[0]] else []) + Filter(xs[1..], p)
  }

  /** `a` can be obtained from `b` by deleting elements: the relative order of what is kept is that of `b`. */
  predicate IsSubsequence<T(==)>(a: seq<T>, b: seq<T>)
    decreases |b|
  {
    a == [] || (b != [] && if a[0] == b[0] then IsSubsequence(a[1..], b[1..]) else IsSubsequence(a, b[1..]))
  }

  /** What `filter` keeps is exactly the elements that pass the test. */
  lemma {:induction false} FilterMembers<T>(xs: seq<T>, p: T -> bool, x: T)
    ensures x in Filter(xs, p) <==> x in xs && p(x)
  {
    if xs != [] {
      FilterMembers(xs[1..], p, x);
      assert xs == [xs[0]] + xs[1..];
    }
  }

  /** `filter` keeps each passing element as often as it occurs, and drops every other one. */
  lemma {:induction false} FilterCounts<T>(xs: seq<T>, p: T -> bool, x: T)
    ensures multiset(Filter(xs, p))[x] == if p(x) then multiset(xs)[x] else 0
  {
    if xs != [] {
      FilterCounts(xs[1..], p, x);
      assert xs == [xs[0]] + xs[1..];
    }
  }

  /** `filter` never reorders: its result is a subsequence of its input. */
  lemma {:induction false} FilterIsSubsequence<T>(xs: seq<T>, p: T -> bool)
    ensures IsSubsequence(Filter(xs, p), xs)
  {
    if xs != [] {
      FilterIsSubsequence(xs[1..], p);
      if p(xs[0]) {
        assert Filter(xs, p) == [xs[0]] + Filter(xs[1..], p);
      } else {
        assert Filter(xs, p) == Filter(xs[1..], p);
        SubsequenceOfTail(Filter(xs[1..], p), xs);
      }
    }
  }

  lemma {:induction false} SubsequenceOfTail<T>(a: seq<T>, b: seq<T>)
    requires b != [] && IsSubsequence(a, b[1..])
    ensures IsSubsequence(a, b)
    decreases |b|, 0
  {
    if a != [] && a[0] == b[0] {
      SubsequenceDropHead(a, b[1..]);
    }
  }

  lemma {:induction false} SubsequenceDropHead<T>(a: seq<T>, b: seq<T>)
    requires a != [] && IsSubsequence(a, b)
    ensures IsSubsequence(a[1..], b)
    decreases |b|, 1
  {
    if a[0] != b[0] {
      SubsequenceDropHead(a, b[1..]);
    }
    SubsequenceOfTail(a[1..], b);
  }

  /** A test every element passes keeps the whole sequence. */
  lemma {:induction false} FilterKeepsAll<T>(xs: seq<T>, p: T -> bool)
    requires forall i :: 0 <= i < |xs| ==> p(xs[i])
    ensures Filter(xs, p) == xs
  {
    if xs != [] {
      FilterKeepsAll(xs[1..], p);
    }
  }

  lemma {:induction false} FilterAppend<T>(a: seq<T>, b: seq<T>, p: T -> bool)
    ensures Filter(a + b, p) == Filter(a, p) + Filter(b, p)
  {
    if a != [] {
      assert (a + b)[1..] == a[1..] + b;
      FilterAppend(a[1..], b, p);
    } else {
      assert a + b == b;
    }
  }

  /** `xs.filter((y) => y !== x)`: every occurrence of `x` removed. */
  lemma {:induction false} FilterDropsAll<T>(xs: seq<T>, p: T -> bool)
    requires forall i :: 0 <= i < |xs| ==> !p(xs[i])
    ensures Filter(xs, p) == []
  {
    if xs != [] {
      FilterDropsAll(xs[1..], p);
    }
  }

  /** Filtering twice by the same predicate filters once. */
  lemma FilterTwice<T>(xs: seq<T>, p: T -> bool)
    ensures Filter(Filter(xs, p), p) == Filter(xs, p)
  {
    var r := Filter(xs, p);
    forall i | 0 <= i < |r| ensures p(r[i]) {
      FilterMembers(xs, p, r[i]);
    }
    FilterKeepsAll(r, p);
  }

  /** `xs` with every element satisfying `p` replaced by `x`. */
  function ReplaceWhere<T>(xs: seq<T>, p: T -> bool, x: T): (r: seq<T>)
    ensures |r| == |xs| && forall i :: 0 <= i < |xs| ==> r[i] == if p(xs[i]) then x else xs[i]
  {
    seq(|xs|, i requires 0 <= i < |xs| => if p(xs[i]) then x else xs[i])
  }

  function Without<T(==)>(xs: seq<T>, x: T): seq<T> {
    Filter(xs, y => y != x)
  }

  /** Removing deletes every occurrence of `x`, keeps every other element as often as it occurred and in its order. */
  lemma WithoutSpec<T>(xs: seq<T>, x: T)
    ensures x !in Without(xs, x)
    ensures forall y :: y != x ==> multiset(Without(xs, x))[y] == multiset(xs)[y]
    ensures IsSubsequence(Without(xs, x), xs)
  {
    FilterMembers(xs, y => y != x, x);
    forall y | y != x ensures multiset(Without(xs, x))[y] == multiset(xs)[y] {
      FilterCounts(xs, z => z != x, y);
    }
    FilterIsSubsequence(xs, y => y != x);
  }

  /** Appending `x` and then removing it is the same as removing it; nothing to remove leaves the sequence as it was. */
  lemma WithoutAppended<T>(xs: seq<T>, x: T)
    ensures Without(xs + [x], x) == Without(xs, x)
    ensures x !in xs ==> Without(xs, x) == xs
  {
    FilterAppend(xs, [x], y => y != x);
    assert Filter([x], y => y != x) == [];
    if x !in xs {
      FilterKeepsAll(xs, y => y != x);
    }
  }

  predicate NoDuplicates<T(==)>(xs: seq<T>) {
    forall i, j :: 0 <= i < j < |xs| ==> xs[i] != xs[j]
  }

  /** Filtering a sequence without repeats gives one without repeats. */
  lemma {:induction false} FilterKeepsNoDuplicates<T>(xs: seq<T>, p: T -> bool)
    requires NoDuplicates(xs)
    ensures NoDuplicates(Filter(xs, p))
  {
    if xs != [] {
      assert NoDuplicates(xs[1..]) by {
        forall i, j | 0 <= i < j < |xs[1..]| ensures xs[1..][i] != xs[1..][j] {
          assert xs[1..][i] == xs[i + 1] && xs[1..][j] == xs[j + 1];
        }
      }
      FilterKeepsNoDuplicates(xs[1..], p);
      var rest := Filter(xs[1..], p);
      if p(xs[0]) {
        FilterMembers(xs[1..], p, xs[0]);
        assert xs[0] !in xs[1..] by {
          forall j | 0 <= j < |xs[1..]| ensures xs[1..][j] != xs[0] {
            assert xs[1..][j] == xs[j + 1];
          }
        }
        assert Filter(xs, p) == [xs[0]] + rest;
        forall i, j | 0 <= i < j < |Filter(xs, p)| ensures Filter(xs, p)[i] != Filter(xs, p)[j] {
          if i == 0 {
            assert Filter(xs, p)[j] == rest[j - 1] && rest[j - 1] in rest;
          } else {
            assert Filter(xs, p)[i] == rest[i - 1] && Filter(xs, p)[j] == rest[j - 1];
          }
        }
      } else {
        assert Filter(xs, p) == rest;
      }
    }
  }

  lemma WithoutKeepsNoDuplicates<T>(xs: seq<T>, x: T)
    requires NoDuplicates(xs)
    ensures NoDuplicates(Without(xs, x))
  {
    FilterKeepsNoDuplicates(xs, y => y != x);
  }

  /** `xs.indexOf(x)` for a present `x`: the position of its first occurrence. */
  function IndexOf<T(==)>(xs: seq<T>, x: T): (i: nat)
    requires x in xs
    ensures i < |xs| && xs[i] == x && x !in xs[..i]
  {
    if xs[0] == x then 0 else 1 + IndexOf(xs[1..], x)
  }

  /** The first occurrence of an element of a prefix is found within that prefix. */
  lemma IndexOfPrefix<T>(xs: seq<T>, n: nat, x: T)
    requires n <= |xs| && x in xs[..n]
    ensures IndexOf(xs, x) == IndexOf(xs[..n], x)
  {
    var i := IndexOf(xs[..n], x);
    assert xs[..n][..i] == xs[..i];
  }

  /**
   * `Array.from(new Set(xs))`: each distinct element once, in the order of
   * its first occurrence.
   */
  function Dedup<T(==)>(xs: seq<T>): (r: seq<T>)
    ensures forall x <- xs :: x in r
    ensures forall x <- r :: x in xs
    ensures NoDuplicates(r)
  {
    if xs == [] then []
    else
      var d := Dedup(xs[..|xs| - 1]);
      var last := xs[|xs| - 1];
      assert xs == xs[..|xs| - 1] + [last];
      if last in d then d else d + [last]
  }

  /** Distinct elements keep the order of their first occurrences in the input. */
  lemma {:induction false} DedupFirstOccurrenceOrder<T>(xs: seq<T>, i: int, j: int)
    requires 0 <= i < j < |Dedup(xs)|
    ensures IndexOf(xs, Dedup(xs)[i]) < IndexOf(xs, Dedup(xs)[j])
    decreases |xs|
  {
    var n := |xs| - 1;
    var front := xs[..n];
    var d := Dedup(front);
    var last := xs[n];
    assert xs == front + [last];
    assert d[i] in front by { assert d[i] in d; }
    IndexOfPrefix(xs, n, d[i]);
    if j < |d| {
      DedupFirstOccurrenceOrder(front, i, j);
      assert d[j] in front by { assert d[j] in d; }
      IndexOfPrefix(xs, n, d[j]);
    } else {
      assert last !in d && Dedup(xs)[j] == last;
      assert last !in front;
      assert IndexOf(xs, last) == n;
    }
  }

  /** `xs.find(p)`: the first element that passes the test, if there is one. */
  function Find<T>(xs: seq<T>, p: T -> bool): (r: Option<T>)
    ensures r.None? <==> forall i :: 0 <= i < |xs| ==> !p(xs[i])
    ensures r.Some? ==> exists i :: (0 <= i < |xs| && xs[i] == r.value && p(xs[i])
      && forall k :: 0 <= k < i ==> !p(xs[k]))
  {
    if xs == [] then None
    else if p(xs[0]) then Some(xs[0])
    else
      var r := Find(xs[1..], p);
      assert forall k :: 1 <= k < |xs| ==> xs[k] == xs[1..][k - 1];
      r
  }

  /** Tests that agree on every element keep the same elements. */
  lemma {:induction false} FilterCongruent<T>(xs: seq<T>, p: T -> bool, q: T -> bool)
    requires forall x <- xs :: p(x) == q(x)
    ensures Filter(xs, p) == Filter(xs, q)
  {
    if xs != [] {
      assert xs == [xs[0]] + xs[1..];
      FilterCongruent(xs[1..], p, q);
    }
  }

  /** Without repeats, what a filter keeps is as long as the set of elements that pass. */
  lemma {:induction false} FilterSize<T>(xs: seq<T>, p: T -> bool)
    requires NoDuplicates(xs)
    ensures |Filter(xs, p)| == |set x | x in xs && p(x)|
  {
    if xs != [] {
      var tail := xs[1..];
      assert NoDuplicates(tail) by {
        forall i, j | 0 <= i < j < |tail| ensures tail[i] != tail[j] {
          assert tail[i] == xs[i + 1] && tail[j] == xs[j + 1];
        }
      }
      assert xs[0] !in tail by {
        forall j | 0 <= j < |tail| ensures tail[j] != xs[0] {
          assert tail[j] == xs[j + 1];
        }
      }
      FilterSize(tail, p);
      KeptSetSplit(xs, p);
    }
  }

  /** The kept elements of a non-empty sequence: its head if kept, and those of its tail. */
  lemma KeptSetSplit<T>(xs: seq<T>, p: T -> bool)
    requires xs != []
    ensures (set x | x in xs && p(x)) == (if p(xs[0]) then {xs[0]} else {}) + (set x | x in xs[1..] && p(x))
  {
    assert xs == [xs[0]] + xs[1..];
  }

  /** A function that tells the elements of a set apart maps it onto a set of the same size. */
  lemma {:induction false} InjectiveImageSize<A, B>(s: set<A>, f: A -> B)
    requires forall x, y :: x in s && y in s && f(x) == f(y) ==> x == y
    ensures |set x | x in s :: f(x)| == |s|
  {
    if s != {} {
      var x :| x in s;
      var rest := s - {x};
      InjectiveImageSize(rest, f);
      assert (set y | y in s :: f(y)) == (set y | y in rest :: f(y)) + {f(x)};
      assert f(x) !in (set y | y in rest :: f(y));
    }
  }

  /**
   * Two filters keep equally many elements when `f` matches what the first
   * keeps one to one with what the second keeps (both inputs without repeats).
   */
  lemma FilterSizesMatch<A, B>(xs: seq<A>, p: A -> bool, ys: seq<B>, q: B -> bool, f: A -> B)
    requires NoDuplicates(xs) && NoDuplicates(ys)
    requires forall x, y :: x in xs && y in xs && p(x) && p(y) && f(x) == f(y) ==> x == y
    requires forall x :: x in xs && p(x) ==> f(x) in ys && q(f(x))
    requires forall y :: y in ys && q(y) ==> exists x :: x in xs && p(x) && f(x) == y
    ensures |Filter(xs, p)| == |Filter(ys, q)|
  {
    FilterSize(xs, p);
    FilterSize(ys, q);
    var kept := set x | x in xs && p(x);
    InjectiveImageSize(kept, f);
    assert (set x | x in kept :: f(x)) == (set y | y in ys && q(y));
  }
}
