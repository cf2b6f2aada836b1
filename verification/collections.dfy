/**
 Sequence helpers shared by the services: an optional value (the services'
 `null`), filtering, mapping, de-duplication in the manner of a JavaScript
 `Set`, and summation over a sequence.
 */
module Collections {

  /** A value that may be absent; `None` plays the role of JavaScript's `null`. */
  datatype Option<+T> = None | Some(value: T)

  /** No element occurs twice. */
  predicate NoDup<T(==)>(s: seq<T>) {
    forall i, j :: 0 <= i < j < |s| ==> s[i] != s[j]
  }

  /** The elements of `s` that satisfy `p`, in their original order. */
  function Filter<T(!new)>(s: seq<T>, p: T -> bool): (r: seq<T>)
    ensures forall x :: x in r <==> x in s && p(x)
    ensures |r| <= |s|
  {
    if s == [] then []
    else
      assert s == s[..|s| - 1] + [s[|s| - 1]];
      Filter(s[..|s| - 1], p) + (if p(s[|s| - 1]) then [s[|s| - 1]] else [])
  }

  /** Applies `f` to every element, keeping positions. */
  function Map<A, B>(s: seq<A>, f: A -> B): (r: seq<B>)
    ensures |r| == |s|
    ensures forall i :: 0 <= i < |s| ==> r[i] == f(s[i])
  {
    if s == [] then [] else [f(s[0])] + Map(s[1..], f)
  }

  /**
   The first occurrence of every element, in order of first occurrence:
   what `[...new Set(s)]` produces.
   */
  function Dedup<T(==,!new)>(s: seq<T>): (r: seq<T>)
    ensures NoDup(r)
    ensures forall x :: x in r <==> x in s
    ensures |r| <= |s|
  {
    if s == [] then []
    else
      assert s == s[..|s| - 1] + [s[|s| - 1]];
      var prefix := Dedup(s[..|s| - 1]);
      if s[|s| - 1] in prefix then prefix else prefix + [s[|s| - 1]]
  }

  /** De-duplicating a non-increasing sequence leaves a strictly decreasing one. */
  lemma {:induction false} DedupOfDescendingIsStrict(s: seq<int>)
    requires forall i, j :: 0 <= i < j < |s| ==> s[i] >= s[j]
    ensures forall i, j :: 0 <= i < j < |Dedup(s)| ==> Dedup(s)[i] > Dedup(s)[j]
  {
    if s != [] {
      var init := s[..|s| - 1];
      var last := s[|s| - 1];
      DedupOfDescendingIsStrict(init);
      var prefix := Dedup(init);
      if last !in prefix {
        forall i | 0 <= i < |prefix|
          ensures prefix[i] > last
        {
          assert prefix[i] in init;
          var k :| 0 <= k < |init| && init[k] == prefix[i];
          assert s[k] >= s[|s| - 1];
        }
      }
    }
  }

  /** The sum of `f` over the elements of `s`. */
  function SumBy<T>(s: seq<T>, f: T -> int): int {
    if s == [] then 0 else f(s[0]) + SumBy(s[1..], f)
  }

  /** Summation is linear in the summand. */
  lemma {:induction false} SumByAdd<T>(s: seq<T>, f: T -> int, g: T -> int, h: T -> int)
    requires forall x :: h(x) == f(x) + g(x)
    ensures SumBy(s, h) == SumBy(s, f) + SumBy(s, g)
  {
    if s != [] {
      SumByAdd(s[1..], f, g, h);
    }
  }

  /** A summand that vanishes on `s` sums to zero. */
  lemma {:induction false} SumByZero<T>(s: seq<T>, f: T -> int)
    requires forall x :: x in s ==> f(x) == 0
    ensures SumBy(s, f) == 0
  {
    if s != [] {
      SumByZero(s[1..], f);
    }
  }

  /**
   A summand that is non-zero only at `c` sums to its value at `c`, provided
   `c` occurs exactly once in `s`.
   */
  lemma {:induction false} SumBySingle<T>(s: seq<T>, f: T -> int, c: T)
    requires NoDup(s) && c in s
    requires forall x :: x != c ==> f(x) == 0
    ensures SumBy(s, f) == f(c)
  {
    if s[0] == c {
      assert forall x :: x in s[1..] ==> x != c by {
        forall x | x in s[1..] ensures x != c {
          var k :| 0 <= k < |s[1..]| && s[1..][k] == x;
          assert s[k + 1] == x;
        }
      }
      SumByZero(s[1..], f);
    } else {
      assert NoDup(s[1..]) by {
        forall i, j | 0 <= i < j < |s[1..]| ensures s[1..][i] != s[1..][j] {
          assert s[i + 1] != s[j + 1];
        }
      }
      SumBySingle(s[1..], f, c);
    }
  }

  /** The indices below `k` whose element satisfies `p`. */
  ghost function IndicesBelow<T>(s: seq<T>, p: T -> bool, k: nat): set<int>
    requires k <= |s|
  {
    set i | 0 <= i < k && p(s[i])
  }

  lemma IndicesBelowStep<T>(s: seq<T>, p: T -> bool, k: nat)
    requires 0 < k <= |s|
    ensures IndicesBelow(s, p, k) == IndicesBelow(s, p, k - 1) + (if p(s[k - 1]) then {k - 1} else {})
  {
  }

  lemma {:induction false} FilterPrefixSize<T(!new)>(s: seq<T>, p: T -> bool, k: nat)
    requires k <= |s|
    ensures |Filter(s[..k], p)| == |IndicesBelow(s, p, k)|
  {
    if k == 0 {
      assert IndicesBelow(s, p, k) == {};
    } else {
      FilterPrefixSize(s, p, k - 1);
      assert s[..k][..k - 1] == s[..k - 1];
      assert |Filter(s[..k], p)| == |Filter(s[..k - 1], p)| + (if p(s[k - 1]) then 1 else 0);
      IndicesBelowStep(s, p, k);
      assert k - 1 !in IndicesBelow(s, p, k - 1);
    }
  }

  /** The length of a filter is the number of indices whose element satisfies `p`. */
  lemma FilterSizeIsIndexCount<T(!new)>(s: seq<T>, p: T -> bool)
    ensures |Filter(s, p)| == |IndicesBelow(s, p, |s|)|
  {
    FilterPrefixSize(s, p, |s|);
    assert s[..|s|] == s;
  }

  /** Filtering a sequence without repetitions gives one without repetitions. */
  lemma {:induction false} FilterNoDup<T(!new)>(s: seq<T>, p: T -> bool)
    requires NoDup(s)
    ensures NoDup(Filter(s, p))
  {
    if s != [] {
      var n := |s| - 1;
      assert NoDup(s[..n]);
      FilterNoDup(s[..n], p);
      assert s[n] !in s[..n];
    }
  }

  /** Nothing survives a filter that no element passes. */
  lemma FilterNone<T(!new)>(s: seq<T>, p: T -> bool)
    requires forall x :: x in s ==> !p(x)
    ensures Filter(s, p) == []
  {
    if s != [] {
      FilterNone(s[..|s| - 1], p);
    }
  }

  /** Filtering a sequence extended at the end. */
  lemma FilterSnoc<T(!new)>(a: seq<T>, x: T, p: T -> bool)
    ensures Filter(a + [x], p) == Filter(a, p) + (if p(x) then [x] else [])
  {
    assert (a + [x])[..|a|] == a;
  }

  /** Filtering by `p` first changes nothing when `q` already implies `p`. */
  lemma {:induction false} FilterFilter<T(!new)>(s: seq<T>, p: T -> bool, q: T -> bool)
    requires forall x :: q(x) ==> p(x)
    ensures Filter(Filter(s, p), q) == Filter(s, q)
  {
    if s != [] {
      var n := |s| - 1;
      var init := s[..n];
      assert s == init + [s[n]];
      FilterFilter(init, p, q);
      FilterSnoc(init, s[n], p);
      FilterSnoc(init, s[n], q);
      if p(s[n]) {
        FilterSnoc(Filter(init, p), s[n], q);
        assert Filter(s, p) == Filter(init, p) + [s[n]];
      } else {
        assert !q(s[n]);
        assert Filter(s, p) == Filter(init, p);
        assert Filter(s, q) == Filter(init, q);
      }
    }
  }

  /** A filter keeps every element that passes, so it is non-empty when one does. */
  lemma FilterNonEmpty<T(!new)>(s: seq<T>, p: T -> bool, x: T)
    requires x in s && p(x)
    ensures |Filter(s, p)| > 0
  {
    assert x in Filter(s, p);
  }

  /** A filter keeps every passing element as often as it occurs, and no other. */
  lemma {:induction false} FilterMultiset<T(!new)>(s: seq<T>, p: T -> bool)
    ensures forall x :: multiset(Filter(s, p))[x] == if p(x) then multiset(s)[x] else 0
  {
    if s != [] {
      var n := |s| - 1;
      var init := s[..n];
      assert s == init + [s[n]];
      FilterSnoc(init, s[n], p);
      FilterMultiset(init, p);
    }
  }

  lemma MapConcat<A, B>(a: seq<A>, b: seq<A>, f: A -> B)
    ensures Map(a + b, f) == Map(a, f) + Map(b, f)
  {
  }

  /** Mapping two permutations of each other gives two permutations of each other. */
  lemma {:induction false} MapPermutation<A, B>(a: seq<A>, b: seq<A>, f: A -> B)
    requires multiset(a) == multiset(b)
    ensures multiset(Map(a, f)) == multiset(Map(b, f))
    decreases |a|
  {
    if a == [] {
      assert |b| == |multiset(b)| == 0;
    } else {
      var x := a[0];
      assert x in multiset(b);
      var j :| 0 <= j < |b| && b[j] == x;
      var rest := b[..j] + b[j + 1..];
      assert b == b[..j] + [x] + b[j + 1..];
      assert a == [x] + a[1..];
      calc {
        multiset(a[1..]) + multiset{x};
        multiset(a);
        multiset(b[..j]) + multiset{x} + multiset(b[j + 1..]);
        multiset(rest) + multiset{x};
      }
      assert multiset(a[1..]) == multiset(a[1..]) + multiset{x} - multiset{x};
      assert multiset(rest) == multiset(rest) + multiset{x} - multiset{x};
      MapPermutation(a[1..], rest, f);
      MapConcat([x], a[1..], f);
      MapConcat(b[..j] + [x], b[j + 1..], f);
      MapConcat(b[..j], [x], f);
      MapConcat(b[..j], b[j + 1..], f);
    }
  }

  /** The image of a prefix is a sub-multiset of the image of the whole. */
  lemma MapPrefix<A, B>(s: seq<A>, n: nat, f: A -> B)
    requires n <= |s|
    ensures multiset(Map(s[..n], f)) <= multiset(Map(s, f))
  {
    assert s == s[..n] + s[n..];
    MapConcat(s[..n], s[n..], f);
  }

  /** Replacing one element changes a sum by the difference of the summands. */
  lemma {:induction false} SumByUpdate<T>(s: seq<T>, k: nat, x: T, f: T -> int)
    requires k < |s|
    ensures SumBy(s[k := x], f) == SumBy(s, f) - f(s[k]) + f(x)
  {
    if k > 0 {
      SumByUpdate(s[1..], k - 1, x, f);
      assert s[k := x][1..] == s[1..][k - 1 := x];
    }
  }

  /** The position of the first element satisfying `p`: a `findOne` in store order. */
  function FirstMatch<T(!new)>(s: seq<T>, p: T -> bool): (r: Option<nat>)
    ensures r.None? <==> forall x :: x in s ==> !p(x)
    ensures r.Some? ==> r.value < |s| && p(s[r.value])
    ensures r.Some? ==> forall j :: 0 <= j < r.value ==> !p(s[j])
  {
    if s == [] then None
    else if p(s[0]) then Some(0)
    else
      var rest := FirstMatch(s[1..], p);
      assert forall x :: x in s ==> x == s[0] || x in s[1..];
      if rest.None? then None else Some(rest.value + 1)
  }
}
