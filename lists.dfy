/**
 * `Array.prototype.filter` and the order facts the pages rely on: a filtered
 * list keeps exactly the elements that pass, in their original order.
 */
module Lists {

  /** `xs.filter(p)`. */
  function Filter<T(==,!new)>(xs: seq<T>, p: T -> bool): (r: seq<T>)
    ensures |r| <= |xs|
    ensures forall x :: x in r <==> x in xs && p(x)
  {
    if xs == [] then []
    else if p(xs[0]) then [xs[0]] + Filter(xs[1..], p)
    else Filter(xs[1..], p)
  }

  /** `r` is `xs` with some elements left out and the rest in order. */
  predicate IsSubsequence<T(==,!new)>(r: seq<T>, xs: seq<T>)
    decreases |xs|
  {
    if r == [] then true
    else if xs == [] then false
    else if r[0] == xs[0] then IsSubsequence(r[1..], xs[1..])
    else IsSubsequence(r, xs[1..])
  }

  /** No element occurs twice. */
  predicate Distinct<T(==,!new)>(xs: seq<T>) {
    forall i, j :: 0 <= i < j < |xs| ==> xs[i] != xs[j]
  }

  /** A non-empty list is its front followed by its last element. */
  lemma InitLast<T>(xs: seq<T>)
    requires xs != []
    ensures xs == xs[..|xs| - 1] + [xs[|xs| - 1]]
  {
  }

  /** A non-empty list is its head followed by its tail. */
  lemma HeadTail<T>(xs: seq<T>)
    requires xs != []
    ensures xs == [xs[0]] + xs[1..]
  {
  }

  /** Filtering keeps the surviving elements in their order. */
  lemma {:induction false} FilterIsSubsequence<T(!new)>(xs: seq<T>, p: T -> bool)
    ensures IsSubsequence(Filter(xs, p), xs)
    decreases |xs|
  {
    if xs != [] {
      FilterIsSubsequence(xs[1..], p);
      var r := Filter(xs, p);
      if p(xs[0]) {
        assert r[0] == xs[0] && r[1..] == Filter(xs[1..], p);
      } else if r != [] && r[0] == xs[0] {
        SkippedHeadStillSubsequence(r, xs);
      }
    }
  }

  /** When the head of `xs` fails the test but equals the head of the
      filtered rest, the rest still fits inside `xs` past its head. */
  lemma SkippedHeadStillSubsequence<T(!new)>(r: seq<T>, xs: seq<T>)
    requires xs != [] && r != [] && r[0] == xs[0]
    requires IsSubsequence(r, xs[1..])
    ensures IsSubsequence(r, xs)
  {
    SubsequenceDropHead(r, xs[1..]);
  }

  /** A subsequence stays one when its first element is dropped. */
  lemma {:induction false} SubsequenceDropHead<T(!new)>(r: seq<T>, xs: seq<T>)
    requires r != [] && IsSubsequence(r, xs)
    ensures IsSubsequence(r[1..], xs)
    decreases |xs|, 1
  {
    if xs != [] {
      if r[0] == xs[0] {
        SubsequenceWiden(r[1..], xs[1..], xs);
      } else {
        SubsequenceDropHead(r, xs[1..]);
        SubsequenceWiden(r[1..], xs[1..], xs);
      }
    }
  }

  /** A subsequence of the tail of `xs` is a subsequence of `xs`. */
  lemma {:induction false} SubsequenceWiden<T(!new)>(r: seq<T>, tail: seq<T>, xs: seq<T>)
    requires xs != [] && tail == xs[1..] && IsSubsequence(r, tail)
    ensures IsSubsequence(r, xs)
    decreases |xs|, 0
  {
    if r != [] && r[0] == xs[0] {
      SubsequenceDropHead(r, tail);
    }
  }

  /** When every element passes, filtering changes nothing. */
  lemma {:induction false} FilterKeepsAll<T(!new)>(xs: seq<T>, p: T -> bool)
    requires forall x :: x in xs ==> p(x)
    ensures Filter(xs, p) == xs
    decreases |xs|
  {
    if xs != [] {
      assert xs[0] in xs;
      assert forall x :: x in xs[1..] ==> x in xs;
      FilterKeepsAll(xs[1..], p);
      assert [xs[0]] + xs[1..] == xs;
    }
  }

  /** When no element passes, nothing is left. */
  lemma {:induction false} FilterKeepsNone<T(!new)>(xs: seq<T>, p: T -> bool)
    requires forall x :: x in xs ==> !p(x)
    ensures Filter(xs, p) == []
    decreases |xs|
  {
    if xs != [] {
      assert xs[0] in xs;
      assert forall x :: x in xs[1..] ==> x in xs;
      FilterKeepsNone(xs[1..], p);
    }
  }

  /** The filtered list is shorter exactly when some element fails the test. */
  lemma {:induction false} FilterShorterIff<T(!new)>(xs: seq<T>, p: T -> bool)
    ensures |Filter(xs, p)| < |xs| <==> exists x :: x in xs && !p(x)
    decreases |xs|
  {
    if xs != [] {
      FilterShorterIff(xs[1..], p);
      assert forall x :: x in xs <==> x == xs[0] || x in xs[1..];
    }
  }

  /** Filtering keeps every copy of an element that passes and no copy of
      one that fails. */
  lemma {:induction false} FilterCounts<T(!new)>(xs: seq<T>, p: T -> bool)
    ensures forall x :: multiset(Filter(xs, p))[x] == if p(x) then multiset(xs)[x] else 0
    decreases |xs|
  {
    if xs != [] {
      FilterCounts(xs[1..], p);
      HeadTail(xs);
      assert multiset(xs) == multiset([xs[0]]) + multiset(xs[1..]);
      if p(xs[0]) {
        assert Filter(xs, p) == [xs[0]] + Filter(xs[1..], p);
        assert multiset(Filter(xs, p)) == multiset([xs[0]]) + multiset(Filter(xs[1..], p));
      }
    }
  }

  /** Filtering a concatenation filters each part. */
  lemma {:induction false} FilterAppend<T(!new)>(a: seq<T>, b: seq<T>, p: T -> bool)
    ensures Filter(a + b, p) == Filter(a, p) + Filter(b, p)
    decreases |a|
  {
    if a != [] {
      assert (a + b)[1..] == a[1..] + b;
      FilterAppend(a[1..], b, p);
    } else {
      assert a + b == b;
    }
  }

  /** Putting the same head in front of two lists whose filtered forms
      differ by a suffix keeps that difference. */
  lemma FilterConsStep<T(!new)>(h: T, tail: seq<T>, rest: seq<T>, p: T -> bool, extra: seq<T>)
    requires Filter(rest, p) == Filter(tail, p) + extra
    ensures Filter([h] + rest, p) == Filter([h] + tail, p) + extra
  {
    FilterAppend([h], rest, p);
    FilterAppend([h], tail, p);
    AppendAssoc(Filter([h], p), Filter(tail, p), extra);
  }

  lemma AppendAssoc<T>(a: seq<T>, b: seq<T>, c: seq<T>)
    ensures a + (b + c) == (a + b) + c
  {
  }

  /** Filtering a list without repetitions leaves one without repetitions. */
  lemma {:induction false} FilterDistinct<T(!new)>(xs: seq<T>, p: T -> bool)
    requires Distinct(xs)
    ensures Distinct(Filter(xs, p))
    decreases |xs|
  {
    if xs != [] {
      var rest := Filter(xs[1..], p);
      FilterDistinct(xs[1..], p);
      if p(xs[0]) {
        assert xs[0] !in xs[1..];
        assert xs[0] !in rest;
        ConsDistinct(xs[0], rest);
      }
    }
  }

  /** Putting a new element in front of a list without repetitions. */
  lemma ConsDistinct<T(!new)>(x: T, r: seq<T>)
    requires Distinct(r) && x !in r
    ensures Distinct([x] + r)
  {
    var s := [x] + r;
    forall i, j | 0 <= i < j < |s| ensures s[i] != s[j] {
      if i == 0 {
        assert s[j] == r[j - 1];
      } else {
        assert s[i] == r[i - 1] && s[j] == r[j - 1];
      }
    }
  }
}
