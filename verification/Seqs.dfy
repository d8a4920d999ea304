/**
 * Order-preserving list combinators (Kotlin's `filter`, `map`, `mapNotNull`, `count`)
 * with the facts about them that the rest of the model relies on.
 */
module Seqs {
  import opened Wrappers

  /** `a` can be obtained from `b` by deleting elements: the elements of `a` occur in `b` in the same order. */
  predicate IsSubseq<T(==)>(a: seq<T>, b: seq<T>)
    decreases |b|
  {
    if |a| == 0 then true
    else if |b| == 0 then false
    else (a[0] == b[0] && IsSubseq(a[1..], b[1..])) || IsSubseq(a, b[1..])
  }

  /** Kotlin's `filter`: the elements satisfying `p`, in their original order. */
  function Filter<T(==,!new)>(s: seq<T>, p: T -> bool): (r: seq<T>)
    ensures IsSubseq(r, s)
    ensures forall x :: x in r <==> x in s && p(x)
    ensures |r| == Count(s, p)
    decreases |s|
  {
    if |s| == 0 then []
    else if p(s[0]) then [s[0]] + Filter(s[1..], p)
    else Filter(s[1..], p)
  }

  /** Kotlin's `count { p }`: the number of elements satisfying `p`. */
  function Count<T>(s: seq<T>, p: T -> bool): (n: nat)
    ensures n <= |s|
    decreases |s|
  {
    if |s| == 0 then 0
    else (if p(s[0]) then 1 else 0) + Count(s[1..], p)
  }

  /** Kotlin's `map`. */
  function Map<T, U>(f: T -> U, s: seq<T>): (r: seq<U>)
    ensures |r| == |s|
    ensures forall i :: 0 <= i < |s| ==> r[i] == f(s[i])
  {
    seq(|s|, i requires 0 <= i < |s| => f(s[i]))
  }

  /** Kotlin's `mapNotNull`: apply `f` and keep the present results, in order. */
  function MapNotNull<T, U(==,!new)>(s: seq<T>, f: T -> Option<U>): (r: seq<U>)
    ensures |r| == Count(s, x => f(x).Some?)
    ensures forall y :: y in r <==> exists i :: 0 <= i < |s| && f(s[i]) == Some(y)
    decreases |s|
  {
    if |s| == 0 then []
    else
      var rest := MapNotNull(s[1..], f);
      assert forall i :: 0 < i < |s| ==> s[i] == s[1..][i - 1];
      match f(s[0])
      case Some(y) =>
        assert forall z :: z in [y] + rest <==> z == y || z in rest;
        [y] + rest
      case None => rest
  }

  /** Subsequence is transitive. */
  lemma {:induction false} SubseqTransitive<T>(a: seq<T>, b: seq<T>, c: seq<T>)
    requires IsSubseq(a, b) && IsSubseq(b, c)
    ensures IsSubseq(a, c)
    decreases |c|
  {
    if |a| == 0 {
    } else if b[0] == c[0] && IsSubseq(b[1..], c[1..]) {
      if a[0] == b[0] && IsSubseq(a[1..], b[1..]) {
        SubseqTransitive(a[1..], b[1..], c[1..]);
      } else {
        SubseqTransitive(a, b[1..], c[1..]);
      }
    } else {
      SubseqTransitive(a, b, c[1..]);
    }
  }

  /** Mapping both lists keeps the subsequence relation. */
  lemma {:induction false} SubseqMap<T, U>(f: T -> U, a: seq<T>, b: seq<T>)
    requires IsSubseq(a, b)
    ensures IsSubseq(Map(f, a), Map(f, b))
    decreases |b|
  {
    if |a| == 0 {
    } else if a[0] == b[0] && IsSubseq(a[1..], b[1..]) {
      SubseqMap(f, a[1..], b[1..]);
      assert Map(f, a)[1..] == Map(f, a[1..]);
      assert Map(f, b)[1..] == Map(f, b[1..]);
    } else {
      SubseqMap(f, a, b[1..]);
      assert Map(f, b)[1..] == Map(f, b[1..]);
    }
  }

  /** Filtering a list extended at the end: how a loop building the filter result proceeds. */
  lemma {:induction false} FilterSnoc<T(!new)>(s: seq<T>, x: T, p: T -> bool)
    ensures Filter(s + [x], p) == Filter(s, p) + (if p(x) then [x] else [])
    decreases |s|
  {
    if |s| == 0 {
      assert s + [x] == [x];
      assert [x][1..] == [];
    } else {
      assert (s + [x])[1..] == s[1..] + [x];
      FilterSnoc(s[1..], x, p);
    }
  }

  /** A filter that rejects nothing returns its input. */
  lemma {:induction false} FilterKeepsAll<T(!new)>(s: seq<T>, p: T -> bool)
    requires forall x :: x in s ==> p(x)
    ensures Filter(s, p) == s
    decreases |s|
  {
    if |s| > 0 {
      assert forall x :: x in s[1..] ==> x in s;
      FilterKeepsAll(s[1..], p);
    }
  }

  /** A count whose predicate holds of no element is zero. */
  lemma {:induction false} CountNone<T>(s: seq<T>, p: T -> bool)
    requires forall x :: x in s ==> !p(x)
    ensures Count(s, p) == 0
    decreases |s|
  {
    if |s| > 0 {
      assert forall x :: x in s[1..] ==> x in s;
      CountNone(s[1..], p);
    }
  }

  /** A count whose predicate holds of every element is the length. */
  lemma {:induction false} CountAll<T>(s: seq<T>, p: T -> bool)
    requires forall x :: x in s ==> p(x)
    ensures Count(s, p) == |s|
    decreases |s|
  {
    if |s| > 0 {
      assert forall x :: x in s[1..] ==> x in s;
      CountAll(s[1..], p);
    }
  }

  /** Counting a predicate and its negation partitions the list. */
  lemma {:induction false} CountComplement<T>(s: seq<T>, p: T -> bool, q: T -> bool)
    requires forall x :: q(x) == !p(x)
    ensures Count(s, p) + Count(s, q) == |s|
    decreases |s|
  {
    if |s| > 0 {
      CountComplement(s[1..], p, q);
    }
  }

  /** Counting a stronger predicate gives a smaller number. */
  lemma {:induction false} CountMonotonic<T>(s: seq<T>, p: T -> bool, q: T -> bool)
    requires forall x :: p(x) ==> q(x)
    ensures Count(s, p) <= Count(s, q)
    decreases |s|
  {
    if |s| > 0 {
      CountMonotonic(s[1..], p, q);
    }
  }

  /** The set of a list's elements has at most as many members as the list has positions. */
  lemma {:induction false} ElementsCardinality<T>(s: seq<T>)
    ensures |(set x | x in s)| <= |s|
    decreases |s|
  {
    if |s| > 0 {
      ElementsCardinality(s[1..]);
      assert (set x | x in s) == {s[0]} + (set x | x in s[1..]);
    }
  }

  /** Counting over a mapped list is counting the composed predicate over the original. */
  lemma {:induction false} CountMap<T, U>(f: T -> U, s: seq<T>, p: U -> bool, q: T -> bool)
    requires forall x :: p(f(x)) == q(x)
    ensures Count(Map(f, s), p) == Count(s, q)
    decreases |s|
  {
    if |s| > 0 {
      assert Map(f, s)[1..] == Map(f, s[1..]);
      CountMap(f, s[1..], p, q);
    }
  }

  /** The positions of `s` whose element satisfies `p`. */
  function Positions<T>(s: seq<T>, p: T -> bool): set<nat> {
    set i: nat | i < |s| && p(s[i])
  }

  /** Counting a list extended at the end. */
  lemma CountSnoc<T(!new)>(s: seq<T>, x: T, p: T -> bool)
    ensures Count(s + [x], p) == Count(s, p) + (if p(x) then 1 else 0)
  {
    FilterSnoc(s, x, p);
  }

  /** The positions of a list extended at the end. */
  lemma PositionsSnoc<T>(s: seq<T>, x: T, p: T -> bool)
    ensures Positions(s + [x], p) == Positions(s, p) + (if p(x) then {|s|} else {})
  {
    var t := s + [x];
    assert forall i: nat :: i < |s| ==> t[i] == s[i];
  }

  /** `Count` is the number of positions whose element satisfies the predicate. */
  lemma {:induction false} CountIsPositions<T(!new)>(s: seq<T>, p: T -> bool)
    ensures Count(s, p) == |Positions(s, p)|
    decreases |s|
  {
    if |s| > 0 {
      var n := |s| - 1;
      var init := s[..n];
      assert s == init + [s[n]];
      CountIsPositions(init, p);
      CountSnoc(init, s[n], p);
      PositionsSnoc(init, s[n], p);
      assert n !in Positions(init, p);
    }
  }

  /** A count is zero exactly when no position satisfies the predicate. */
  lemma CountZeroIff<T(!new)>(s: seq<T>, p: T -> bool)
    ensures Count(s, p) == 0 <==> forall i :: 0 <= i < |s| ==> !p(s[i])
  {
    CountIsPositions(s, p);
    if exists i :: 0 <= i < |s| && p(s[i]) {
      var i :| 0 <= i < |s| && p(s[i]);
      assert i in Positions(s, p);
    } else {
      assert Positions(s, p) == {};
    }
  }

  /** A property of the head and of the first `k` elements of the tail holds of the first `k + 1` elements. */
  lemma PrefixAfterHead<T>(s: seq<T>, ok: T -> bool, k: nat)
    requires k < |s| && ok(s[0])
    requires forall j :: 0 <= j < k ==> ok(s[1..][j])
    ensures forall j :: 0 <= j < k + 1 ==> ok(s[j])
  {
    assert forall j :: 0 < j < |s| ==> s[j] == s[1..][j - 1];
  }

  /** Taking one more element of a list appends that element. */
  lemma TakeOneMore<T>(s: seq<T>, i: nat)
    requires i < |s|
    ensures s[..i + 1] == s[..i] + [s[i]]
  {
  }
}
