/**
 * Finite-sequence models of the System.Linq operators the refactorings are
 * written with. An `IEnumerable<T>` that is enumerated once becomes a `seq<T>`
 * and a `Func<T, bool>` a total function.
 */
module Linq {

  /** `source.Where(p)`: the elements that satisfy `p`, in their original order. */
  function Where<T>(s: seq<T>, p: T -> bool): (r: seq<T>)
    ensures |r| <= |s|
    ensures forall i :: 0 <= i < |r| ==> p(r[i])
  {
    if s == [] then []
    else if p(s[0]) then [s[0]] + Where(s[1..], p)
    else Where(s[1..], p)
  }

  /** `source.Count(p)`, computed element by element. */
  function Count<T>(s: seq<T>, p: T -> bool): (n: nat)
    ensures n == |Where(s, p)|
  {
    if s == [] then 0 else (if p(s[0]) then 1 else 0) + Count(s[1..], p)
  }

  /** `source.Any(p)`. */
  predicate Any<T>(s: seq<T>, p: T -> bool) {
    exists i :: 0 <= i < |s| && p(s[i])
  }

  /** `r` is obtained from `s` by deleting elements, keeping the relative order of the rest. */
  ghost predicate IsSubsequence<T>(r: seq<T>, s: seq<T>)
    decreases |s|
  {
    |r| <= |s| &&
    (r == [] || (r[0] == s[0] && IsSubsequence(r[1..], s[1..])) || IsSubsequence(r, s[1..]))
  }

  lemma {:induction false} SubsequenceReflexive<T>(s: seq<T>)
    ensures IsSubsequence(s, s)
  {
    if s != [] {
      SubsequenceReflexive(s[1..]);
    }
  }

  lemma {:induction false} WhereIsSubsequence<T>(s: seq<T>, p: T -> bool)
    ensures IsSubsequence(Where(s, p), s)
  {
    if s != [] {
      WhereIsSubsequence(s[1..], p);
      if p(s[0]) {
        assert Where(s, p)[1..] == Where(s[1..], p);
      }
    }
  }

  /** An element is kept by `Where` exactly when it occurs in the source and satisfies the predicate. */
  lemma {:induction false} WhereMembership<T>(s: seq<T>, p: T -> bool, x: T)
    ensures x in Where(s, p) <==> x in s && p(x)
  {
    if s != [] {
      WhereMembership(s[1..], p, x);
      assert s == [s[0]] + s[1..];
    }
  }

  /** `Where` keeps every copy of an element that satisfies the predicate and no copy of one that does not. */
  lemma {:induction false} WhereCount<T>(s: seq<T>, p: T -> bool, x: T)
    ensures multiset(Where(s, p))[x] == if p(x) then multiset(s)[x] else 0
  {
    if s != [] {
      WhereCount(s[1..], p, x);
      assert s == [s[0]] + s[1..];
    }
  }

  /** `Where` keeps a sequence whose elements all satisfy the predicate unchanged. */
  lemma {:induction false} WhereAllKept<T>(s: seq<T>, p: T -> bool)
    requires forall i :: 0 <= i < |s| ==> p(s[i])
    ensures Where(s, p) == s
  {
    if s != [] {
      WhereAllKept(s[1..], p);
    }
  }

  /** Whatever holds of every element of the source holds of every element `Where` keeps. */
  lemma {:induction false} WherePreserves<T>(s: seq<T>, p: T -> bool, q: T -> bool)
    requires forall i :: 0 <= i < |s| ==> q(s[i])
    ensures forall i :: 0 <= i < |Where(s, p)| ==> q(Where(s, p)[i])
  {
    if s != [] {
      WherePreserves(s[1..], p, q);
    }
  }

  /** Filtering twice with the same predicate is filtering once. */
  lemma WhereIdempotent<T>(s: seq<T>, p: T -> bool)
    ensures Where(Where(s, p), p) == Where(s, p)
  {
    WhereAllKept(Where(s, p), p);
  }

  /** `Where` distributes over concatenation. */
  lemma {:induction false} WhereConcat<T>(a: seq<T>, b: seq<T>, p: T -> bool)
    ensures Where(a + b, p) == Where(a, p) + Where(b, p)
  {
    if a != [] {
      WhereConcat(a[1..], b, p);
      assert (a + b)[1..] == a[1..] + b;
    } else {
      assert a + b == b;
    }
  }
}
