/**
 * `Extensions.Exclude`: the elements of a source sequence that no element of
 * an exclusion list matches, where a null exclusion list or comparer leaves
 * the source as it is. A null reference is `None`.
 */
module Extensions {
  import opened Wrappers
  import opened Linq

  /** `m` is matched when some `e` of `toExclude` has `comparer(e, m)`: the excluded element comes first. */
  predicate Matched<T>(toExclude: seq<T>, comparer: (T, T) -> bool, m: T) {
    Any(toExclude, e => comparer(e, m))
  }

  function Exclude<T>(source: seq<T>, toExclude: Option<seq<T>>, comparer: Option<(T, T) -> bool>): (r: seq<T>)
    ensures toExclude.None? || comparer.None? ==> r == source
    ensures |r| <= |source|
    ensures toExclude.Some? && comparer.Some? ==>
      forall i :: 0 <= i < |r| ==> !Matched(toExclude.value, comparer.value, r[i])
  {
    if toExclude.None? || comparer.None? then source
    else Where(source, m => !Matched(toExclude.value, comparer.value, m))
  }

  /** The result keeps the source's order: it is the source with some elements deleted. */
  lemma ExcludeIsSubsequence<T>(source: seq<T>, toExclude: Option<seq<T>>, comparer: Option<(T, T) -> bool>)
    ensures IsSubsequence(Exclude(source, toExclude, comparer), source)
  {
    if toExclude.None? || comparer.None? {
      SubsequenceReflexive(source);
    } else {
      WhereIsSubsequence(source, m => !Matched(toExclude.value, comparer.value, m));
    }
  }

  /**
   * An element is kept exactly when it is in the source and no element of
   * `toExclude` matches it, and then every copy of it is kept.
   */
  lemma ExcludeMembership<T>(source: seq<T>, toExclude: seq<T>, comparer: (T, T) -> bool, x: T)
    ensures x in Exclude(source, Some(toExclude), Some(comparer)) <==>
      x in source && !exists e :: e in toExclude && comparer(e, x)
    ensures multiset(Exclude(source, Some(toExclude), Some(comparer)))[x] ==
      if Matched(toExclude, comparer, x) then 0 else multiset(source)[x]
  {
    WhereMembership(source, m => !Matched(toExclude, comparer, m), x);
    WhereCount(source, m => !Matched(toExclude, comparer, m), x);
    if exists e :: e in toExclude && comparer(e, x) {
      var e :| e in toExclude && comparer(e, x);
      var j :| 0 <= j < |toExclude| && toExclude[j] == e;
      assert Matched(toExclude, comparer, x);
    }
  }

  /** An empty exclusion list excludes nothing. */
  lemma ExcludeNothing<T>(source: seq<T>, comparer: (T, T) -> bool)
    ensures Exclude(source, Some([]), Some(comparer)) == source
  {
    WhereAllKept(source, m => !Matched([], comparer, m));
  }

  /** Excluding a second time with the same list and comparer changes nothing. */
  lemma ExcludeIdempotent<T>(source: seq<T>, toExclude: Option<seq<T>>, comparer: Option<(T, T) -> bool>)
    ensures Exclude(Exclude(source, toExclude, comparer), toExclude, comparer) == Exclude(source, toExclude, comparer)
  {
    if toExclude.Some? && comparer.Some? {
      WhereIdempotent(source, m => !Matched(toExclude.value, comparer.value, m));
    }
  }
}
