/**
  Drop accounting. A drop log is the sequence of values whose destructor
  ran, in order. The three classifications mirror the test watcher of the
  collection library: a marker dropped never is leaked, dropped once is
  properly dropped, dropped more than once is illegally dropped.
 */
module DropLog {

  /** How many times `x` occurs in the log, i.e. how often its destructor ran. */
  function DropCount<T(==)>(log: seq<T>, x: T): nat {
    multiset(log)[x]
  }

  predicate IsProperlyDropped<T(==)>(log: seq<T>, x: T) {
    DropCount(log, x) == 1
  }

  predicate IsLeaked<T(==)>(log: seq<T>, x: T) {
    DropCount(log, x) == 0
  }

  predicate IsIllegallyDropped<T(==)>(log: seq<T>, x: T) {
    DropCount(log, x) > 1
  }

  /** Markers handed out by the watcher are pairwise distinct. */
  predicate Distinct<T(==)>(s: seq<T>) {
    forall i, j :: 0 <= i < j < |s| ==> s[i] != s[j]
  }

  /** In a log that is a permutation of distinct markers, every marker is dropped exactly once. */
  lemma {:induction false} DistinctOnce<T>(s: seq<T>, x: T)
    requires Distinct(s)
    requires x in s
    ensures IsProperlyDropped(s, x)
  {
    if s[0] == x {
      assert s == [s[0]] + s[1..];
      assert forall j :: 1 <= j < |s| ==> s[j] != x;
      assert multiset(s[1..])[x] == 0;
    } else {
      assert s == [s[0]] + s[1..];
      assert x in s[1..];
      DistinctOnce(s[1..], x);
    }
  }

  /**
    If everything that ever entered a container left it through one of
    the logged exits, and the entries were distinct markers, each marker
    is classified as properly dropped: not leaked, not illegally dropped.
   */
  lemma {:induction false} ConservedMeansProperlyDropped<T>(entered: seq<T>, log: seq<T>, x: T)
    requires Distinct(entered)
    requires multiset(entered) == multiset(log)
    requires x in entered
    ensures IsProperlyDropped(log, x)
    ensures !IsLeaked(log, x) && !IsIllegallyDropped(log, x)
  {
    DistinctOnce(entered, x);
  }
}
