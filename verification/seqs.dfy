/** Small sequence helpers shared by the collection models. */
module Seqs {

  function Min(a: int, b: int): int {
    if a <= b then a else b
  }

  /** `s` in reverse order. */
  function Reverse<T>(s: seq<T>): (r: seq<T>)
    ensures |r| == |s|
    ensures forall i :: 0 <= i < |s| ==> r[i] == s[|s| - 1 - i]
  {
    if s == [] then [] else Reverse(s[1..]) + [s[0]]
  }

  /** If `a + b == s`, then `a` and `b` are the prefix and suffix of `s` of their lengths. */
  lemma SplitAt<T>(a: seq<T>, b: seq<T>, s: seq<T>)
    requires a + b == s
    ensures a == s[..|a|] && b == s[|a|..] && b == s[|s| - |b|..]
  {
    assert s[..|a|] == (a + b)[..|a|];
    assert s[|a|..] == (a + b)[|a|..];
  }

  /** A sequence is its prefix before `k`, its element at `k`, and its suffix after `k`. */
  lemma Around<T>(s: seq<T>, k: nat)
    requires k < |s|
    ensures s[..k] + [s[k]] + s[k + 1..] == s
  {
  }

  /** A non-empty sequence is its front followed by its last element. */
  lemma Snoc<T>(s: seq<T>)
    requires |s| > 0
    ensures s[..|s| - 1] + [s[|s| - 1]] == s
  {
  }

  lemma AppendSnoc<T>(a: seq<T>, b: seq<T>, c: T)
    ensures a + (b + [c]) == (a + b) + [c]
  {
  }

  /** Appending leaves the slices of the left part alone. */
  lemma SliceLeft<T>(s: seq<T>, t: seq<T>, lo: nat, hi: nat)
    requires lo <= hi <= |s|
    ensures (s + t)[lo..hi] == s[lo..hi]
  {
  }

  lemma SuffixAppend<T>(s: seq<T>, t: seq<T>, lo: nat)
    requires lo <= |s|
    ensures (s + t)[lo..] == s[lo..] + t
  {
  }

  lemma {:induction false} ReverseReverse<T>(s: seq<T>)
    ensures Reverse(Reverse(s)) == s
  {
  }

  /** Reversal is a permutation. */
  lemma {:induction false} MultisetReverse<T>(s: seq<T>)
    ensures multiset(Reverse(s)) == multiset(s)
  {
    if s != [] {
      MultisetReverse(s[1..]);
      assert s == [s[0]] + s[1..];
    }
  }

  /** Multiset bookkeeping of two consecutive stretches of a container's history: what came in (held before, pushed) equals what went out (evicted, popped) plus what is held after. */
  lemma Chain<T>(c0: seq<T>, p1: seq<T>, e1: seq<T>, q1: seq<T>, c1: seq<T>,
                 p2: seq<T>, e2: seq<T>, q2: seq<T>, c2: seq<T>)
    requires multiset(c0) + multiset(p1) == multiset(e1) + multiset(q1) + multiset(c1)
    requires multiset(c1) + multiset(p2) == multiset(e2) + multiset(q2) + multiset(c2)
    ensures multiset(c0) + multiset(p1 + p2) == multiset(e1 + e2) + multiset(q1 + q2) + multiset(c2)
  {
    assert multiset(p1 + p2) == multiset(p1) + multiset(p2);
    assert multiset(e1 + e2) == multiset(e1) + multiset(e2);
    assert multiset(q1 + q2) == multiset(q1) + multiset(q2);
    var lhs := multiset(c0) + multiset(p1 + p2);
    var rhs := multiset(e1 + e2) + multiset(q1 + q2) + multiset(c2);
    forall x
      ensures lhs[x] == rhs[x]
    {
      assert (multiset(c0) + multiset(p1))[x] == (multiset(e1) + multiset(q1) + multiset(c1))[x];
      assert (multiset(c1) + multiset(p2))[x] == (multiset(e2) + multiset(q2) + multiset(c2))[x];
    }
    assert lhs == rhs;
  }
}
