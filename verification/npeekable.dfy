/**
  `NPeekable<I, N>`: an iterator adaptor with up to `N` items of lookahead.
  Items already pulled from the source but not yet yielded are cached, oldest
  first, in an `InlineRingBuf<Item, N>`.

  The source iterator is modelled as the finite sequence of items it will
  still produce. The observable stream of the adaptor is the cache followed
  by the rest of the source: every peek leaves it unchanged, and `next`
  removes its head. Every operation takes `&mut self` in the source, so each
  one returns the new adaptor state together with its answer.
 */
module NPeekable {
  import opened Wrappers
  import opened Seqs
  import RB = InlineRingBuffer

  datatype NPeekable<T> = NPeekable(source: seq<T>, peeked: RB.RingBuf<T>)

  /** An answer together with the adaptor state after the call. */
  datatype Answer<T, R> = Answer(state: NPeekable<T>, value: R)

  /** A predicate over `(index, item)` pairs, as passed to `has_exact_and` and `starts`. */
  type Pred<!T> = (nat, T) -> bool

  predicate Valid<T>(p: NPeekable<T>) {
    RB.Valid(p.peeked)
  }

  function Capacity<T>(p: NPeekable<T>): nat {
    RB.Capacity(p.peeked)
  }

  /** The cached lookahead, oldest first. */
  function Cached<T>(p: NPeekable<T>): (s: seq<T>)
    requires Valid(p)
    ensures |s| <= Capacity(p)
  {
    RB.Contents(p.peeked)
  }

  /** The items the adaptor will yield, in order: the cache, then the rest of the source. */
  function Stream<T>(p: NPeekable<T>): seq<T>
    requires Valid(p)
  {
    Cached(p) + p.source
  }

  /** `From`: wrap a source with an empty cache of capacity `n`. */
  function From<T>(source: seq<T>, n: nat): (p: NPeekable<T>)
    requires n > 0
    ensures Valid(p) && Capacity(p) == n
    ensures Cached(p) == [] && Stream(p) == source
  {
    NPeekable(source, RB.New(n))
  }

  /**
    `load`: pull from the source into the cache until it holds `min(N, count)`
    items or the source is exhausted. Nothing is evicted on the way: the
    stream is unchanged.
   */
  function Load<T>(p: NPeekable<T>, count: nat): (r: NPeekable<T>)
    requires Valid(p)
    ensures Valid(r) && Capacity(r) == Capacity(p)
    ensures Stream(r) == Stream(p)
    ensures |Cached(p)| >= Min(Capacity(p), count) ==> r == p
    ensures |Cached(p)| < Min(Capacity(p), count) ==>
      |Cached(r)| == Min(Min(Capacity(p), count), |Stream(p)|)
    decreases |p.source|
  {
    if p.peeked.len < Min(Capacity(p), count) then
      if |p.source| > 0 then
        var pushed := RB.PushHead(p.peeked, p.source[0]);
        var q := NPeekable(p.source[1..], pushed.buf);
        assert Stream(q) == Stream(p) by {
          assert p.source == [p.source[0]] + p.source[1..];
        }
        Load(q, count)
      else
        p
    else
      p
  }

  /** After `load(count)`, the first `min(count, N, available)` stream items are cached. */
  lemma LoadCaches<T>(p: NPeekable<T>, count: nat)
    requires Valid(p)
    ensures var k := Min(Min(count, Capacity(p)), |Stream(p)|);
      k <= |Cached(Load(p, count))| && Cached(Load(p, count))[..k] == Stream(p)[..k]
  {
    var r := Load(p, count);
    var k := Min(Min(count, Capacity(p)), |Stream(p)|);
    assert Stream(r) == Cached(r) + r.source;
    assert Stream(r)[..k] == Cached(r)[..k];
  }

  /**
    `peek_range`: load `count` items and view the first `count` cached ones.
    The view is the first `min(count, N, available)` items of the stream.
   */
  function PeekRange<T>(p: NPeekable<T>, count: nat): (r: Answer<T, seq<T>>)
    requires Valid(p)
    ensures Valid(r.state) && Capacity(r.state) == Capacity(p)
    ensures Stream(r.state) == Stream(p)
    ensures r.value == Stream(p)[..Min(Min(count, Capacity(p)), |Stream(p)|)]
  {
    var q := Load(p, count);
    LoadCaches(p, count);
    Answer(q, Cached(q)[..Min(count, |Cached(q)|)])
  }

  /**
    `nth_peek`: `None` when `index >= N`; otherwise the `index`-th stream item,
    if the stream has one.
   */
  function NthPeek<T>(p: NPeekable<T>, index: nat): (r: Answer<T, Option<T>>)
    requires Valid(p)
    ensures Valid(r.state) && Capacity(r.state) == Capacity(p)
    ensures Stream(r.state) == Stream(p)
    ensures r.value == if index < Capacity(p) && index < |Stream(p)| then Some(Stream(p)[index]) else None
  {
    if Capacity(p) <= index then
      Answer(p, None)
    else
      var q := Load(p, index + 1);
      LoadCaches(p, index + 1);
      Answer(q, RB.Get(q.peeked, index))
  }

  /** `peek`: the next item without consuming it; the same as `nth_peek(0)`. */
  function Peek<T>(p: NPeekable<T>): (r: Answer<T, Option<T>>)
    requires Valid(p)
    ensures Valid(r.state) && Capacity(r.state) == Capacity(p)
    ensures Stream(r.state) == Stream(p)
    ensures r.value == if |Stream(p)| > 0 then Some(Stream(p)[0]) else None
  {
    NthPeek(p, 0)
  }

  /** `has_less_than`: the view of `count` items is shorter than `count`. */
  function HasLessThan<T>(p: NPeekable<T>, count: nat): (r: Answer<T, bool>)
    requires Valid(p)
    ensures Valid(r.state) && Capacity(r.state) == Capacity(p)
    ensures Stream(r.state) == Stream(p)
    ensures r.value <==> Min(Capacity(p), |Stream(p)|) < count
  {
    var view := PeekRange(p, count);
    Answer(view.state, |view.value| < count)
  }

  /** `has_less_than_or_eq`: a view of `count` items is never longer than `count`. */
  function HasLessThanOrEq<T>(p: NPeekable<T>, count: nat): (r: Answer<T, bool>)
    requires Valid(p)
    ensures Valid(r.state) && Capacity(r.state) == Capacity(p)
    ensures Stream(r.state) == Stream(p)
    ensures r.value
  {
    var view := PeekRange(p, count);
    Answer(view.state, |view.value| <= count)
  }

  /** `Iterator::all` over `enumerate()` of a view. */
  predicate AllIndexed<T>(view: seq<T>, pred: Pred<T>) {
    forall i :: 0 <= i < |view| ==> pred(i, view[i])
  }

  /**
    `has_exact` as written: peeks only `count` items. Below `N` it answers
    whether at least `count` items are available; from `N` on it answers
    `Some(false)` when fewer than `count` are visible and `None` otherwise,
    so above `N` it is always `Some(false)`.
   */
  function HasExact<T>(p: NPeekable<T>, count: nat): (r: Answer<T, Option<bool>>)
    requires Valid(p)
    ensures Valid(r.state) && Capacity(r.state) == Capacity(p)
    ensures Stream(r.state) == Stream(p)
    ensures count < Capacity(p) ==> r.value == Some(count <= |Stream(p)|)
    ensures count >= Capacity(p) ==>
      r.value == if count == Capacity(p) && count <= |Stream(p)| then None else Some(false)
  {
    var view := PeekRange(p, count);
    if count >= Capacity(p) then
      Answer(view.state, if |view.value| < count then Some(false) else None)
    else
      Answer(view.state, Some(|view.value| == count))
  }

  /**
    `has_exact` as evidently intended. Below `N` it peeks `count + 1` items,
    as `has_exact_and` does, so that the answer is whether exactly `count`
    items remain. From `N` on it answers `Some(false)` only when fewer than
    `N` items are visible, since then the whole stream is in view, and
    `None` (undetermined) otherwise. Every definite answer is true of the
    stream.
   */
  function HasExactFixed<T>(p: NPeekable<T>, count: nat): (r: Answer<T, Option<bool>>)
    requires Valid(p)
    ensures Valid(r.state) && Capacity(r.state) == Capacity(p)
    ensures Stream(r.state) == Stream(p)
    ensures r.value.Some? ==> r.value.value == (|Stream(p)| == count)
    ensures r.value.None? <==> Capacity(p) <= count && Capacity(p) <= |Stream(p)|
  {
    if count >= Capacity(p) then
      var view := PeekRange(p, count);
      Answer(view.state, if |view.value| < Capacity(p) then Some(false) else None)
    else
      var view := PeekRange(p, count + 1);
      Answer(view.state, Some(|view.value| == count))
  }

  /**
    `has_exact_and`: peeks `count + 1` items. Below `N`: exactly `count`
    items remain and `pred` holds of each `(index, item)`. From `N` on:
    `None` when `count == N`, at least `N` items are available and `pred`
    holds of the first `N`; `Some(false)` otherwise.
   */
  function HasExactAnd<T>(p: NPeekable<T>, count: nat, pred: Pred<T>): (r: Answer<T, Option<bool>>)
    requires Valid(p)
    ensures Valid(r.state) && Capacity(r.state) == Capacity(p)
    ensures Stream(r.state) == Stream(p)
    ensures count < Capacity(p) ==>
      r.value == Some(|Stream(p)| == count && forall i :: 0 <= i < count ==> pred(i, Stream(p)[i]))
    ensures count >= Capacity(p) ==>
      r.value == if count == Capacity(p) && count <= |Stream(p)| && AllIndexed(Stream(p)[..count], pred)
                 then None else Some(false)
  {
    var view := PeekRange(p, count + 1);
    if count >= Capacity(p) then
      Answer(view.state, if |view.value| < count || !AllIndexed(view.value, pred) then Some(false) else None)
    else
      Answer(view.state, Some(|view.value| == count && AllIndexed(view.value, pred)))
  }

  /**
    `starts`: peeks `count` items. Below `N`: `pred` holds of each of the
    first `min(count, available)` items (vacuously true on a short stream).
    From `N` on: as `has_exact_and`.
   */
  function Starts<T>(p: NPeekable<T>, count: nat, pred: Pred<T>): (r: Answer<T, Option<bool>>)
    requires Valid(p)
    ensures Valid(r.state) && Capacity(r.state) == Capacity(p)
    ensures Stream(r.state) == Stream(p)
    ensures count < Capacity(p) ==>
      r.value == Some(AllIndexed(Stream(p)[..Min(count, |Stream(p)|)], pred))
    ensures count >= Capacity(p) ==>
      r.value == if count == Capacity(p) && count <= |Stream(p)| && AllIndexed(Stream(p)[..count], pred)
                 then None else Some(false)
  {
    var view := PeekRange(p, count);
    if count >= Capacity(p) then
      if |view.value| < count || !AllIndexed(view.value, pred) then
        Answer(view.state, Some(false))
      else
        Answer(view.state, None)
    else
      Answer(view.state, Some(AllIndexed(view.value, pred)))
  }

  /**
    `has_exact_and` as evidently intended: from `N` on, `Some(false)` only
    when fewer than `N` items are visible or `pred` fails on a visible
    item, and `None` otherwise. Below `N` it is `has_exact_and` itself.
    Every definite answer is true of the stream.
   */
  function HasExactAndFixed<T>(p: NPeekable<T>, count: nat, pred: Pred<T>): (r: Answer<T, Option<bool>>)
    requires Valid(p)
    ensures Valid(r.state) && Capacity(r.state) == Capacity(p)
    ensures Stream(r.state) == Stream(p)
    ensures r.value.Some? ==>
      r.value.value == (|Stream(p)| == count && forall i :: 0 <= i < count ==> pred(i, Stream(p)[i]))
    ensures r.value.None? <==>
      Capacity(p) <= count && Capacity(p) <= |Stream(p)| && AllIndexed(Stream(p)[..Capacity(p)], pred)
  {
    if count >= Capacity(p) then
      var view := PeekRange(p, count + 1);
      var n := Capacity(p);
      assert view.value == Stream(p)[..Min(n, |Stream(p)|)];
      if |view.value| < n then
        Answer(view.state, Some(false))
      else if !AllIndexed(view.value, pred) then
        var i :| 0 <= i < n && !pred(i, view.value[i]);
        assert Stream(p)[i] == view.value[i];
        Answer(view.state, Some(false))
      else
        Answer(view.state, None)
    else
      HasExactAnd(p, count, pred)
  }

  /**
    `starts` as evidently intended: from `N` on, `Some(false)` only when
    fewer than `N` items are visible or `pred` fails on a visible item, and
    `None` otherwise, never `Some(true)`. Below `N` it is `starts` itself:
    whether `pred` holds of the first `min(count, available)` items. A
    `Some(false)` is always backed by the stream: it is shorter than
    `count`, or `pred` fails on one of its first `count` items.
   */
  function StartsFixed<T>(p: NPeekable<T>, count: nat, pred: Pred<T>): (r: Answer<T, Option<bool>>)
    requires Valid(p)
    ensures Valid(r.state) && Capacity(r.state) == Capacity(p)
    ensures Stream(r.state) == Stream(p)
    ensures count < Capacity(p) ==>
      r.value == Some(AllIndexed(Stream(p)[..Min(count, |Stream(p)|)], pred))
    ensures count >= Capacity(p) ==> r.value != Some(true)
    ensures r.value == Some(false) ==>
      |Stream(p)| < count || exists i :: 0 <= i < count && i < |Stream(p)| && !pred(i, Stream(p)[i])
    ensures r.value.None? <==>
      Capacity(p) <= count && Capacity(p) <= |Stream(p)| && AllIndexed(Stream(p)[..Capacity(p)], pred)
  {
    if count >= Capacity(p) then
      var view := PeekRange(p, count);
      var n := Capacity(p);
      assert view.value == Stream(p)[..Min(n, |Stream(p)|)];
      if |view.value| < n then
        Answer(view.state, Some(false))
      else if !AllIndexed(view.value, pred) then
        var i :| 0 <= i < n && !pred(i, view.value[i]);
        assert Stream(p)[i] == view.value[i];
        Answer(view.state, Some(false))
      else
        Answer(view.state, None)
    else
      var r := Starts(p, count, pred);
      assert r.value == Some(false) ==> !AllIndexed(Stream(p)[..Min(count, |Stream(p)|)], pred);
      r
  }

  /** `next`: pop the front of the cache, or else pull straight from the source. */
  function Next<T>(p: NPeekable<T>): (r: Answer<T, Option<T>>)
    requires Valid(p)
    ensures Valid(r.state) && Capacity(r.state) == Capacity(p)
    ensures |Stream(p)| > 0 ==> r.value == Some(Stream(p)[0]) && Stream(r.state) == Stream(p)[1..]
    ensures |Stream(p)| == 0 ==> r.value == None && r.state == p
  {
    var popped := RB.PopTail(p.peeked);
    if popped.item.Some? then
      Answer(NPeekable(p.source, popped.buf), popped.item)
    else if |p.source| > 0 then
      Answer(NPeekable(p.source[1..], p.peeked), Some(p.source[0]))
    else
      Answer(p, None)
  }

  // ---------------------------------------------------------------------------
  // Laws

  /** What `k` successive calls of `next` return on the stream `s`: its items, then `None`. */
  function Outcomes<T>(s: seq<T>, k: nat): (r: seq<Option<T>>)
    ensures |r| == k
  {
    seq(k, i requires 0 <= i < k => if i < |s| then Some(s[i]) else None)
  }

  lemma OutcomesStep<T>(s: seq<T>, k: nat)
    requires k > 0
    ensures Outcomes(s, k) == if |s| > 0 then [Some(s[0])] + Outcomes(s[1..], k - 1)
                              else [None] + Outcomes(s, k - 1)
  {
  }

  /** `k` calls of `next`, collecting what each returns. */
  function NextN<T>(p: NPeekable<T>, k: nat): (r: Answer<T, seq<Option<T>>>)
    requires Valid(p)
    ensures Valid(r.state) && Capacity(r.state) == Capacity(p)
    ensures r.value == Outcomes(Stream(p), k)
    ensures Stream(r.state) == Stream(p)[Min(k, |Stream(p)|)..]
    decreases k
  {
    if k == 0 then
      Answer(p, [])
    else
      var first := Next(p);
      var rest := NextN(first.state, k - 1);
      OutcomesStep(Stream(p), k);
      Answer(rest.state, [first.value] + rest.value)
  }

  /**
    One read-only query of the adaptor (each may pull from the source into
    the cache). `HasExactQ`, `HasExactAndQ` and `StartsQ` are the queries as
    written; the `Fixed` cases are their corrected forms.
   */
  datatype Query<!T> =
    | PeekQ
    | NthPeekQ(index: nat)
    | PeekRangeQ(count: nat)
    | HasLessThanQ(count: nat)
    | HasLessThanOrEqQ(count: nat)
    | HasExactQ(count: nat)
    | HasExactFixedQ(count: nat)
    | HasExactAndQ(count: nat, pred: Pred<T>)
    | HasExactAndFixedQ(count: nat, pred: Pred<T>)
    | StartsQ(count: nat, pred: Pred<T>)
    | StartsFixedQ(count: nat, pred: Pred<T>)

  /** The adaptor state after answering `q`. */
  function Ask<T>(p: NPeekable<T>, q: Query<T>): (r: NPeekable<T>)
    requires Valid(p)
    ensures Valid(r) && Capacity(r) == Capacity(p)
  {
    match q
    case PeekQ => Peek(p).state
    case NthPeekQ(i) => NthPeek(p, i).state
    case PeekRangeQ(c) => PeekRange(p, c).state
    case HasLessThanQ(c) => HasLessThan(p, c).state
    case HasLessThanOrEqQ(c) => HasLessThanOrEq(p, c).state
    case HasExactQ(c) => HasExact(p, c).state
    case HasExactFixedQ(c) => HasExactFixed(p, c).state
    case HasExactAndQ(c, pred) => HasExactAnd(p, c, pred).state
    case HasExactAndFixedQ(c, pred) => HasExactAndFixed(p, c, pred).state
    case StartsQ(c, pred) => Starts(p, c, pred).state
    case StartsFixedQ(c, pred) => StartsFixed(p, c, pred).state
  }

  function AskAll<T>(p: NPeekable<T>, qs: seq<Query<T>>): (r: NPeekable<T>)
    requires Valid(p)
    ensures Valid(r) && Capacity(r) == Capacity(p)
    decreases |qs|
  {
    if qs == [] then p else AskAll(Ask(p, qs[0]), qs[1..])
  }

  /** Peeking never changes the stream, whatever the sequence of queries. */
  lemma {:induction false} AskAllKeepsStream<T>(p: NPeekable<T>, qs: seq<Query<T>>)
    requires Valid(p)
    ensures Stream(AskAll(p, qs)) == Stream(p)
    decreases |qs|
  {
    if qs != [] {
      AskAllKeepsStream(Ask(p, qs[0]), qs[1..]);
    }
  }

  /**
    Lookahead is transparent: after any queries on a fresh adaptor, `next`
    yields the source items in source order, then `None`, exactly as
    consuming the source directly would.
   */
  lemma NextAfterQueriesYieldsSource<T>(source: seq<T>, n: nat, qs: seq<Query<T>>)
    requires n > 0
    ensures var drained := NextN(AskAll(From(source, n), qs), |source| + 1).value;
      && drained[..|source|] == seq(|source|, i requires 0 <= i < |source| => Some(source[i]))
      && drained[|source|] == None
  {
    AskAllKeepsStream(From(source, n), qs);
  }

  /** The source `0, 1, .., count - 1`. */
  function Range(count: nat): (s: seq<nat>)
    ensures |s| == count && forall i :: 0 <= i < count ==> s[i] == i
  {
    seq(count, i => i)
  }

  /**
    The `nth_peek` and `has_less_than` tests, for every capacity `N` and
    length `count`, whatever was asked before: over `0 .. count`,
    `nth_peek(i)` is `Some(i)` below `min(N, count)` and `None` from `N` on,
    and `has_less_than(c)` is false up to `min(N, count)` and true above it.
   */
  lemma RangeQueries(count: nat, n: nat, qs: seq<Query<nat>>, i: nat, c: nat)
    requires n > 0
    ensures var p := AskAll(From(Range(count), n), qs);
      && (i < Min(n, count) ==> NthPeek(p, i).value == Some(i))
      && (i >= n ==> NthPeek(p, i).value == None)
      && (HasLessThan(p, c).value <==> c > Min(n, count))
  {
    AskAllKeepsStream(From(Range(count), n), qs);
  }

  /** The queries `nth_peek(0)`, .., `nth_peek(k - 1)`. */
  function PeekEach<T>(k: nat): (qs: seq<Query<T>>)
    ensures |qs| == k && forall i :: 0 <= i < k ==> qs[i] == NthPeekQ(i)
  {
    seq(k, i requires 0 <= i < k => NthPeekQ(i))
  }

  /**
    The `nth_peek` test: peeking each index below `min(N, count)` in turn
    sees `0, 1, ..`, and afterwards `next` still yields `0 .. count` in order.
   */
  lemma NthPeekTest(count: nat, n: nat)
    requires n > 0
    ensures var p := From(Range(count), n);
      var qs := PeekEach<nat>(Min(n, count));
      && (forall i :: 0 <= i < Min(n, count) ==> NthPeek(AskAll(p, qs[..i]), i).value == Some(i))
      && NextN(AskAll(p, qs), count).value == seq(count, i requires 0 <= i < count => Some(i))
  {
    var p := From(Range(count), n);
    var qs := PeekEach<nat>(Min(n, count));
    forall i | 0 <= i < Min(n, count)
      ensures NthPeek(AskAll(p, qs[..i]), i).value == Some(i)
    {
      AskAllKeepsStream(p, qs[..i]);
    }
    assert Stream(AskAll(p, qs)) == Range(count) by {
      AskAllKeepsStream(p, qs);
    }
    OutcomesOfRange(count);
  }

  lemma OutcomesOfRange(count: nat)
    ensures Outcomes(Range(count), count) == seq(count, i requires 0 <= i < count => Some(i))
  {
  }

  /**
    `has_exact` as written answers `Some(true)` whenever at least `c + 1`
    items remain and `c < N`, where its test expects `Some(false)`.
   */
  lemma HasExactAsWrittenFailsTests(count: nat, n: nat, qs: seq<Query<nat>>, c: nat)
    requires n > 0 && c < n && c < count
    ensures HasExact(AskAll(From(Range(count), n), qs), c).value == Some(true)
  {
    AskAllKeepsStream(From(Range(count), n), qs);
  }

  /**
    The smallest instance: with capacity 4 over the source `0, 1`, the test
    expects `has_exact(0) == Some(false)` (two items remain, not zero), but
    the code answers `Some(true)`. The corrected `HasExactFixed` answers
    `Some(false)`.
   */
  lemma HasExactCounterexample()
    ensures HasExact(From(Range(2), 4), 0).value == Some(true)
    ensures HasExactFixed(From(Range(2), 4), 0).value == Some(false)
  {
    assert Stream(From(Range(2), 4)) == Range(2);
  }

  /**
    The corrected `has_exact` meets every expectation of the `has_exact`
    test, whatever was asked before: over `0 .. count` with capacity `N`,
    below `N` it is `Some(true)` exactly at `count`, at `N` it is `None`
    when `N <= count`. Above `N`, which the test does not ask, it is
    `Some(false)` on a source shorter than `N` and `None` otherwise.
   */
  lemma HasExactFixedMeetsTests(count: nat, n: nat, qs: seq<Query<nat>>, c: nat)
    requires n > 0
    ensures var p := AskAll(From(Range(count), n), qs);
      && (c < n ==> HasExactFixed(p, c).value == Some(c == count))
      && (n <= count ==> HasExactFixed(p, n).value == None)
      && (c > n ==> HasExactFixed(p, c).value == if count < n then Some(false) else None)
  {
    AskAllKeepsStream(From(Range(count), n), qs);
  }

  /**
    From `N` on, `has_exact`, `has_exact_and` and `starts` as written
    answer `Some(false)` whenever `count > N`, even when exactly `count`
    items remain and all of them satisfy `pred`: the view holds at most `N`
    items, so "fewer than `count` visible" is always true.
   */
  lemma AboveCapacityAsWritten<T>(p: NPeekable<T>, count: nat, pred: Pred<T>)
    requires Valid(p) && Capacity(p) < count
    ensures HasExact(p, count).value == Some(false)
    ensures HasExactAnd(p, count, pred).value == Some(false)
    ensures Starts(p, count, pred).value == Some(false)
  {
  }

  /** Accept every `(index, item)` pair. */
  function AnyItem(i: nat, x: nat): bool {
    true
  }

  /**
    The smallest instance: capacity 2 over the source `0, 1, 2`. Exactly
    three items remain, yet `has_exact(3)`, `has_exact_and(3, _)` and
    `starts(3, _)` answer a definite `Some(false)`. The corrected forms
    answer `None`, undetermined.
   */
  lemma AboveCapacityCounterexample()
    ensures var p := From(Range(3), 2);
      && |Stream(p)| == 3
      && HasExact(p, 3).value == Some(false)
      && HasExactAnd(p, 3, AnyItem).value == Some(false)
      && Starts(p, 3, AnyItem).value == Some(false)
      && HasExactFixed(p, 3).value == None
      && HasExactAndFixed(p, 3, AnyItem).value == None
      && StartsFixed(p, 3, AnyItem).value == None
  {
    var p := From(Range(3), 2);
    assert Stream(p) == Range(3);
    assert AllIndexed(Stream(p)[..2], AnyItem);
  }
}
