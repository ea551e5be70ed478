/**
  `InlineVec<T, N>`: a fixed-capacity stack stored in `N` inline slots with a
  live count `len`. Logical index `i` is physical slot `i`; the live elements
  are the prefix `[0, len)`. Unlike the ring buffer, a push into a full stack
  is refused, never absorbed.

  As for the ring buffer, slots are `Option<T>` (`None` = uninitialised or
  moved out) and `Contents` is the abstraction to the sequence of live
  elements.
 */
module InlineVec {
  import opened Wrappers
  import opened DropLog
  import opened Seqs

  datatype InlineVec<T> = InlineVec(slots: seq<Option<T>>, len: nat)

  /** A stack after a push, and whether the push was accepted. */
  datatype Pushed<T> = Pushed(vec: InlineVec<T>, ok: bool)

  /** A stack after a pop, and the element moved out to the caller, if any. */
  datatype Popped<T> = Popped(vec: InlineVec<T>, item: Option<T>)

  /** A stack after an assignment through `IndexMut`, and the old value it dropped. */
  datatype Replaced<T> = Replaced(vec: InlineVec<T>, dropped: T)

  /** `capacity`: the number of slots `N`, which bounds the live count. */
  function Capacity<T>(v: InlineVec<T>): (r: nat)
    ensures Valid(v) ==> v.len <= r
  {
    |v.slots|
  }

  /** The representation invariant: exactly the slots below `len` are initialised. */
  predicate Valid<T>(v: InlineVec<T>) {
    && v.len <= |v.slots|
    && forall i :: 0 <= i < |v.slots| ==> (v.slots[i].Some? <==> i < v.len)
  }

  /** Abstraction function: the live prefix. */
  function Contents<T>(v: InlineVec<T>): (s: seq<T>)
    requires Valid(v)
    ensures |s| == v.len
  {
    seq(v.len, i requires 0 <= i < v.len => v.slots[i].value)
  }

  /** `is_empty`: nothing is live, so there is nothing to peek at. */
  function IsEmpty<T>(v: InlineVec<T>): (r: bool)
    requires Valid(v)
    ensures r <==> Contents(v) == []
    ensures r <==> Peek(v).None?
  {
    v.len <= 0
  }

  /** `new`: no slot initialised. */
  function New<T>(n: nat): (v: InlineVec<T>)
    ensures Valid(v) && Capacity(v) == n && Contents(v) == []
  {
    InlineVec(seq(n, _ => None), 0)
  }

  /**
    `push`: refused (`false`, nothing changes, and the item is dropped by the
    caller's scope) when `len == N`; otherwise the item goes to index `len`.
   */
  function Push<T>(v: InlineVec<T>, x: T): (r: Pushed<T>)
    requires Valid(v)
    ensures Valid(r.vec) && Capacity(r.vec) == Capacity(v)
    ensures r.ok <==> v.len < Capacity(v)
    ensures !r.ok ==> r.vec == v
    ensures r.ok ==> Contents(r.vec) == Contents(v) + [x]
  {
    if v.len >= Capacity(v) then
      Pushed(v, false)
    else
      var v' := InlineVec(v.slots[v.len := Some(x)], v.len + 1);
      assert Contents(v') == Contents(v) + [x];
      Pushed(v', true)
  }

  /** `pop`: remove and return the top; `None` and no change when empty. */
  function Pop<T>(v: InlineVec<T>): (r: Popped<T>)
    requires Valid(v)
    ensures Valid(r.vec) && Capacity(r.vec) == Capacity(v)
    ensures v.len == 0 ==> r == Popped(v, None)
    ensures v.len > 0 ==>
      && r.item == Some(Contents(v)[v.len - 1])
      && Contents(r.vec) == Contents(v)[..v.len - 1]
  {
    if v.len <= 0 then
      Popped(v, None)
    else
      var top := v.len - 1;
      var v' := InlineVec(v.slots[top := None], top);
      assert Contents(v') == Contents(v)[..top];
      Popped(v', v.slots[top])
  }

  /** `peek`: the top element, read-only; `None` when empty. */
  function Peek<T>(v: InlineVec<T>): (r: Option<T>)
    requires Valid(v)
    ensures r.None? <==> Contents(v) == []
    ensures r.Some? ==> r.value == Contents(v)[|Contents(v)| - 1]
    ensures r == Pop(v).item
  {
    if v.len <= 0 then None else Some(v.slots[v.len - 1].value)
  }

  /** `get`: element `i`, or `None` when `i >= len`. */
  function Get<T>(v: InlineVec<T>, i: nat): (r: Option<T>)
    requires Valid(v)
    ensures r.None? <==> i >= v.len
    ensures i < v.len ==> r == Some(Contents(v)[i])
  {
    if v.len <= i then None else Some(v.slots[i].value)
  }

  /** `Index` with a single position: in range of the live prefix (out of range panics in the source). */
  function At<T>(v: InlineVec<T>, i: nat): (r: T)
    requires Valid(v) && i < v.len
    ensures Get(v, i) == Some(r)
  {
    v.slots[i].value
  }

  /**
    `Index` with a range: the slice `buffer[..len][lo..hi]`, in range of the
    live prefix.
   */
  function Slice<T>(v: InlineVec<T>, lo: nat, hi: nat): (r: seq<T>)
    requires Valid(v) && lo <= hi <= v.len
    ensures |r| == hi - lo
    ensures forall k :: 0 <= k < |r| ==> Get(v, lo + k) == Some(r[k])
  {
    seq(hi - lo, k requires 0 <= k < hi - lo => v.slots[lo + k].value)
  }

  /** `Deref`: the whole live prefix as a slice. */
  function AsSlice<T>(v: InlineVec<T>): (r: seq<T>)
    requires Valid(v)
    ensures |r| == v.len
    ensures forall i :: 0 <= i < v.len ==> Get(v, i) == Some(r[i])
  {
    Slice(v, 0, v.len)
  }

  /**
    `IndexMut` followed by an assignment: the element at `i` is replaced and
    the old value dropped.
   */
  function SetAt<T>(v: InlineVec<T>, i: nat, x: T): (r: Replaced<T>)
    requires Valid(v) && i < v.len
    ensures Valid(r.vec) && Capacity(r.vec) == Capacity(v)
    ensures Contents(r.vec) == Contents(v)[i := x]
    ensures r.dropped == Contents(v)[i]
  {
    var v' := InlineVec(v.slots[i := Some(x)], v.len);
    assert Contents(v') == Contents(v)[i := x];
    Replaced(v', v.slots[i].value)
  }

  /**
    `Drop`: destroys the elements at indices `0 .. len`, in order, touching
    only initialised slots, each once.
   */
  method DropAll<T>(v: InlineVec<T>) returns (dropped: seq<T>)
    requires Valid(v)
    ensures dropped == Contents(v)
    ensures forall i :: 0 <= i < |v.slots| && v.slots[i].Some? ==> i < |dropped| && dropped[i] == v.slots[i].value
  {
    dropped := [];
    var i := 0;
    while i < v.len
      invariant i <= v.len
      invariant dropped == Contents(v)[..i]
    {
      dropped := dropped + [v.slots[i].value];
      i := i + 1;
    }
  }

  // ---------------------------------------------------------------------------
  // Laws

  /** `push(x)` then `pop()` on a stack with room returns `x` and restores the prior state exactly. */
  lemma PushPopRoundTrip<T>(v: InlineVec<T>, x: T)
    requires Valid(v) && v.len < Capacity(v)
    ensures Pop(Push(v, x).vec) == Popped(v, Some(x))
  {
    var v1 := Push(v, x).vec;
    assert v1.slots[v.len := None] == v.slots;
  }

  /** One operation a client can apply to the stack. */
  datatype Op<T> = PushOp(x: T) | PopOp

  /**
    The outcome of a history: the final stack, the items whose push was
    refused (dropped at the end of `push`), and the items popped (moved out
    to the caller, who owns and destroys them).
   */
  datatype Run<T> = Run(vec: InlineVec<T>, refused: seq<T>, popped: seq<T>)

  function PushOf<T>(op: Op<T>): seq<T> {
    if op.PushOp? then [op.x] else []
  }

  function Pushes<T>(ops: seq<Op<T>>): seq<T> {
    if ops == [] then [] else PushOf(ops[0]) + Pushes(ops[1..])
  }

  function ApplyOp<T>(v: InlineVec<T>, op: Op<T>): (r: Run<T>)
    requires Valid(v)
    ensures Valid(r.vec) && Capacity(r.vec) == Capacity(v)
  {
    match op
    case PushOp(x) =>
      var p := Push(v, x);
      Run(p.vec, if p.ok then [] else [x], [])
    case PopOp =>
      var p := Pop(v);
      Run(p.vec, [], if p.item.Some? then [p.item.value] else [])
  }

  function RunOps<T>(v: InlineVec<T>, ops: seq<Op<T>>): (r: Run<T>)
    requires Valid(v)
    ensures Valid(r.vec) && Capacity(r.vec) == Capacity(v)
    decreases |ops|
  {
    if ops == [] then
      Run(v, [], [])
    else
      var first := ApplyOp(v, ops[0]);
      var rest := RunOps(first.vec, ops[1..]);
      Run(rest.vec, first.refused + rest.refused, first.popped + rest.popped)
  }

  lemma ApplyOpConserves<T>(v: InlineVec<T>, op: Op<T>)
    requires Valid(v)
    ensures var r := ApplyOp(v, op);
      multiset(Contents(v)) + multiset(PushOf(op))
        == multiset(r.refused) + multiset(r.popped) + multiset(Contents(r.vec))
  {
    var r := ApplyOp(v, op);
    var c := Contents(v);
    match op {
      case PushOp(x) =>
        if Push(v, x).ok {
          assert multiset(c + [x]) == multiset(c) + multiset([x]);
        }
      case PopOp =>
        if c != [] {
          assert c == Contents(r.vec) + r.popped;
          assert multiset(Contents(r.vec) + r.popped) == multiset(Contents(r.vec)) + multiset(r.popped);
        }
    }
  }

  /** For any history, every item pushed is at the end exactly once refused, popped, or still held. */
  lemma {:induction false} RunOpsConserves<T>(v: InlineVec<T>, ops: seq<Op<T>>)
    requires Valid(v)
    ensures var r := RunOps(v, ops);
      multiset(Contents(v)) + multiset(Pushes(ops))
        == multiset(r.refused) + multiset(r.popped) + multiset(Contents(r.vec))
    decreases |ops|
  {
    if ops != [] {
      var first := ApplyOp(v, ops[0]);
      var rest := RunOps(first.vec, ops[1..]);
      ApplyOpConserves(v, ops[0]);
      RunOpsConserves(first.vec, ops[1..]);
      Chain(Contents(v), PushOf(ops[0]), first.refused, first.popped, Contents(first.vec),
            Pushes(ops[1..]), rest.refused, rest.popped, Contents(rest.vec));
    }
  }

  /**
    Drop-exactly-once: after any history on a fresh stack followed by its
    `Drop` (which destroys `Contents`, see `DropAll`), every distinct pushed
    marker was destroyed exactly once.
   */
  lemma DropExactlyOnce<T>(n: nat, ops: seq<Op<T>>, x: T)
    requires Distinct(Pushes(ops)) && x in Pushes(ops)
    ensures var r := RunOps(New(n), ops);
      IsProperlyDropped(r.refused + r.popped + Contents(r.vec), x)
  {
    var r := RunOps(New(n), ops);
    RunOpsConserves(New(n), ops);
    assert multiset(r.refused + r.popped + Contents(r.vec))
      == multiset(r.refused) + multiset(r.popped) + multiset(Contents(r.vec));
    ConservedMeansProperlyDropped(Pushes(ops), r.refused + r.popped + Contents(r.vec), x);
  }
}
