/**
  `InlineRingBuf<T, N>`: a fixed-capacity deque stored in `N` inline slots,
  with a live count `len` and a rotation `offset`. Logical index `i` lives in
  physical slot `(offset + i) % N`.

  Physical slots are modelled as `Option<T>`: `None` is an uninitialised (or
  moved-out) slot, `Some(v)` a slot holding a live value. The abstraction
  function `Contents` maps a buffer to the sequence of its live elements in
  logical order. Destructor calls are made visible as results: every push
  reports the element it evicted, and `DropAll` reports what the buffer's
  `Drop` destroys.
 */
module InlineRingBuffer {
  import opened Wrappers
  import opened Seqs
  import opened DropLog

  datatype RingBuf<T> = RingBuf(slots: seq<Option<T>>, len: nat, offset: nat)

  /** A buffer after a push, and the element the push evicted (dropped), if any. */
  datatype Pushed<T> = Pushed(buf: RingBuf<T>, dropped: Option<T>)

  /** A buffer after a pop, and the element moved out to the caller, if any. */
  datatype Popped<T> = Popped(buf: RingBuf<T>, item: Option<T>)

  /** A buffer after an assignment through `IndexMut`, and the old value it dropped. */
  datatype Replaced<T> = Replaced(buf: RingBuf<T>, dropped: T)

  /** `capacity`: the number of slots `N`, which bounds the live count. */
  function Capacity<T>(b: RingBuf<T>): (r: nat)
    ensures Valid(b) ==> 0 < r && b.len <= r && b.offset < r
  {
    |b.slots|
  }

  /**
    The private `index`: physical slot of logical index `i`, that is
    `(offset + i) % N` (see `SlotIsModular`). Every call the model admits
    passes a logical index below `N` (`Index`/`IndexMut` are restricted by
    their `requires`), so the remainder is at most one subtraction.
   */
  function Slot<T>(b: RingBuf<T>, i: nat): (p: nat)
    requires b.offset < |b.slots| && i < |b.slots|
    ensures p < |b.slots|
  {
    if b.offset + i < |b.slots| then b.offset + i else b.offset + i - |b.slots|
  }

  /**
    The representation invariant: `0 < N`, `len <= N`, `offset < N`, and a
    physical slot is initialised exactly when it is reachable from a logical
    index below `len`.
   */
  predicate Valid<T>(b: RingBuf<T>) {
    && |b.slots| > 0
    && b.len <= |b.slots|
    && b.offset < |b.slots|
    && forall i: nat :: i < |b.slots| ==> (b.slots[Slot(b, i)].Some? <==> i < b.len)
  }

  /** Abstraction function: the live elements in logical order. */
  function Contents<T>(b: RingBuf<T>): (s: seq<T>)
    requires Valid(b)
    ensures |s| == b.len
  {
    seq(b.len, i requires 0 <= i < b.len => b.slots[Slot(b, i)].value)
  }

  function IsFull<T>(b: RingBuf<T>): bool {
    b.len >= |b.slots|
  }

  function IsEmpty<T>(b: RingBuf<T>): (r: bool)
    requires Valid(b)
    ensures r <==> Contents(b) == []
  {
    b.len <= 0
  }

  // ---------------------------------------------------------------------------
  // Ring-index arithmetic

  /** Below `2 * n`, `% n` is at most one subtraction. */
  lemma Wrap(x: nat, n: nat)
    requires 0 < n && x < 2 * n
    ensures x % n == if x < n then x else x - n
  {
    if x >= n {
      assert x == n + (x - n);
      assert (x - n) % n == x - n;
    }
  }

  /** `Slot` is the source's `(offset + i) % N`. */
  lemma SlotIsModular<T>(b: RingBuf<T>, i: nat)
    requires b.offset < |b.slots| && i < |b.slots|
    ensures Slot(b, i) == (b.offset + i) % |b.slots|
  {
    Wrap(b.offset + i, |b.slots|);
  }

  /** Over logical indices below `N`, `Slot` is injective. */
  lemma SlotInjective<T>(b: RingBuf<T>)
    requires b.offset < |b.slots|
    ensures forall i: nat, j: nat :: i < |b.slots| && j < |b.slots| && Slot(b, i) == Slot(b, j) ==> i == j
  {
  }

  /** The inverse of `Slot`: the logical index that lives in physical slot `p`. */
  function Logical<T>(b: RingBuf<T>, p: nat): (i: nat)
    requires b.offset < |b.slots| && p < |b.slots|
    ensures i < |b.slots| && Slot(b, i) == p
  {
    if p >= b.offset then p - b.offset else p + |b.slots| - b.offset
  }

  /** A full buffer has every physical slot initialised. */
  lemma FullIsAllLive<T>(b: RingBuf<T>)
    requires Valid(b) && IsFull(b)
    ensures forall p :: 0 <= p < |b.slots| ==> b.slots[p].Some?
  {
    forall p | 0 <= p < |b.slots|
      ensures b.slots[p].Some?
    {
      var i := Logical(b, p);
    }
  }

  /** `increment_offset`: advance the rotation by one, wrapping at `N`. */
  function IncrementOffset(offset: nat, n: nat): (r: nat)
    requires offset < n
    ensures r == (offset + 1) % n
  {
    Wrap(offset + 1, n);
    var next := offset + 1;
    if next >= n then 0 else next
  }

  /** `decrement_offset`: move the rotation back by one, wrapping at `N`. */
  function DecrementOffset(offset: nat, n: nat): (r: nat)
    requires offset < n
    ensures r == (offset + n - 1) % n
  {
    Wrap(offset + n - 1, n);
    if offset <= 0 then n - 1 else offset - 1
  }

  /** After `increment_offset`, logical index `i` is what was logical index `i + 1`. */
  lemma RotateForward<T>(b: RingBuf<T>, b': RingBuf<T>)
    requires b.offset < |b.slots| && |b'.slots| == |b.slots|
    requires b'.offset == IncrementOffset(b.offset, |b.slots|)
    ensures forall i: nat :: i + 1 < |b.slots| ==> Slot(b', i) == Slot(b, i + 1)
    ensures Slot(b', |b.slots| - 1) == Slot(b, 0)
  {
  }

  /** After `decrement_offset`, logical index `i + 1` is what was logical index `i`. */
  lemma RotateBack<T>(b: RingBuf<T>, b': RingBuf<T>)
    requires b.offset < |b.slots| && |b'.slots| == |b.slots|
    requires b'.offset == DecrementOffset(b.offset, |b.slots|)
    ensures forall i: nat :: i + 1 < |b.slots| ==> Slot(b', i + 1) == Slot(b, i)
    ensures Slot(b', 0) == Slot(b, |b.slots| - 1) == b'.offset
  {
  }

  // ---------------------------------------------------------------------------
  // Construction

  /** `new`: every slot uninitialised. */
  function New<T>(n: nat): (b: RingBuf<T>)
    requires n > 0
    ensures Valid(b) && Capacity(b) == n
    ensures Contents(b) == [] && b.offset == 0
  {
    RingBuf(seq(n, _ => None), 0, 0)
  }

  /** `From<[T; N]>`: all `N` slots live, rotation zero, logical order = array order. */
  function FromArray<T>(items: seq<T>): (b: RingBuf<T>)
    requires |items| > 0
    ensures Valid(b) && Capacity(b) == |items|
    ensures b.len == |items| && b.offset == 0
    ensures Contents(b) == items
  {
    var b := RingBuf(seq(|items|, i requires 0 <= i < |items| => Some(items[i])), |items|, 0);
    b
  }

  // ---------------------------------------------------------------------------
  // Pushes and pops

  /**
    `push_head`: append at the back. When full, the front element is dropped,
    its slot receives the new item and the rotation advances, so the new item
    becomes the last logical element.
   */
  function PushHead<T>(b: RingBuf<T>, x: T): (r: Pushed<T>)
    requires Valid(b)
    ensures Valid(r.buf) && Capacity(r.buf) == Capacity(b)
    ensures !IsFull(b) ==> Contents(r.buf) == Contents(b) + [x] && r.dropped == None
    ensures IsFull(b) ==> Contents(r.buf) == Contents(b)[1..] + [x] && r.dropped == Some(Contents(b)[0])
  {
    if IsFull(b) then
      var b' := RingBuf(b.slots[b.offset := Some(x)], b.len, IncrementOffset(b.offset, |b.slots|));
      PushHeadFullShape(b, x, b');
      Pushed(b', b.slots[b.offset])
    else
      var b' := RingBuf(b.slots[Slot(b, b.len) := Some(x)], b.len + 1, b.offset);
      PushHeadRoomShape(b, x, b');
      Pushed(b', None)
  }

  lemma PushHeadFullShape<T>(b: RingBuf<T>, x: T, b': RingBuf<T>)
    requires Valid(b) && IsFull(b)
    requires b' == RingBuf(b.slots[b.offset := Some(x)], b.len, IncrementOffset(b.offset, |b.slots|))
    ensures Valid(b') && Contents(b') == Contents(b)[1..] + [x]
    ensures b.slots[b.offset] == Some(Contents(b)[0])
  {
    SlotInjective(b);
    FullIsAllLive(b);
    RotateForward(b, b');
    assert Slot(b, 0) == b.offset;
    assert forall i: nat :: i < |b.slots| ==> b'.slots[Slot(b', i)].Some?;
    assert Contents(b') == Contents(b)[1..] + [x];
  }

  lemma PushHeadRoomShape<T>(b: RingBuf<T>, x: T, b': RingBuf<T>)
    requires Valid(b) && !IsFull(b)
    requires b' == RingBuf(b.slots[Slot(b, b.len) := Some(x)], b.len + 1, b.offset)
    ensures Valid(b') && Contents(b') == Contents(b) + [x]
  {
    SlotInjective(b);
    assert forall i: nat :: i < |b.slots| ==> Slot(b', i) == Slot(b, i);
    assert Contents(b') == Contents(b) + [x];
  }

  /** `pop_head`: remove and return the back element; `None` and no change when empty. */
  function PopHead<T>(b: RingBuf<T>): (r: Popped<T>)
    requires Valid(b)
    ensures Valid(r.buf) && Capacity(r.buf) == Capacity(b)
    ensures b.len == 0 ==> r == Popped(b, None)
    ensures b.len > 0 ==>
      && Contents(r.buf) == Contents(b)[..b.len - 1]
      && r.item == Some(Contents(b)[b.len - 1])
  {
    if b.len <= 0 then
      Popped(b, None)
    else
      SlotInjective(b);
      var p := Slot(b, b.len - 1);
      var b' := RingBuf(b.slots[p := None], b.len - 1, b.offset);
      assert forall i: nat :: i < |b.slots| ==> Slot(b', i) == Slot(b, i);
      assert Contents(b') == Contents(b)[..b.len - 1];
      Popped(b', b.slots[p])
  }

  /**
    `push_tail`: prepend at the front. When full, the back element is dropped,
    its slot receives the new item and the rotation moves back, so the new
    item becomes logical index 0.
   */
  function PushTail<T>(b: RingBuf<T>, x: T): (r: Pushed<T>)
    requires Valid(b)
    ensures Valid(r.buf) && Capacity(r.buf) == Capacity(b)
    ensures !IsFull(b) ==> Contents(r.buf) == [x] + Contents(b) && r.dropped == None
    ensures IsFull(b) ==>
      && Contents(r.buf) == [x] + Contents(b)[..b.len - 1]
      && r.dropped == Some(Contents(b)[b.len - 1])
  {
    var n := |b.slots|;
    var offset := DecrementOffset(b.offset, n);
    if IsFull(b) then
      var p := Slot(b, b.len - 1);
      var b' := RingBuf(b.slots[p := Some(x)], b.len, offset);
      PushTailFullShape(b, x, b');
      Pushed(b', b.slots[p])
    else
      var b' := RingBuf(b.slots[offset := Some(x)], b.len + 1, offset);
      PushTailRoomShape(b, x, b');
      Pushed(b', None)
  }

  lemma PushTailFullShape<T>(b: RingBuf<T>, x: T, b': RingBuf<T>)
    requires Valid(b) && IsFull(b)
    requires b' == RingBuf(b.slots[Slot(b, b.len - 1) := Some(x)], b.len, DecrementOffset(b.offset, |b.slots|))
    ensures Valid(b') && Contents(b') == [x] + Contents(b)[..b.len - 1]
  {
    var n := |b.slots|;
    FullIsAllLive(b);
    RotateBack(b, b');
    forall i: nat | i < n
      ensures b'.slots[Slot(b', i)].Some?
    {
    }
    assert Valid(b');
    forall i | 0 < i < n
      ensures Contents(b')[i] == Contents(b)[i - 1]
    {
      assert Slot(b', (i - 1) + 1) == Slot(b, i - 1);
      SlotInjective(b);
    }
    assert Contents(b') == [x] + Contents(b)[..b.len - 1];
  }

  lemma PushTailRoomShape<T>(b: RingBuf<T>, x: T, b': RingBuf<T>)
    requires Valid(b) && !IsFull(b)
    requires b'.offset == DecrementOffset(b.offset, |b.slots|)
    requires b' == RingBuf(b.slots[b'.offset := Some(x)], b.len + 1, b'.offset)
    ensures Valid(b') && Contents(b') == [x] + Contents(b)
  {
    var n := |b.slots|;
    RotateBack(b, b');
    SlotInjective(b);
    forall i: nat | i < n
      ensures b'.slots[Slot(b', i)].Some? <==> i < b'.len
    {
      if i > 0 {
        assert Slot(b', (i - 1) + 1) == Slot(b, i - 1);
      }
    }
    assert Valid(b');
    forall i | 0 < i < b'.len
      ensures Contents(b')[i] == Contents(b)[i - 1]
    {
      assert Slot(b', (i - 1) + 1) == Slot(b, i - 1);
    }
    assert Contents(b') == [x] + Contents(b);
  }

  /** `pop_tail`: remove and return the front element; `None` and no change when empty. */
  function PopTail<T>(b: RingBuf<T>): (r: Popped<T>)
    requires Valid(b)
    ensures Valid(r.buf) && Capacity(r.buf) == Capacity(b)
    ensures b.len == 0 ==> r == Popped(b, None)
    ensures b.len > 0 ==> Contents(r.buf) == Contents(b)[1..] && r.item == Some(Contents(b)[0])
  {
    if b.len <= 0 then
      Popped(b, None)
    else
      SlotInjective(b);
      var n := |b.slots|;
      var p := Slot(b, 0);
      var b' := RingBuf(b.slots[p := None], b.len - 1, IncrementOffset(b.offset, n));
      RotateForward(b, b');
      assert Contents(b') == Contents(b)[1..];
      Popped(b', b.slots[p])
  }

  // ---------------------------------------------------------------------------
  // Access

  /** `get`: the element at logical index `i`, or `None` when `i >= len`. */
  function Get<T>(b: RingBuf<T>, i: nat): (r: Option<T>)
    requires Valid(b)
    ensures r.None? <==> i >= b.len
    ensures i < b.len ==> r == Some(Contents(b)[i])
  {
    if b.len <= i then None else Some(b.slots[Slot(b, i)].value)
  }

  /**
    `Index`: unchecked access. The source does not compare `i` with `len`;
    here in-range use is a precondition.
   */
  function At<T>(b: RingBuf<T>, i: nat): (r: T)
    requires Valid(b) && i < b.len
    ensures Get(b, i) == Some(r)
  {
    b.slots[Slot(b, i)].value
  }

  /**
    `IndexMut` followed by an assignment: the element at logical index `i`
    is replaced, and the old value is dropped.
   */
  function SetAt<T>(b: RingBuf<T>, i: nat, x: T): (r: Replaced<T>)
    requires Valid(b) && i < b.len
    ensures Valid(r.buf) && Capacity(r.buf) == Capacity(b)
    ensures Contents(r.buf) == Contents(b)[i := x]
    ensures r.dropped == Contents(b)[i]
  {
    SlotInjective(b);
    var p := Slot(b, i);
    var b' := RingBuf(b.slots[p := Some(x)], b.len, b.offset);
    assert forall j: nat :: j < |b.slots| ==> Slot(b', j) == Slot(b, j);
    assert Contents(b') == Contents(b)[i := x];
    Replaced(b', b.slots[p].value)
  }

  // ---------------------------------------------------------------------------
  // Iteration

  /** `InlineRingBufIter`: a borrowed buffer and the next logical index. */
  datatype Iter<T> = Iter(buf: RingBuf<T>, index: nat)

  /** An iterator result: the advanced iterator and the item it yielded. */
  datatype Stepped<T> = Stepped(iter: Iter<T>, item: Option<T>)

  predicate IterValid<T>(it: Iter<T>) {
    Valid(it.buf) && it.index <= it.buf.len
  }

  /** `iter`: an iterator over the whole buffer, starting at logical index 0. */
  function MakeIter<T>(b: RingBuf<T>): (it: Iter<T>)
    requires Valid(b)
    ensures IterValid(it) && it.buf == b && SizeHint(it) == |Contents(b)|
    ensures b.len > 0 ==> IterNext(it).item == Some(Contents(b)[0])
  {
    Iter(b, 0)
  }

  /** `size_hint`: the number of elements still to be yielded. */
  function SizeHint<T>(it: Iter<T>): (r: nat)
    requires IterValid(it)
    ensures r == |Contents(it.buf)[it.index..]|
  {
    it.buf.len - it.index
  }

  /** `next`: yields `get(index)` and advances only when it was present. */
  function IterNext<T>(it: Iter<T>): (r: Stepped<T>)
    requires IterValid(it)
    ensures IterValid(r.iter) && r.iter.buf == it.buf
    ensures SizeHint(it) > 0 ==>
      r.item == Some(Contents(it.buf)[it.index]) && SizeHint(r.iter) == SizeHint(it) - 1
    ensures SizeHint(it) == 0 ==> r.item == None && r.iter == it
  {
    var result := Get(it.buf, it.index);
    if result.Some? then Stepped(Iter(it.buf, it.index + 1), result) else Stepped(it, result)
  }

  /**
    Running the iterator to exhaustion yields exactly `get(0) .. get(len - 1)`
    in order, and the size hint always equals the remaining count.
   */
  method Collect<T>(b: RingBuf<T>) returns (items: seq<T>)
    requires Valid(b)
    ensures items == Contents(b)
    ensures forall i :: 0 <= i < |items| ==> Get(b, i) == Some(items[i])
  {
    var it := MakeIter(b);
    items := [];
    var done := false;
    while !done
      invariant IterValid(it) && it.buf == b
      invariant items == Contents(b)[..it.index]
      invariant done ==> it.index == b.len
      decreases SizeHint(it), !done
    {
      var step := IterNext(it);
      match step.item {
        case None =>
          done := true;
        case Some(v) =>
          items := items + [v];
      }
      it := step.iter;
    }
  }

  // ---------------------------------------------------------------------------
  // Destruction

  /**
    `Drop`: destroys the elements at logical indices `0 .. len`, in order.
    `dropped` is what was destroyed, `touched` the physical slots visited:
    each initialised slot exactly once, and no uninitialised slot.
   */
  method DropAll<T>(b: RingBuf<T>) returns (dropped: seq<T>, touched: seq<nat>)
    requires Valid(b)
    ensures dropped == Contents(b)
    ensures |touched| == b.len
    ensures forall k :: 0 <= k < |touched| ==> touched[k] < Capacity(b) && b.slots[touched[k]].Some?
    ensures forall p: nat :: p < Capacity(b) && b.slots[p].Some? ==> p in touched
    ensures forall j, k :: 0 <= j < k < |touched| ==> touched[j] != touched[k]
  {
    SlotInjective(b);
    dropped := [];
    touched := [];
    var i := 0;
    while i < b.len
      invariant i <= b.len
      invariant dropped == Contents(b)[..i]
      invariant |touched| == i
      invariant forall k :: 0 <= k < i ==> touched[k] == Slot(b, k)
    {
      var p := Slot(b, i);
      dropped := dropped + [b.slots[p].value];
      touched := touched + [p];
      i := i + 1;
    }
    forall p: nat | p < Capacity(b) && b.slots[p].Some?
      ensures p in touched
    {
      var j := Logical(b, p);
      assert touched[j] == p;
    }
  }

  // ---------------------------------------------------------------------------
  // Whole-history laws

  /** A reported drop as a (zero- or one-element) log. */
  function LogOf<T>(o: Option<T>): (log: seq<T>)
    ensures o.None? ==> log == []
    ensures o.Some? ==> log == [o.value]
  {
    match o
    case None => []
    case Some(v) => [v]
  }

  /** A buffer after a series of pushes, and everything evicted on the way, in order. */
  datatype Filled<T> = Filled(buf: RingBuf<T>, evicted: seq<T>)

  /** `push_head` every item of `s`, first to last. */
  function PushHeadAll<T>(b: RingBuf<T>, s: seq<T>): (r: Filled<T>)
    requires Valid(b)
    ensures Valid(r.buf) && Capacity(r.buf) == Capacity(b)
    decreases |s|
  {
    if s == [] then
      Filled(b, [])
    else
      var step := PushHead(b, s[0]);
      var rest := PushHeadAll(step.buf, s[1..]);
      Filled(rest.buf, LogOf(step.dropped) + rest.evicted)
  }

  /** `push_tail` every item of `s`, first to last. */
  function PushTailAll<T>(b: RingBuf<T>, s: seq<T>): (r: Filled<T>)
    requires Valid(b)
    ensures Valid(r.buf) && Capacity(r.buf) == Capacity(b)
    decreases |s|
  {
    if s == [] then
      Filled(b, [])
    else
      var step := PushTail(b, s[0]);
      var rest := PushTailAll(step.buf, s[1..]);
      Filled(rest.buf, LogOf(step.dropped) + rest.evicted)
  }

  /** The sequence bookkeeping of one induction step of the history laws. */
  lemma Splice<T>(log: seq<T>, evicted: seq<T>, held: seq<T>, mid: seq<T>, before: seq<T>, s: seq<T>)
    requires |s| > 0
    requires evicted + held == mid + s[1..]
    requires log + mid == before + [s[0]]
    ensures log + evicted + held == before + s
  {
    calc {
      log + evicted + held;
      log + (mid + s[1..]);
      (log + mid) + s[1..];
      before + [s[0]] + s[1..];
      { assert s == [s[0]] + s[1..]; }
      before + s;
    }
  }

  /** One `push_head`: the evicted element (if any) followed by the new contents is the old contents plus `x`. */
  lemma PushHeadStep<T>(b: RingBuf<T>, x: T)
    requires Valid(b)
    ensures LogOf(PushHead(b, x).dropped) + Contents(PushHead(b, x).buf) == Contents(b) + [x]
    ensures PushHead(b, x).buf.len == Min(Capacity(b), b.len + 1)
  {
    var c := Contents(b);
    if IsFull(b) {
      assert c == [c[0]] + c[1..];
    }
  }

  /** One `push_tail`, seen through the reversed contents. */
  lemma PushTailStep<T>(b: RingBuf<T>, x: T)
    requires Valid(b)
    ensures LogOf(PushTail(b, x).dropped) + Reverse(Contents(PushTail(b, x).buf)) == Reverse(Contents(b)) + [x]
    ensures PushTail(b, x).buf.len == Min(Capacity(b), b.len + 1)
  {
    var c := Contents(b);
    var c1 := Contents(PushTail(b, x).buf);
    if IsFull(b) {
      assert c1 == [x] + c[..|c| - 1];
      assert Reverse(c) == [c[|c| - 1]] + Reverse(c[..|c| - 1]);
      assert Reverse(c1) == Reverse(c[..|c| - 1]) + [x];
    } else {
      assert Reverse(c1) == Reverse(c) + [x];
    }
  }

  /**
    Pushing at the back never loses or reorders anything: what was evicted,
    followed by what is still held, is exactly the old contents followed by
    the pushed items; the buffer holds `min(N, len + |s|)` of them.
   */
  lemma {:induction false} PushHeadAllConserves<T>(b: RingBuf<T>, s: seq<T>)
    requires Valid(b)
    ensures PushHeadAll(b, s).evicted + Contents(PushHeadAll(b, s).buf) == Contents(b) + s
    ensures PushHeadAll(b, s).buf.len == Min(Capacity(b), b.len + |s|)
    decreases |s|
  {
    if s != [] {
      var step := PushHead(b, s[0]);
      PushHeadStep(b, s[0]);
      PushHeadAllConserves(step.buf, s[1..]);
      var rest := PushHeadAll(step.buf, s[1..]);
      Splice(LogOf(step.dropped), rest.evicted, Contents(rest.buf), Contents(step.buf), Contents(b), s);
    }
  }

  /**
    Pushing at the front mirrors `PushHeadAllConserves` on the reversed
    contents: evictions come off the back, oldest push first.
   */
  lemma {:induction false} PushTailAllConserves<T>(b: RingBuf<T>, s: seq<T>)
    requires Valid(b)
    ensures PushTailAll(b, s).evicted + Reverse(Contents(PushTailAll(b, s).buf)) == Reverse(Contents(b)) + s
    ensures PushTailAll(b, s).buf.len == Min(Capacity(b), b.len + |s|)
    decreases |s|
  {
    if s != [] {
      var step := PushTail(b, s[0]);
      PushTailStep(b, s[0]);
      PushTailAllConserves(step.buf, s[1..]);
      var rest := PushTailAll(step.buf, s[1..]);
      Splice(LogOf(step.dropped), rest.evicted, Reverse(Contents(rest.buf)), Reverse(Contents(step.buf)), Reverse(Contents(b)), s);
    }
  }

  /**
    Starting empty, `push_head` of every item of `s` leaves the last
    `min(N, |s|)` items in push order; the earlier ones were evicted, in order.
   */
  lemma PushHeadAllKeepsLast<T>(n: nat, s: seq<T>)
    requires n > 0
    ensures var k := Min(n, |s|);
      && Contents(PushHeadAll(New(n), s).buf) == s[|s| - k..]
      && PushHeadAll(New(n), s).evicted == s[..|s| - k]
  {
    PushHeadAllConserves(New<T>(n), s);
    var r := PushHeadAll(New<T>(n), s);
    SplitAt(r.evicted, Contents(r.buf), s);
  }

  /**
    Starting empty, `push_tail` of every item of `s` leaves the last
    `min(N, |s|)` items in reverse push order; the earlier ones were evicted, in order.
   */
  lemma PushTailAllKeepsLastReversed<T>(n: nat, s: seq<T>)
    requires n > 0
    ensures var k := Min(n, |s|);
      && Contents(PushTailAll(New(n), s).buf) == Reverse(s[|s| - k..])
      && PushTailAll(New(n), s).evicted == s[..|s| - k]
  {
    PushTailAllConserves(New<T>(n), s);
    var r := PushTailAll(New<T>(n), s);
    var k := Min(n, |s|);
    SplitAt(r.evicted, Reverse(Contents(r.buf)), s);
    ReverseReverse(Contents(r.buf));
  }

  /** One operation a client can apply to the deque. */
  datatype Op<T> = PushHeadOp(x: T) | PushTailOp(x: T) | PopHeadOp | PopTailOp

  /**
    The outcome of a history of operations: the final buffer, the elements
    evicted (destroyed by the buffer) and the elements popped (moved out to
    the caller, who owns and destroys them).
   */
  datatype Run<T> = Run(buf: RingBuf<T>, evicted: seq<T>, popped: seq<T>)

  /** The item an operation pushes, if it is a push. */
  function PushOf<T>(op: Op<T>): seq<T> {
    if op.PushHeadOp? || op.PushTailOp? then [op.x] else []
  }

  /** The items a history pushes, in order. */
  function Pushes<T>(ops: seq<Op<T>>): seq<T> {
    if ops == [] then [] else PushOf(ops[0]) + Pushes(ops[1..])
  }

  function ApplyOp<T>(b: RingBuf<T>, op: Op<T>): (r: Run<T>)
    requires Valid(b)
    ensures Valid(r.buf) && Capacity(r.buf) == Capacity(b)
  {
    match op
    case PushHeadOp(x) => var p := PushHead(b, x); Run(p.buf, LogOf(p.dropped), [])
    case PushTailOp(x) => var p := PushTail(b, x); Run(p.buf, LogOf(p.dropped), [])
    case PopHeadOp => var p := PopHead(b); Run(p.buf, [], LogOf(p.item))
    case PopTailOp => var p := PopTail(b); Run(p.buf, [], LogOf(p.item))
  }

  function RunOps<T>(b: RingBuf<T>, ops: seq<Op<T>>): (r: Run<T>)
    requires Valid(b)
    ensures Valid(r.buf) && Capacity(r.buf) == Capacity(b)
    decreases |ops|
  {
    if ops == [] then
      Run(b, [], [])
    else
      var first := ApplyOp(b, ops[0]);
      var rest := RunOps(first.buf, ops[1..]);
      Run(rest.buf, first.evicted + rest.evicted, first.popped + rest.popped)
  }

  /** Multiset bookkeeping of one step: whatever left equals what came in. */
  lemma Moved<T>(out: seq<T>, after: seq<T>, before: seq<T>, incoming: seq<T>)
    requires out + after == before + incoming
    ensures multiset(before) + multiset(incoming) == multiset(out) + multiset(after)
  {
    assert multiset(out + after) == multiset(before + incoming);
  }

  lemma PushHeadConserves<T>(b: RingBuf<T>, x: T)
    requires Valid(b)
    ensures var r := ApplyOp(b, PushHeadOp(x));
      multiset(Contents(b)) + multiset([x]) == multiset(r.evicted) + multiset(r.popped) + multiset(Contents(r.buf))
  {
    var r := ApplyOp(b, PushHeadOp(x));
    PushHeadStep(b, x);
    Moved(r.evicted, Contents(r.buf), Contents(b), [x]);
  }

  lemma PushTailConserves<T>(b: RingBuf<T>, x: T)
    requires Valid(b)
    ensures var r := ApplyOp(b, PushTailOp(x));
      multiset(Contents(b)) + multiset([x]) == multiset(r.evicted) + multiset(r.popped) + multiset(Contents(r.buf))
  {
    var r := ApplyOp(b, PushTailOp(x));
    PushTailStep(b, x);
    Moved(r.evicted, Reverse(Contents(r.buf)), Reverse(Contents(b)), [x]);
    MultisetReverse(Contents(b));
    MultisetReverse(Contents(r.buf));
  }

  lemma PopHeadConserves<T>(b: RingBuf<T>)
    requires Valid(b)
    ensures var r := ApplyOp(b, PopHeadOp);
      multiset(Contents(b)) == multiset(r.evicted) + multiset(r.popped) + multiset(Contents(r.buf))
  {
    var r := ApplyOp(b, PopHeadOp);
    var c := Contents(b);
    if c != [] {
      assert Contents(r.buf) + r.popped == c;
      assert multiset(Contents(r.buf) + r.popped) == multiset(c);
    }
  }

  lemma PopTailConserves<T>(b: RingBuf<T>)
    requires Valid(b)
    ensures var r := ApplyOp(b, PopTailOp);
      multiset(Contents(b)) == multiset(r.evicted) + multiset(r.popped) + multiset(Contents(r.buf))
  {
    var r := ApplyOp(b, PopTailOp);
    var c := Contents(b);
    if c != [] {
      assert r.popped + Contents(r.buf) == c;
      assert multiset(r.popped + Contents(r.buf)) == multiset(c);
    }
  }

  /** One operation moves elements between "held", "pushed", "evicted" and "popped" without loss. */
  lemma ApplyOpConserves<T>(b: RingBuf<T>, op: Op<T>)
    requires Valid(b)
    ensures var r := ApplyOp(b, op);
      multiset(Contents(b)) + multiset(PushOf(op))
        == multiset(r.evicted) + multiset(r.popped) + multiset(Contents(r.buf))
  {
    match op {
      case PushHeadOp(x) => PushHeadConserves(b, x);
      case PushTailOp(x) => PushTailConserves(b, x);
      case PopHeadOp => PopHeadConserves(b);
      case PopTailOp => PopTailConserves(b);
    }
  }

  /**
    Drop conservation for any history: everything the buffer ever held is,
    at the end, exactly once either evicted, popped, or still held.
   */
  lemma {:induction false} RunOpsConserves<T>(b: RingBuf<T>, ops: seq<Op<T>>)
    requires Valid(b)
    ensures var r := RunOps(b, ops);
      multiset(Contents(b)) + multiset(Pushes(ops))
        == multiset(r.evicted) + multiset(r.popped) + multiset(Contents(r.buf))
    decreases |ops|
  {
    if ops != [] {
      var first := ApplyOp(b, ops[0]);
      var rest := RunOps(first.buf, ops[1..]);
      ApplyOpConserves(b, ops[0]);
      RunOpsConserves(first.buf, ops[1..]);
      Chain(Contents(b), PushOf(ops[0]), first.evicted, first.popped, Contents(first.buf),
            Pushes(ops[1..]), rest.evicted, rest.popped, Contents(rest.buf));
    }
  }

  /**
    Drop-exactly-once: after any history on a fresh buffer, followed by the
    buffer's own `Drop` (which destroys `Contents`, see `DropAll`), every
    distinct pushed marker was destroyed exactly once, neither leaked nor
    destroyed twice.
   */
  lemma DropExactlyOnce<T>(n: nat, ops: seq<Op<T>>, x: T)
    requires n > 0
    requires Distinct(Pushes(ops)) && x in Pushes(ops)
    ensures var r := RunOps(New(n), ops);
      IsProperlyDropped(r.evicted + r.popped + Contents(r.buf), x)
  {
    var r := RunOps(New(n), ops);
    RunOpsConserves(New(n), ops);
    ConservedMeansProperlyDropped(Pushes(ops), r.evicted + r.popped + Contents(r.buf), x);
  }
}
