# inline-collection and the bundle tokenizer, in Dafny

This project models the heap-free collections of the `inline-collection`
library, together with the pure helpers of the site's bundle build hook.

- **`InlineRingBuf<T, N>`** (module `InlineRingBuffer`) is a fixed-capacity
  deque. It has `N` inline slots, a live count `len` and a rotation
  `offset`, and logical index `i` lives in slot `(offset + i) % N`.
  - `push_head` appends at the back and `push_tail` prepends at the front.
  - On a full buffer, either push overwrites and drops the element at the
    opposite end.
  - `pop_head` and `pop_tail` remove the back and the front element.
  - The slots are `seq<Option<T>>`, and `Contents` maps a buffer to its
    live elements in logical order.
  - Every destructor call is a visible result: a push reports the element
    it evicted, and `DropAll` reports what `Drop` destroys.
- **`InlineVec<T, N>`** (module `InlineVec`) is a fixed-capacity stack.
  `push` refuses when full. The stack also has `pop`, `peek`, `get`,
  indexing and slicing over the live prefix, and `Drop`.
- **`NPeekable<I, N>`** (module `NPeekable`) is an iterator adaptor with up
  to `N` items of lookahead, cached in an `InlineRingBuf`.
  - The source iterator is the finite sequence of items it will still
    produce.
  - The adaptor's `Stream` is its cache followed by the rest of the
    source. Every query leaves the stream unchanged, and `next` removes its
    head.
- **Drop accounting** (module `DropLog`) classifies a marker as leaked,
  properly dropped or illegally dropped when it was destroyed zero, one or
  several times. The library's test watcher uses the same classification.
  The model applies it to the multiset of everything a container evicted,
  handed out or still holds at its `Drop`.
- **Bundle build hook** (module `Bundle`):
  - `split_to_args` splits a step's `run` line into arguments. It is a
    five-state machine, modelled as a left fold over the characters that
    emits spans `[start, end)` of the input.
  - `is_match` chooses the build paths for a profile.
  - `stripped` removes an optional prefix.

These behaviours of the code are easy to misstate. The model follows the
code:

- **`has_exact` below `N`** answers "at least `count` items", not "exactly
  `count` items". The model keeps this behaviour in `NPeekable.HasExact`,
  and "## Findings" records the mismatch.
- **`has_exact`, `has_exact_and` and `starts` from `N` on.** At `count == N`
  they can return `None`. For `count > N` they always return `Some(false)`,
  even when exactly `count` items remain. "## Findings" records this, and
  the `Fixed` members give the corrected answers.
- **Quote after plain text.** Tokens of `split_to_args` do not have strictly
  increasing starts. When a quote follows plain text, the plain prefix is
  emitted, and the quoted token that follows starts at the same offset. So
  starts only never decrease, while ends strictly increase
  (`Bundle.Ordered`).
- **Offsets.** `split_to_args` slices the string by byte offsets. The model
  uses character offsets, which select the same substrings.
- **Whitespace.** `char::is_whitespace` is modelled as the full Unicode
  `White_Space` set, not an ASCII subset.

## Model

| member | source | states |
|---|---|---|
| InlineRingBuffer.SlotIsModular | libraries/inline-collection/src/inline_ring_buffer.rs:107-109 | the slot of logical index `i` is `(offset + i) % N` |
| InlineRingBuffer.IncrementOffset | libraries/inline-collection/src/inline_ring_buffer.rs:111-118 | the new offset is `(offset + 1) % N` and stays below `N` |
| InlineRingBuffer.DecrementOffset | libraries/inline-collection/src/inline_ring_buffer.rs:119-125 | the new offset is `(offset + N - 1) % N` and stays below `N` |
| InlineRingBuffer.Capacity | libraries/inline-collection/src/inline_ring_buffer.rs:27-29 | the slot count `N` of a valid buffer is positive and bounds both the live count and the offset |
| InlineRingBuffer.New | libraries/inline-collection/src/inline_ring_buffer.rs:10-25 | a new buffer of capacity `N` is valid and empty, with offset 0 |
| InlineRingBuffer.FromArray | libraries/inline-collection/src/inline_ring_buffer.rs:157-165 | from an array, `len == N`, `offset == 0`, and the contents are the array in order |
| InlineRingBuffer.PushHead | libraries/inline-collection/src/inline_ring_buffer.rs:30-45 | with room: contents `s` become `s + [x]` and nothing is dropped. When full: `[a0..aN-1]` becomes `[a1..aN-1, x]` and exactly `a0` is dropped. Validity and capacity are kept |
| InlineRingBuffer.PopHead | libraries/inline-collection/src/inline_ring_buffer.rs:47-56 | returns the last element and removes it; `None` and the same buffer when empty |
| InlineRingBuffer.PushTail | libraries/inline-collection/src/inline_ring_buffer.rs:58-74 | with room: `s` becomes `[x] + s`. When full: `[a0..aN-1]` becomes `[x, a0..aN-2]` and exactly `aN-1` is dropped |
| InlineRingBuffer.PopTail | libraries/inline-collection/src/inline_ring_buffer.rs:76-86 | returns the first element and removes it; `None` and the same buffer when empty |
| InlineRingBuffer.IsEmpty | libraries/inline-collection/src/inline_ring_buffer.rs:92-94 | true exactly when the contents are empty |
| InlineRingBuffer.Get | libraries/inline-collection/src/inline_ring_buffer.rs:96-102 | `None` iff `i >= len`; otherwise the `i`-th element of the contents |
| InlineRingBuffer.At | libraries/inline-collection/src/inline_ring_buffer.rs:139-144 | in-range `Index` agrees with `get` |
| InlineRingBuffer.SetAt | libraries/inline-collection/src/inline_ring_buffer.rs:145-150 | assigning through `IndexMut` replaces only element `i` and drops the old value |
| InlineRingBuffer.MakeIter | libraries/inline-collection/src/inline_ring_buffer.rs:103-105 | a new iterator's size hint is the whole length, and its first item is the first element |
| InlineRingBuffer.SizeHint | libraries/inline-collection/src/inline_ring_buffer.rs:183-186 | the size hint is the number of elements not yet yielded |
| InlineRingBuffer.IterNext | libraries/inline-collection/src/inline_ring_buffer.rs:172-186 | yields `get(index)` and decreases the size hint by one; at the end it yields `None` and does not advance |
| InlineRingBuffer.Collect | libraries/inline-collection/src/inline_ring_buffer.rs:103-105 | running the iterator to exhaustion yields exactly `get(0) .. get(len - 1)` in order |
| InlineRingBuffer.DropAll | libraries/inline-collection/src/inline_ring_buffer.rs:128-137 | `Drop` destroys exactly the contents in order. It visits each initialised slot exactly once and no uninitialised slot |
| InlineRingBuffer.PushHeadAllConserves | libraries/inline-collection/src/inline_ring_buffer.rs:30-45 | over any push_head sequence, the evicted items followed by the held ones are exactly the old contents followed by the pushed items |
| InlineRingBuffer.PushTailAllConserves | libraries/inline-collection/src/inline_ring_buffer.rs:58-74 | the same for push_tail, seen through the reversed contents |
| InlineRingBuffer.PushHeadAllKeepsLast | libraries/inline-collection/src/inline_ring_buffer.rs:228-251 | starting empty, pushing `s` at the head keeps the last `min(N, len(s))` items in order and evicts the rest in order |
| InlineRingBuffer.PushTailAllKeepsLastReversed | libraries/inline-collection/src/inline_ring_buffer.rs:253-276 | starting empty, pushing `s` at the tail keeps the last `min(N, len(s))` items reversed and evicts the rest in order |
| InlineRingBuffer.ApplyOpConserves | libraries/inline-collection/src/inline_ring_buffer.rs:30-86 | one push or pop loses and duplicates nothing: held plus pushed equals evicted plus popped plus held after |
| InlineRingBuffer.RunOpsConserves | libraries/inline-collection/src/inline_ring_buffer.rs:30-86 | the same conservation over any history of pushes and pops |
| InlineRingBuffer.DropExactlyOnce | libraries/inline-collection/src/inline_ring_buffer.rs:128-137 | after any history on a new buffer and its `Drop`, every distinct pushed marker is destroyed exactly once |
| InlineVec.New | libraries/inline-collection/src/inline_vec.rs:10-15 | a new stack is valid and empty with capacity `N` |
| InlineVec.Push | libraries/inline-collection/src/inline_vec.rs:20-31 | refused (`false`, unchanged) exactly when `len == N`; otherwise contents `s` become `s + [x]` |
| InlineVec.Pop | libraries/inline-collection/src/inline_vec.rs:33-42 | returns the top and removes it; `None` and unchanged when empty |
| InlineVec.Peek | libraries/inline-collection/src/inline_vec.rs:44-52 | the top element or `None` when empty; the same item `pop` would return |
| InlineVec.Capacity | libraries/inline-collection/src/inline_vec.rs:17-19 | the slot count `N` of a valid stack bounds the live count |
| InlineVec.IsEmpty | libraries/inline-collection/src/inline_vec.rs:58-60 | true exactly when the contents are empty, which is exactly when `peek` finds nothing |
| InlineVec.Get | libraries/inline-collection/src/inline_vec.rs:62-68 | `None` iff `i >= len`; otherwise element `i` |
| InlineVec.At | libraries/inline-collection/src/inline_vec.rs:96-101 | in-range `Index` agrees with `get` |
| InlineVec.Slice | libraries/inline-collection/src/inline_vec.rs:96-101 | range indexing gives `hi - lo` items, the `k`-th being `get(lo + k)` |
| InlineVec.AsSlice | libraries/inline-collection/src/inline_vec.rs:82-88 | `Deref` exposes exactly the live prefix `[0, len)` |
| InlineVec.SetAt | libraries/inline-collection/src/inline_vec.rs:102-106 | assigning through `IndexMut` replaces only element `i` and drops the old value |
| InlineVec.DropAll | libraries/inline-collection/src/inline_vec.rs:71-80 | `Drop` destroys exactly the elements `0 .. len`, each once, in order |
| InlineVec.PushPopRoundTrip | libraries/inline-collection/src/inline_vec.rs:20-42 | `push(x)` then `pop()` on a stack with room returns `x` and restores the prior state |
| InlineVec.ApplyOpConserves | libraries/inline-collection/src/inline_vec.rs:20-42 | one push or pop loses nothing: held plus pushed equals refused plus popped plus held after |
| InlineVec.RunOpsConserves | libraries/inline-collection/src/inline_vec.rs:20-42 | the same conservation over any history |
| InlineVec.DropExactlyOnce | libraries/inline-collection/src/inline_vec.rs:71-80 | after any history on a new stack and its `Drop`, every distinct pushed marker is destroyed exactly once |
| DropLog.DistinctOnce | libraries/inline-collection/src/testing/drop_watcher.rs:13-15 | in a log of distinct markers, each marker present is properly dropped |
| DropLog.ConservedMeansProperlyDropped | libraries/inline-collection/src/testing/drop_watcher.rs:13-23 | if the exits are a permutation of distinct entries, each marker is properly dropped: not leaked, not illegally dropped |
| NPeekable.From | libraries/inline-collection/src/iterators/npeekable.rs:71-78 | wrapping a source gives an empty cache, and the stream is the source |
| NPeekable.Load | libraries/inline-collection/src/iterators/npeekable.rs:60-68 | keeps the stream. The cache grows to `min(N, count, available)` items, or stays unchanged when it already holds `min(N, count)` |
| NPeekable.LoadCaches | libraries/inline-collection/src/iterators/npeekable.rs:60-68 | after `load(count)` the first `min(count, N, available)` stream items are cached |
| NPeekable.PeekRange | libraries/inline-collection/src/iterators/npeekable.rs:20-23 | the view is the first `min(count, N, available)` items of the stream, and the stream is kept |
| NPeekable.NthPeek | libraries/inline-collection/src/iterators/npeekable.rs:12-18 | `None` when `index >= N`; otherwise the `index`-th stream item if it exists; the stream is kept |
| NPeekable.Peek | libraries/inline-collection/src/iterators/npeekable.rs:8-10 | the first stream item, or `None` on an empty stream |
| NPeekable.HasLessThan | libraries/inline-collection/src/iterators/npeekable.rs:25-27 | true iff `min(N, available) < count` |
| NPeekable.HasLessThanOrEq | libraries/inline-collection/src/iterators/npeekable.rs:28-30 | always true |
| NPeekable.HasExact | libraries/inline-collection/src/iterators/npeekable.rs:32-39 | as written: below `N`, `Some(count <= available)`. At `N`, `None` when `N` items are available. Otherwise `Some(false)` |
| NPeekable.HasExactFixed | libraries/inline-collection/src/iterators/npeekable.rs:32-39 | as intended: every definite answer is true of the stream (`Some(b)` means `b == (available == count)`), and the answer is `None` exactly when `count >= N` and at least `N` items are available. The stream is unchanged |
| NPeekable.HasExactAnd | libraries/inline-collection/src/iterators/npeekable.rs:41-47 | below `N`: exactly `count` items remain and the predicate holds of each (index, item). From `N` on: `None` only at `count == N` with `N` available items all satisfying it; otherwise `Some(false)` |
| NPeekable.Starts | libraries/inline-collection/src/iterators/npeekable.rs:49-58 | below `N`: the predicate holds of the first `min(count, available)` items. From `N` on: as `has_exact_and` |
| NPeekable.Next | libraries/inline-collection/src/iterators/npeekable.rs:80-85 | yields the head of the stream and removes it; `None` and no change on an empty stream |
| NPeekable.NextN | libraries/inline-collection/src/iterators/npeekable.rs:80-85 | `k` calls of `next` yield the stream's items, then `None`, and leave the rest of the stream |
| NPeekable.AskAllKeepsStream | libraries/inline-collection/src/iterators/npeekable.rs:8-68 | no sequence of peeks and queries changes the stream |
| NPeekable.NextAfterQueriesYieldsSource | libraries/inline-collection/src/iterators/npeekable.rs:80-85 | after any queries on a new adaptor, `next` yields the source items in order, then `None` |
| NPeekable.RangeQueries | libraries/inline-collection/src/iterators/npeekable.rs:110-122 | over `0 .. count`, after any queries: `nth_peek(i) == Some(i)` below `min(N, count)` and `None` from `N`. `has_less_than(c)` is true iff `c > min(N, count)` |
| NPeekable.NthPeekTest | libraries/inline-collection/src/iterators/npeekable.rs:91-108 | peeking each index in turn sees `0, 1, ..`, and afterwards `next` yields `0 .. count` in order |
| NPeekable.HasExactAsWrittenFailsTests | libraries/inline-collection/src/iterators/npeekable.rs:124-141 | the code as written answers `Some(true)` for every `c < min(N, count)`, where the test expects `Some(false)` |
| NPeekable.HasExactCounterexample | libraries/inline-collection/src/iterators/npeekable.rs:32-39 | with capacity 4 over `0, 1`, `has_exact(0)` is `Some(true)` as written and `Some(false)` as intended |
| NPeekable.HasExactFixedMeetsTests | libraries/inline-collection/src/iterators/npeekable.rs:124-141 | the corrected `has_exact` meets every expectation of the `has_exact` test, after any queries. Above `N`, which the test does not ask, it is `Some(false)` on a source shorter than `N` and `None` otherwise |
| NPeekable.HasExactAndFixed | libraries/inline-collection/src/iterators/npeekable.rs:41-47 | as intended: `Some(b)` means `b` is whether exactly `count` items remain and the predicate holds of each. `None` exactly when `count >= N`, at least `N` items are available and the first `N` satisfy the predicate. The stream is unchanged |
| NPeekable.StartsFixed | libraries/inline-collection/src/iterators/npeekable.rs:49-58 | as intended: below `N`, `Some(b)` where `b` is whether the predicate holds of the first `min(count, available)` items. From `N` on it never answers `Some(true)`. `Some(false)` only when fewer than `count` items remain or the predicate fails on one of the first `count`. `None` exactly as for `HasExactAndFixed`. The stream is unchanged |
| NPeekable.AboveCapacityAsWritten | libraries/inline-collection/src/iterators/npeekable.rs:32-58 | as written, for every `count > N`, `has_exact`, `has_exact_and` and `starts` answer `Some(false)` whatever the stream holds |
| NPeekable.AboveCapacityCounterexample | libraries/inline-collection/src/iterators/npeekable.rs:32-58 | with capacity 2 over `0, 1, 2`, the three queries at `count == 3` answer `Some(false)` as written though exactly 3 items remain, and `None` as corrected |
| Bundle.IsMatch | micro-dev-tools/src/.trunk/hooks/bundle/src/main.rs:98-103 | the name `_` matches every profile; any other name matches exactly the equal profile |
| Bundle.Selected | micro-dev-tools/src/.trunk/hooks/bundle/src/main.rs:88-92 | `build` runs exactly the configured names that are `_` or equal to the profile |
| Bundle.Stripped | micro-dev-tools/src/.trunk/hooks/bundle/src/main.rs:78-82 | with the prefix present, prefix + result is the input; otherwise the input unchanged |
| Bundle.StrippedInverse | micro-dev-tools/src/.trunk/hooks/bundle/src/main.rs:78-82 | stripping a prefix from `prefix + t` gives back `t` |
| Bundle.SplitToArgs | micro-dev-tools/src/.trunk/hooks/bundle/src/main.rs:173-249 | every token is a non-empty substring `args[start..end]`. Spans lie in the input, ends strictly increase and starts never decrease |
| Bundle.Decompose | micro-dev-tools/src/.trunk/hooks/bundle/src/main.rs:183-246 | when the machine is back in its initial state after `a`, the arguments of `a + b` are the tokens of `a` followed by the arguments of `b` |
| Bundle.AllWhitespaceNoArgs | micro-dev-tools/src/.trunk/hooks/bundle/src/main.rs:185-187 | empty or all-whitespace input yields no arguments |
| Bundle.LeadingWhitespace | micro-dev-tools/src/.trunk/hooks/bundle/src/main.rs:185-187 | leading whitespace changes nothing |
| Bundle.TrailingWhitespace | micro-dev-tools/src/.trunk/hooks/bundle/src/main.rs:232-246 | trailing whitespace never adds a token. Outside quotes it changes nothing; inside an open quote it extends the last token |
| Bundle.UnquotedArgsHaveNoWhitespace | micro-dev-tools/src/.trunk/hooks/bundle/src/main.rs:195-205 | a token without a quote character consists of plain characters only, so it holds no whitespace |
| Bundle.WordAlone | micro-dev-tools/src/.trunk/hooks/bundle/src/main.rs:233-235 | a single plain word is one argument |
| Bundle.WordThenSpace | micro-dev-tools/src/.trunk/hooks/bundle/src/main.rs:195-198 | whitespace ends a plain word: `w c rest` gives `w` followed by the arguments of `rest` |
| Bundle.QuoteFreeIsWords | micro-dev-tools/src/.trunk/hooks/bundle/src/main.rs:183-246 | on input without quotes, the tokenizer equals the reference split into maximal whitespace-free words |
| Bundle.QuotedArgument | micro-dev-tools/src/.trunk/hooks/bundle/src/main.rs:207-228 | a quoted argument keeps both quotes, and whitespace and escaped quotes inside it do not split it. An unterminated quote runs to the end of the input |
| Bundle.QuotedThenSpace | micro-dev-tools/src/.trunk/hooks/bundle/src/main.rs:217-220 | a closed quote followed by whitespace is one argument, then the arguments of the rest |
| Bundle.PlainThenQuote | micro-dev-tools/src/.trunk/hooks/bundle/src/main.rs:199-201 | `w"body"` gives `w`, then the quoted token re-including `w` |
| Bundle.PlainThenQuoteExample | micro-dev-tools/src/.trunk/hooks/bundle/src/main.rs:199-201 | `ab"c"` gives `ab` and `ab"c"` |

## Left out

- Raw memory. `MaybeUninit`, `ManuallyDrop`, unchecked memory reads and writes,
  and the zeroed `new` used under `cfg(test)` are not modelled. Slots are
  `Option<T>`, and a moved-out slot becomes `None`.
- Capacity zero for the ring buffer. The source computes `% N` and writes
  to slot `offset` of an empty array. The model requires `N > 0`. The stack
  allows `N = 0`.
- InlineRingBuffer.At: the source's `Index` does not compare the index
  with `len`. The model requires an in-range index and claims nothing about
  out-of-range use, which reads an uninitialised or stale slot.
- InlineRingBuffer.SetAt: the source's `IndexMut` does not compare the
  index with `len` either. The `requires` excludes an out-of-range index,
  where the source would overwrite, and drop, an uninitialised slot.
- InlineVec.At: indexing outside the live prefix panics in the source. The
  `requires` excludes that case, so the panic is not modelled.
- InlineVec.Slice: a range outside the live prefix, or with `lo > hi`,
  panics in the source. The `requires` excludes that case.
- InlineVec.SetAt: `IndexMut` outside the live prefix panics in the
  source. The `requires` excludes that case.
- NPeekable.From: capacity `N = 0` is excluded. The cache is a ring buffer,
  and the ring-buffer model requires `N > 0`. In the source an adaptor with
  `N = 0` never reaches `% N`: `nth_peek` answers `None`, `load` pulls
  nothing, and `next` reads the source directly.
- `len` of both collections is the record's `len` field, with no member of
  its own.
- The `Default` implementations are left out, because each is `new`.
- `ExactSizeIterator::len` of the ring-buffer iterator is left out, because
  it is `size_hint().0`. `size_hint` is `SizeHint`.
- `usize` overflow is not modelled, because model integers are unbounded.
  So `index + 1` in `nth_peek` and `count + 1` in `has_exact_and` never
  wrap in the model.
- NPeekable.Load: the source iterator is a finite sequence. A non-fused
  iterator that yields again after `None` is not modelled.
- NPeekable.HasExactAnd: predicates are pure functions. `FnMut` side
  effects, and how often the predicate is called, are not modelled.
- NPeekable.Starts: the same restriction on predicates as `HasExactAnd`.
- The `n_peekable` extension in `iterators.rs` is not part of this model.
  It only calls `NPeekable::from`.
- The test helpers (`testing.rs`, and the `Rc`/`RefCell` bookkeeping of
  `drop_watcher.rs`) are not part of this model. Only the watcher's drop
  classification is kept, as multiset counts.
- The rest of the build hook is not part of this model:
  - reading the environment and arguments;
  - YAML loading and `${{...}}` substitution;
  - file copying, process execution and log formatting.
  All of it is I/O or foreign-library plumbing.
- Bundle.Selected: the short-circuit of `build`'s fold over `execute_path`
  is not modelled, because running a step is I/O. `Selected` says only
  which names are chosen.
- Bundle.SplitToArgs: offsets count characters, not UTF-8 bytes. The
  substrings selected are the same.
- The web UI (`micro-dev-tools/src/main.rs`, `pages/home.rs`) and the
  colour checker tool are not part of this model.

## Findings

| source | as written | input that shows it | evidently intended | confidence | as-written member | corrected member |
|---|---|---|---|---|---|---|
| libraries/inline-collection/src/iterators/npeekable.rs:32-39 | `has_exact(count)` peeks only `count` items, so below `N` it answers `Some(true)` whenever at least `count` items remain | capacity `N = 4` over the source `0, 1`: `has_exact(0)` answers `Some(true)`. The test at npeekable.rs:133 expects `Some(false)` | peek `count + 1` items, as `has_exact_and` does, so that below `N` it answers whether exactly `count` items remain | high (not executed) | NPeekable.HasExact, NPeekable.HasExactCounterexample, NPeekable.HasExactAsWrittenFailsTests | NPeekable.HasExactFixed, NPeekable.HasExactFixedMeetsTests |
| libraries/inline-collection/src/iterators/npeekable.rs:32-58 | from `N` on, `has_exact`, `has_exact_and` and `starts` answer `Some(false)` when fewer than `count` items are visible. The view holds at most `N` items, so for every `count > N` the answer is `Some(false)` | capacity `N = 2` over the source `0, 1, 2`: `has_exact(3)`, `has_exact_and(3, _)` and `starts(3, _)` all answer `Some(false)`, though exactly 3 items remain | answer `Some(false)` only when fewer than `N` items are visible or the predicate fails on a visible item, and `None` (undetermined) otherwise, since `None` is the answer for what a view of `N` items cannot decide | plausible (not executed) | NPeekable.HasExact, NPeekable.HasExactAnd, NPeekable.Starts, NPeekable.AboveCapacityAsWritten, NPeekable.AboveCapacityCounterexample | NPeekable.HasExactFixed, NPeekable.HasExactAndFixed, NPeekable.StartsFixed |
