/**
  The pure helpers of the build hook that bundles the site.

  `split_to_args` turns the `run` line of a build step into program
  arguments. It is a five-state machine driven one character at a time; it
  emits substrings of its input, never copies, so the model works on spans
  `[start, end)` and reads the tokens off the input at the end. The input is
  a `seq<char>`; the source's byte offsets become character offsets, which
  select the same substrings.

  `is_match` chooses which build paths run for the active profile, and
  `stripped` removes an optional prefix from the configured directories.
 */
module Bundle {
  import opened Seqs

  // ---------------------------------------------------------------------------
  // is_match and stripped

  /** The path name that matches every profile. */
  const AnyPathName: string := "_"

  /** `is_match`: the wildcard name matches any profile; any other name matches only itself. */
  function IsMatch(pattern: string, profile: string): (r: bool)
    ensures pattern == AnyPathName ==> r
    ensures pattern != AnyPathName ==> (r <==> pattern == profile)
  {
    pattern == AnyPathName || profile == pattern
  }

  /** The path names, in order, that `build` runs for `profile`. */
  function Selected(names: seq<string>, profile: string): (r: seq<string>)
    ensures forall x :: x in r <==> x in names && (x == AnyPathName || x == profile)
    ensures |r| <= |names|
  {
    if names == [] then []
    else (if IsMatch(names[0], profile) then [names[0]] else []) + Selected(names[1..], profile)
  }

  predicate IsPrefix(prefix: string, s: string) {
    |prefix| <= |s| && s[..|prefix|] == prefix
  }

  /** `stripped`: `s` without `prefix` when it starts with it, else `s` unchanged. */
  function Stripped(s: string, prefix: string): (r: string)
    ensures IsPrefix(prefix, s) ==> prefix + r == s
    ensures !IsPrefix(prefix, s) ==> r == s
  {
    if IsPrefix(prefix, s) then s[|prefix|..] else s
  }

  /** Stripping undoes prepending the prefix. */
  lemma StrippedInverse(prefix: string, t: string)
    ensures Stripped(prefix + t, prefix) == t
  {
    assert (prefix + t)[..|prefix|] == prefix;
  }

  // ---------------------------------------------------------------------------
  // Characters

  /**
    `char::is_whitespace`: the Unicode `White_Space` property (tab through
    carriage return, space, next line, no-break space, ogham space mark,
    en quad through hair space, line and paragraph separators, narrow
    no-break space, medium mathematical space, ideographic space).
   */
  predicate IsWhitespace(c: char) {
    || ('\t' <= c <= '\r')
    || c == ' '
    || c == '\U{0085}'
    || c == '\U{00A0}'
    || c == '\U{1680}'
    || ('\U{2000}' <= c <= '\U{200A}')
    || c == '\U{2028}'
    || c == '\U{2029}'
    || c == '\U{202F}'
    || c == '\U{205F}'
    || c == '\U{3000}'
  }

  /** The characters that open a quoted argument. */
  predicate IsQuote(c: char) {
    c == '"' || c == '\''
  }

  /** A character that extends a plain (unquoted) argument. */
  predicate IsPlain(c: char) {
    !IsWhitespace(c) && !IsQuote(c)
  }

  predicate AllPlain(t: string) {
    forall j :: 0 <= j < |t| ==> IsPlain(t[j])
  }

  predicate HasQuote(t: string) {
    exists j :: 0 <= j < |t| && IsQuote(t[j])
  }

  // ---------------------------------------------------------------------------
  // The machine

  /** The tokenizer state; `offset` is where the pending token starts. */
  datatype State =
    | Initial
    | Plain(offset: nat)
    | Quoted(offset: nat, quote: char)
    | QuoteEnd(offset: nat)
    | QuoteEscape(offset: nat, quote: char)

  /** A token as the half-open range `[start, end)` of the input. */
  datatype Span = Span(start: nat, end: nat)

  /** The state after a prefix of the input, and the spans emitted so far. */
  datatype Scan = Scan(state: State, spans: seq<Span>)

  /** The state entered from `Initial` or `QuoteEnd` on character `c` at index `i`. */
  function Begin(i: nat, c: char): State {
    if IsWhitespace(c) then Initial
    else if IsQuote(c) then Quoted(i, c)
    else Plain(i)
  }

  /** The transition on character `c` at index `i`. */
  function NextState(st: State, i: nat, c: char): State {
    match st
    case Initial => Begin(i, c)
    case Plain(offset) =>
      if IsWhitespace(c) then Initial
      else if IsQuote(c) then Quoted(offset, c)
      else Plain(offset)
    case Quoted(offset, quote) =>
      if c == '\\' then QuoteEscape(offset, quote)
      else if c == quote then QuoteEnd(offset)
      else Quoted(offset, quote)
    case QuoteEnd(_) => Begin(i, c)
    case QuoteEscape(offset, quote) => Quoted(offset, quote)
  }

  /**
    The span pushed on character `c` at index `i`: a plain token ends at
    whitespace or a quote, and a closed quote ends at the next character,
    whatever it is.
   */
  function Emitted(st: State, i: nat, c: char): seq<Span> {
    match st
    case Plain(offset) => if IsWhitespace(c) || IsQuote(c) then [Span(offset, i)] else []
    case QuoteEnd(offset) => [Span(offset, i)]
    case _ => []
  }

  function Step(sc: Scan, i: nat, c: char): Scan {
    Scan(NextState(sc.state, i, c), sc.spans + Emitted(sc.state, i, c))
  }

  /** The loop over `char_indices`, stopped after the first `k` characters: a left fold. */
  function RunN(s: string, k: nat): Scan
    requires k <= |s|
    decreases k
  {
    if k == 0 then Scan(Initial, [])
    else Step(RunN(s, k - 1), k - 1, s[k - 1])
  }

  /** The whole loop over `s`. */
  function Run(s: string): Scan {
    RunN(s, |s|)
  }

  /** After the loop: every state but `Initial` pushes the rest of the input from its offset. */
  function Flush(st: State, n: nat): seq<Span> {
    if st.Initial? then [] else [Span(st.offset, n)]
  }

  function SplitSpans(args: string): seq<Span> {
    var sc := Run(args);
    sc.spans + Flush(sc.state, |args|)
  }

  predicate Within(spans: seq<Span>, n: nat) {
    forall j :: 0 <= j < |spans| ==> spans[j].start <= spans[j].end <= n
  }

  /** The substrings the spans select. */
  function Tokens(s: string, spans: seq<Span>): (r: seq<string>)
    requires Within(spans, |s|)
    ensures |r| == |spans|
    ensures forall j :: 0 <= j < |r| ==> r[j] == s[spans[j].start..spans[j].end]
  {
    seq(|spans|, j requires 0 <= j < |spans| => s[spans[j].start..spans[j].end])
  }

  /** Spans emitted left to right: ends strictly increase, starts never decrease. */
  predicate Ordered(spans: seq<Span>) {
    forall a, b :: 0 <= a < b < |spans| ==> spans[a].start <= spans[b].start && spans[a].end < spans[b].end
  }

  /**
    `split_to_args`: every token is a non-empty substring `args[start..end]`,
    and the tokens appear in input order.
   */
  function SplitToArgs(args: string): (r: seq<string>)
    ensures |r| == |SplitSpans(args)|
    ensures Within(SplitSpans(args), |args|) && Ordered(SplitSpans(args))
    ensures forall j :: 0 <= j < |r| ==>
      var sp := SplitSpans(args)[j];
      sp.start < sp.end && r[j] == args[sp.start..sp.end]
  {
    SpansWellFormed(args);
    Tokens(args, SplitSpans(args))
  }

  // ---------------------------------------------------------------------------
  // Shape of the emitted spans

  predicate ScanInv(sc: Scan, k: nat) {
    && (forall j :: 0 <= j < |sc.spans| ==> sc.spans[j].start < sc.spans[j].end < k)
    && Ordered(sc.spans)
    && (!sc.state.Initial? ==>
          && sc.state.offset < k
          && forall j :: 0 <= j < |sc.spans| ==> sc.spans[j].start <= sc.state.offset)
    && (InQuotes(sc.state) ==> IsQuote(sc.state.quote))
  }

  /** The fold after `k` characters depends on those characters only. */
  lemma {:induction false} RunNPrefix(s: string, t: string, k: nat)
    requires k <= |s| && k <= |t|
    requires forall j :: 0 <= j < k ==> s[j] == t[j]
    ensures RunN(s, k) == RunN(t, k)
    decreases k
  {
    if k > 0 {
      RunNPrefix(s, t, k - 1);
    }
  }

  lemma RunSnoc(s: string, c: char)
    ensures Run(s + [c]) == Step(Run(s), |s|, c)
  {
    RunNPrefix(s + [c], s, |s|);
  }

  lemma StepInv(sc: Scan, i: nat, c: char)
    requires ScanInv(sc, i)
    ensures ScanInv(Step(sc, i, c), i + 1)
  {
  }

  lemma {:induction false} RunInv(s: string)
    ensures ScanInv(Run(s), |s|)
    decreases |s|
  {
    if s != [] {
      var s' := s[..|s| - 1];
      RunInv(s');
      RunSnoc(s', s[|s| - 1]);
      Snoc(s);
      StepInv(Run(s'), |s'|, s[|s| - 1]);
    }
  }

  lemma SpansWellFormed(args: string)
    ensures var spans := SplitSpans(args);
      && Within(spans, |args|) && Ordered(spans)
      && forall j :: 0 <= j < |spans| ==> spans[j].start < spans[j].end
  {
    RunInv(args);
  }

  // ---------------------------------------------------------------------------
  // Running on a concatenation

  function ShiftState(st: State, m: nat): State {
    match st
    case Initial => Initial
    case Plain(o) => Plain(o + m)
    case Quoted(o, q) => Quoted(o + m, q)
    case QuoteEnd(o) => QuoteEnd(o + m)
    case QuoteEscape(o, q) => QuoteEscape(o + m, q)
  }

  function ShiftSpans(spans: seq<Span>, m: nat): (r: seq<Span>)
    ensures |r| == |spans|
    ensures forall j :: 0 <= j < |r| ==> r[j] == Span(spans[j].start + m, spans[j].end + m)
  {
    seq(|spans|, j requires 0 <= j < |spans| => Span(spans[j].start + m, spans[j].end + m))
  }

  lemma StepShift(st: State, spans: seq<Span>, prior: seq<Span>, i: nat, m: nat, at: nat, c: char)
    requires at == i + m
    ensures var moved := Step(Scan(ShiftState(st, m), prior + ShiftSpans(spans, m)), at, c);
      var here := Step(Scan(st, spans), i, c);
      moved == Scan(ShiftState(here.state, m), prior + ShiftSpans(here.spans, m))
  {
    var here := Step(Scan(st, spans), i, c);
    assert ShiftSpans(here.spans, m) == ShiftSpans(spans, m) + ShiftSpans(Emitted(st, i, c), m);
  }

  /** The step of `RunShift`: one more character after `a + b`. */
  lemma RunShiftSnoc(a: string, b: string, c: char)
    requires Run(a).state == Initial
    requires Run(a + b) == Scan(ShiftState(Run(b).state, |a|), Run(a).spans + ShiftSpans(Run(b).spans, |a|))
    ensures Run((a + b) + [c])
         == Scan(ShiftState(Run(b + [c]).state, |a|), Run(a).spans + ShiftSpans(Run(b + [c]).spans, |a|))
  {
    RunSnoc(a + b, c);
    RunSnoc(b, c);
    StepShift(Run(b).state, Run(b).spans, Run(a).spans, |b|, |a|, |a + b|, c);
  }

  /**
    Once a prefix `a` has returned the machine to `Initial`, what follows is
    tokenized as if it stood alone, at offsets moved by `|a|`.
   */
  lemma {:induction false} RunShift(a: string, b: string)
    requires Run(a).state == Initial
    ensures Run(a + b) == Scan(ShiftState(Run(b).state, |a|), Run(a).spans + ShiftSpans(Run(b).spans, |a|))
    decreases |b|
  {
    if b == [] {
      assert a + b == a;
    } else {
      var b' := b[..|b| - 1];
      var c := b[|b| - 1];
      Snoc(b);
      AppendSnoc(a, b', c);
      RunShift(a, b');
      RunShiftSnoc(a, b', c);
    }
  }

  lemma TokensConcat(a: string, b: string, prior: seq<Span>, spans: seq<Span>)
    requires Within(prior, |a|) && Within(spans, |b|)
    ensures Within(prior + ShiftSpans(spans, |a|), |a + b|)
    ensures Tokens(a + b, prior + ShiftSpans(spans, |a|)) == Tokens(a, prior) + Tokens(b, spans)
  {
    var all := prior + ShiftSpans(spans, |a|);
    var lhs := Tokens(a + b, all);
    var rhs := Tokens(a, prior) + Tokens(b, spans);
    forall j | 0 <= j < |lhs|
      ensures lhs[j] == rhs[j]
    {
      if j < |prior| {
        assert (a + b)[prior[j].start..prior[j].end] == a[prior[j].start..prior[j].end];
      } else {
        var sp := spans[j - |prior|];
        assert (a + b)[sp.start + |a|..sp.end + |a|] == b[sp.start..sp.end];
      }
    }
  }

  lemma FlushShift(st: State, n: nat, m: nat)
    ensures Flush(ShiftState(st, m), n + m) == ShiftSpans(Flush(st, n), m)
  {
  }

  lemma ShiftSpansConcat(p: seq<Span>, q: seq<Span>, m: nat)
    ensures ShiftSpans(p + q, m) == ShiftSpans(p, m) + ShiftSpans(q, m)
  {
  }

  lemma ShiftAlgebra(prior: seq<Span>, spans: seq<Span>, st: State, n: nat, m: nat, total: nat)
    requires total == n + m
    ensures (prior + ShiftSpans(spans, m)) + Flush(ShiftState(st, m), total)
         == prior + ShiftSpans(spans + Flush(st, n), m)
  {
    FlushShift(st, n, m);
    ShiftSpansConcat(spans, Flush(st, n), m);
  }

  lemma SplitSpansOf(x: string, sc: Scan)
    requires Run(x) == sc
    ensures SplitSpans(x) == sc.spans + Flush(sc.state, |x|)
  {
  }

  lemma SplitSpansShift(a: string, b: string)
    requires Run(a).state == Initial
    ensures SplitSpans(a + b) == Run(a).spans + ShiftSpans(SplitSpans(b), |a|)
  {
    var q := Run(b);
    var prior := Run(a).spans;
    var whole := Run(a + b);
    assert whole.spans == prior + ShiftSpans(q.spans, |a|) && whole.state == ShiftState(q.state, |a|) by {
      RunShift(a, b);
    }
    SplitSpansOf(a + b, whole);
    assert SplitSpans(b) == q.spans + Flush(q.state, |b|);
    ShiftAlgebra(prior, q.spans, q.state, |b|, |a|, |a + b|);
  }

  /**
    Decomposition: when a prefix `a` leaves the machine in `Initial`, the
    arguments of `a + b` are those completed within `a` followed by the
    arguments of `b` alone.
   */
  lemma Decompose(a: string, b: string)
    requires Run(a).state == Initial
    ensures Within(Run(a).spans, |a|)
    ensures SplitToArgs(a + b) == Tokens(a, Run(a).spans) + SplitToArgs(b)
  {
    RunInv(a);
    SplitSpansShift(a, b);
    SpansWellFormed(b);
    TokensConcat(a, b, Run(a).spans, SplitSpans(b));
  }

  // ---------------------------------------------------------------------------
  // Whitespace

  predicate AllWhitespace(w: string) {
    forall j :: 0 <= j < |w| ==> IsWhitespace(w[j])
  }

  lemma {:induction false} RunAllWhitespace(w: string)
    requires AllWhitespace(w)
    ensures Run(w) == Scan(Initial, [])
    decreases |w|
  {
    if w != [] {
      var w' := w[..|w| - 1];
      RunAllWhitespace(w');
      RunSnoc(w', w[|w| - 1]);
      Snoc(w);
    }
  }

  /** Empty or all-whitespace input yields no arguments. */
  lemma AllWhitespaceNoArgs(w: string)
    requires AllWhitespace(w)
    ensures SplitToArgs(w) == []
  {
    RunAllWhitespace(w);
  }

  /** Leading whitespace never produces or changes an argument. */
  lemma LeadingWhitespace(w: string, s: string)
    requires AllWhitespace(w)
    ensures SplitToArgs(w + s) == SplitToArgs(s)
  {
    RunAllWhitespace(w);
    Decompose(w, s);
  }

  predicate InQuotes(st: State) {
    st.Quoted? || st.QuoteEscape?
  }

  /**
    Whitespace appended to `s`: outside quotes it completes the pending
    argument and the machine rests in `Initial`; inside quotes it is part of
    the still-open argument.
   */
  lemma {:induction false} RunTrailing(s: string, w: string)
    requires AllWhitespace(w) && w != []
    ensures !InQuotes(Run(s).state) ==> Run(s + w) == Scan(Initial, SplitSpans(s))
    ensures InQuotes(Run(s).state) ==>
      Run(s + w) == Scan(Quoted(Run(s).state.offset, Run(s).state.quote), Run(s).spans)
    decreases |w|
  {
    var w' := w[..|w| - 1];
    var c := w[|w| - 1];
    RunInv(s);
    Snoc(w);
    AppendSnoc(s, w', c);
    RunSnoc(s + w', c);
    if w' == [] {
      assert s + w' == s;
    } else {
      RunTrailing(s, w');
    }
  }

  lemma TokensExtendLast(s: string, w: string, prior: seq<Span>, o: nat)
    requires Within(prior, |s|) && o <= |s|
    ensures Within(prior + [Span(o, |s|)], |s|)
    ensures Within(prior + [Span(o, |s| + |w|)], |s + w|)
    ensures var r0 := Tokens(s, prior + [Span(o, |s|)]);
      Tokens(s + w, prior + [Span(o, |s| + |w|)]) == r0[..|r0| - 1] + [r0[|r0| - 1] + w]
  {
    var r0 := Tokens(s, prior + [Span(o, |s|)]);
    var r := Tokens(s + w, prior + [Span(o, |s| + |w|)]);
    var rhs := r0[..|r0| - 1] + [r0[|r0| - 1] + w];
    forall j | 0 <= j < |r|
      ensures r[j] == rhs[j]
    {
      if j < |prior| {
        assert (s + w)[prior[j].start..prior[j].end] == s[prior[j].start..prior[j].end];
      } else {
        assert (s + w)[o..|s| + |w|] == s[o..] + w;
      }
    }
  }

  lemma TrailingOutsideQuotes(s: string, w: string)
    requires AllWhitespace(w) && w != [] && !InQuotes(Run(s).state)
    ensures SplitToArgs(s + w) == SplitToArgs(s)
  {
    RunTrailing(s, w);
    SpansWellFormed(s);
    var sp := SplitSpans(s);
    assert SplitSpans(s + w) == sp + Flush(Initial, |s + w|) == sp;
    TokensConcat(s, w, sp, []);
    assert sp + ShiftSpans([], |s|) == sp;
    assert Tokens(w, []) == [];
  }

  lemma TrailingInsideQuotesSpans(s: string, w: string)
    requires AllWhitespace(w) && w != [] && InQuotes(Run(s).state)
    ensures Within(SplitSpans(s), |s|) && Within(SplitSpans(s + w), |s + w|)
    ensures var t0 := Tokens(s, SplitSpans(s));
      |t0| > 0 && Tokens(s + w, SplitSpans(s + w)) == t0[..|t0| - 1] + [t0[|t0| - 1] + w]
  {
    var sc := Run(s);
    var o := sc.state.offset;
    var prior := sc.spans;
    RunInv(s);
    SplitSpansOf(s, sc);
    assert SplitSpans(s) == prior + [Span(o, |s|)];
    assert Run(s + w) == Scan(Quoted(o, sc.state.quote), prior) by {
      RunTrailing(s, w);
    }
    SplitSpansOf(s + w, Scan(Quoted(o, sc.state.quote), prior));
    assert SplitSpans(s + w) == prior + [Span(o, |s| + |w|)];
    TokensExtendLast(s, w, prior, o);
  }

  lemma TrailingInsideQuotes(s: string, w: string)
    requires AllWhitespace(w) && w != [] && InQuotes(Run(s).state)
    ensures var r0 := SplitToArgs(s);
      |r0| > 0 && SplitToArgs(s + w) == r0[..|r0| - 1] + [r0[|r0| - 1] + w]
  {
    TrailingInsideQuotesSpans(s, w);
  }

  /**
    Trailing whitespace never adds an argument. Outside quotes it changes
    nothing; inside an unterminated quote it extends the last argument.
   */
  lemma TrailingWhitespace(s: string, w: string)
    requires AllWhitespace(w)
    ensures |SplitToArgs(s + w)| == |SplitToArgs(s)|
    ensures !InQuotes(Run(s).state) ==> SplitToArgs(s + w) == SplitToArgs(s)
    ensures InQuotes(Run(s).state) && w != [] ==>
      var r0 := SplitToArgs(s);
      |r0| > 0 && SplitToArgs(s + w) == r0[..|r0| - 1] + [r0[|r0| - 1] + w]
  {
    if w == [] {
      assert s + w == s;
    } else if InQuotes(Run(s).state) {
      TrailingInsideQuotes(s, w);
    } else {
      TrailingOutsideQuotes(s, w);
    }
  }

  // ---------------------------------------------------------------------------
  // What the arguments look like

  /** An argument is either plain text or contains a quote character. */
  predicate Shaped(t: string) {
    AllPlain(t) || HasQuote(t)
  }

  predicate SpansShaped(s: string, spans: seq<Span>) {
    forall j :: 0 <= j < |spans| ==>
      spans[j].start <= spans[j].end <= |s| && Shaped(s[spans[j].start..spans[j].end])
  }

  /** The pending text of a plain argument is plain; that of a quoted one holds a quote. */
  predicate StateShaped(s: string, st: State) {
    && (st.Plain? ==> st.offset <= |s| && AllPlain(s[st.offset..]))
    && (InQuotes(st) || st.QuoteEnd? ==> st.offset <= |s| && HasQuote(s[st.offset..]))
  }

  predicate ShapeInv(s: string, sc: Scan) {
    SpansShaped(s, sc.spans) && StateShaped(s, sc.state)
  }

  lemma HasQuoteExtend(t: string, c: char)
    requires HasQuote(t)
    ensures HasQuote(t + [c])
  {
    var j :| 0 <= j < |t| && IsQuote(t[j]);
    assert (t + [c])[j] == t[j];
  }

  lemma SpansShapedStep(s: string, c: char, sc: Scan)
    requires ShapeInv(s, sc)
    ensures SpansShaped(s + [c], sc.spans + Emitted(sc.state, |s|, c))
  {
    forall j | 0 <= j < |sc.spans|
      ensures (s + [c])[sc.spans[j].start..sc.spans[j].end] == s[sc.spans[j].start..sc.spans[j].end]
    {
      SliceLeft(s, [c], sc.spans[j].start, sc.spans[j].end);
    }
    if !sc.state.Initial? {
      var o := sc.state.offset;
      SliceLeft(s, [c], o, |s|);
      assert s[o..|s|] == s[o..];
    }
  }

  lemma StateShapedStep(s: string, c: char, st: State)
    requires StateShaped(s, st)
    ensures StateShaped(s + [c], NextState(st, |s|, c))
  {
    SuffixAppend(s, [c], |s|);
    assert s[|s|..] + [c] == [c];
    if IsQuote(c) {
      assert [c][0] == c;
    }
    if !st.Initial? {
      SuffixAppend(s, [c], st.offset);
      if InQuotes(st) || st.QuoteEnd? {
        HasQuoteExtend(s[st.offset..], c);
      }
    }
  }

  lemma ShapeStep(s: string, c: char)
    requires ShapeInv(s, Run(s))
    ensures ShapeInv(s + [c], Run(s + [c]))
  {
    RunSnoc(s, c);
    SpansShapedStep(s, c, Run(s));
    StateShapedStep(s, c, Run(s).state);
  }

  lemma {:induction false} RunShape(s: string)
    ensures ShapeInv(s, Run(s))
    decreases |s|
  {
    if s != [] {
      var s' := s[..|s| - 1];
      RunShape(s');
      ShapeStep(s', s[|s| - 1]);
      Snoc(s);
    }
  }

  /**
    Whitespace (or a quote) always ends a plain argument: an argument
    without a quote character consists of plain characters only.
   */
  lemma UnquotedArgsHaveNoWhitespace(args: string)
    ensures forall j :: 0 <= j < |SplitToArgs(args)| && !HasQuote(SplitToArgs(args)[j]) ==>
      AllPlain(SplitToArgs(args)[j])
  {
    var sc := Run(args);
    RunShape(args);
    SplitSpansOf(args, sc);
    if !sc.state.Initial? {
      assert args[sc.state.offset..|args|] == args[sc.state.offset..];
    }
    var spans := SplitSpans(args);
    assert forall j :: 0 <= j < |spans| ==> Shaped(args[spans[j].start..spans[j].end]);
  }

  // ---------------------------------------------------------------------------
  // Plain words

  /** Feeding plain characters to a pending plain argument only extends it. */
  lemma {:induction false} RunPlain(s: string, t: string, o: nat)
    requires Run(s).state == Plain(o) && AllPlain(t)
    ensures Run(s + t) == Run(s)
    decreases |t|
  {
    if t == [] {
      assert s + t == s;
    } else {
      RunSnoc(s, t[0]);
      assert s + t == (s + [t[0]]) + t[1..];
      RunPlain(s + [t[0]], t[1..], o);
    }
  }

  lemma RunWord(w: string)
    requires AllPlain(w) && w != []
    ensures Run(w) == Scan(Plain(0), [])
  {
    RunSnoc([], w[0]);
    assert [] + [w[0]] == [w[0]];
    RunPlain([w[0]], w[1..], 0);
    assert [w[0]] + w[1..] == w;
  }

  /** A plain word alone is a single argument. */
  lemma WordAlone(w: string)
    requires AllPlain(w) && w != []
    ensures SplitToArgs(w) == [w]
  {
    RunWord(w);
    SplitSpansOf(w, Scan(Plain(0), []));
    assert w[0..|w|] == w;
  }

  /** A plain word followed by whitespace is one argument; the rest is split on its own. */
  lemma WordThenSpace(w: string, c: char, rest: string)
    requires AllPlain(w) && w != [] && IsWhitespace(c)
    ensures SplitToArgs(w + [c] + rest) == [w] + SplitToArgs(rest)
  {
    RunWord(w);
    RunSnoc(w, c);
    var head := w + [c];
    assert Run(head) == Scan(Initial, [Span(0, |w|)]);
    Decompose(head, rest);
    assert head[0..|w|] == w;
    assert Tokens(head, [Span(0, |w|)]) == [w];
  }

  /** The length of the leading run of non-whitespace characters. */
  function WordLen(s: string): (k: nat)
    ensures k <= |s|
    ensures forall j :: 0 <= j < k ==> !IsWhitespace(s[j])
    ensures k < |s| ==> IsWhitespace(s[k])
    decreases |s|
  {
    if s == [] || IsWhitespace(s[0]) then 0 else 1 + WordLen(s[1..])
  }

  /** Reference definition: the maximal runs of non-whitespace characters, left to right. */
  function Words(s: string): (r: seq<string>)
    ensures forall j :: 0 <= j < |r| ==> r[j] != [] && forall i :: 0 <= i < |r[j]| ==> !IsWhitespace(r[j][i])
    decreases |s|
  {
    if s == [] then []
    else if IsWhitespace(s[0]) then Words(s[1..])
    else
      var k := WordLen(s);
      [s[..k]] + Words(s[k..])
  }

  lemma QuoteFreeSuffix(s: string, i: nat)
    requires !HasQuote(s) && i <= |s|
    ensures !HasQuote(s[i..])
  {
    assert forall j :: 0 <= j < |s[i..]| ==> s[i..][j] == s[i + j];
  }

  /** A word and the whitespace after it, then the rest, as `Words` sees it. */
  lemma WordsStep(s: string, k: nat)
    requires s != [] && !IsWhitespace(s[0]) && k == WordLen(s) && k < |s|
    ensures Words(s) == [s[..k]] + Words(s[k + 1..])
  {
    assert s[k..][1..] == s[k + 1..];
  }

  /** A word and the whitespace after it, then the rest, as the tokenizer sees it. */
  lemma QuoteFreeWordStep(s: string, k: nat)
    requires !HasQuote(s) && s != [] && !IsWhitespace(s[0]) && k == WordLen(s) && k < |s|
    ensures SplitToArgs(s) == [s[..k]] + SplitToArgs(s[k + 1..])
  {
    var w := s[..k];
    var rest := s[k + 1..];
    assert AllPlain(w);
    Around(s, k);
    WordThenSpace(w, s[k], rest);
  }

  /** On input without quote characters, `split_to_args` is the whitespace split. */
  lemma {:induction false} QuoteFreeIsWords(s: string)
    requires !HasQuote(s)
    ensures SplitToArgs(s) == Words(s)
    decreases |s|
  {
    if s == [] {
      assert SplitSpans(s) == [];
    } else if IsWhitespace(s[0]) {
      assert SplitToArgs(s) == SplitToArgs(s[1..]) by {
        assert AllWhitespace([s[0]]);
        LeadingWhitespace([s[0]], s[1..]);
        assert [s[0]] + s[1..] == s;
      }
      QuoteFreeSuffix(s, 1);
      QuoteFreeIsWords(s[1..]);
    } else {
      var k := WordLen(s);
      if k == |s| {
        assert AllPlain(s);
        WordAlone(s);
        assert s[..k] == s;
        assert Words(s[k..]) == [];
      } else {
        WordsStep(s, k);
        QuoteFreeWordStep(s, k);
        QuoteFreeSuffix(s, k + 1);
        QuoteFreeIsWords(s[k + 1..]);
      }
    }
  }

  // ---------------------------------------------------------------------------
  // Quoted arguments

  /**
    A body that stays inside quotes opened by `q`: no bare `q`, and every
    backslash is followed by the character it makes literal.
   */
  predicate Literal(body: string, q: char)
    decreases |body|
  {
    if body == [] then true
    else if body[0] == '\\' then |body| >= 2 && Literal(body[2..], q)
    else body[0] != q && Literal(body[1..], q)
  }

  /** A literal body leaves an open quote open, with nothing emitted. */
  lemma {:induction false} RunLiteral(s: string, body: string, q: char, o: nat)
    requires Run(s).state == Quoted(o, q) && Literal(body, q)
    ensures Run(s + body) == Run(s)
    decreases |body|
  {
    if body == [] {
      assert s + body == s;
    } else if body[0] == '\\' {
      var s1 := s + [body[0]];
      var s2 := s1 + [body[1]];
      RunSnoc(s, body[0]);
      RunSnoc(s1, body[1]);
      assert s + body == s2 + body[2..];
      RunLiteral(s2, body[2..], q, o);
    } else {
      RunSnoc(s, body[0]);
      assert s + body == (s + [body[0]]) + body[1..];
      RunLiteral(s + [body[0]], body[1..], q, o);
    }
  }

  lemma RunOpenQuote(q: char, body: string)
    requires IsQuote(q) && Literal(body, q)
    ensures Run([q] + body) == Scan(Quoted(0, q), [])
  {
    RunSnoc([], q);
    assert [] + [q] == [q];
    RunLiteral([q], body, q, 0);
  }

  /**
    A quoted argument keeps both quotes, and neither whitespace nor an
    escaped quote inside it splits or ends it. Left unterminated, it runs to
    the end of the input.
   */
  lemma QuotedArgument(q: char, body: string)
    requires IsQuote(q) && Literal(body, q)
    ensures SplitToArgs([q] + body + [q]) == [[q] + body + [q]]
    ensures SplitToArgs([q] + body) == [[q] + body]
  {
    var unclosed := [q] + body;
    RunOpenQuote(q, body);
    SplitSpansOf(unclosed, Scan(Quoted(0, q), []));
    assert unclosed[0..|unclosed|] == unclosed;
    var closed := unclosed + [q];
    RunSnoc(unclosed, q);
    SplitSpansOf(closed, Scan(QuoteEnd(0), []));
    assert closed[0..|closed|] == closed;
  }

  /**
    A closed quoted argument followed by whitespace ends there, and the rest
    is split on its own.
   */
  lemma QuotedThenSpace(q: char, body: string, c: char, rest: string)
    requires IsQuote(q) && Literal(body, q) && IsWhitespace(c)
    ensures SplitToArgs([q] + body + [q] + [c] + rest) == [[q] + body + [q]] + SplitToArgs(rest)
  {
    var closed := [q] + body + [q];
    RunOpenQuote(q, body);
    RunSnoc([q] + body, q);
    RunSnoc(closed, c);
    var head := closed + [c];
    assert Run(head) == Scan(Initial, [Span(0, |closed|)]);
    Decompose(head, rest);
    assert head[0..|closed|] == closed;
    assert Tokens(head, [Span(0, |closed|)]) == [closed];
  }

  /**
    A quote straight after plain text emits the text, and the quoted
    argument that follows starts where the text started, so it repeats it.
   */
  lemma PlainThenQuote(w: string, q: char, body: string)
    requires AllPlain(w) && w != [] && IsQuote(q) && Literal(body, q)
    ensures SplitToArgs(w + [q] + body + [q]) == [w, w + [q] + body + [q]]
  {
    var u := w + [q] + body;
    var all := u + [q];
    var spans := [Span(0, |w|)];
    assert Run(w + [q]) == Scan(Quoted(0, q), spans) by {
      RunWord(w);
      RunSnoc(w, q);
    }
    assert Run(u) == Scan(Quoted(0, q), spans) by {
      RunLiteral(w + [q], body, q, 0);
    }
    assert Run(all) == Scan(QuoteEnd(0), spans) by {
      RunSnoc(u, q);
    }
    SplitSpansOf(all, Scan(QuoteEnd(0), spans));
    assert SplitSpans(all) == [Span(0, |w|), Span(0, |all|)];
    assert all[0..|w|] == w;
    assert all[0..|all|] == all;
  }

  /** `ab"c"` splits into `ab` and `ab"c"`. */
  lemma PlainThenQuoteExample()
    ensures SplitToArgs("ab\"c\"") == ["ab", "ab\"c\""]
  {
    assert Literal("c", '"');
    PlainThenQuote("ab", '"', "c");
    assert "ab" + ['"'] + "c" + ['"'] == "ab\"c\"";
  }
}
