/** The cutting of a text into tokens (`Tokenize` of words/tokenizer.go) and
    the merging of neighbouring tokens into lexicon compounds
    (`TokenizeCompoundToken`). */
module Tokenizer {
  import opened Wrappers
  import opened Utf8
  import opened Morphology
  import opened Tokens
  import opened Compound

  /** A byte range [start, end) of the text. */
  type Span = (int, int)

  /** One turn of the decoding loop of `Tokenize`: the byte it stands on,
      the rune decoded there and its width. */
  datatype Step = Step(pos: int, rune: Rune, width: int)

  /** The turns of the decoding loop from byte `i` on. */
  function Steps(content: Bytes, i: int): (ss: seq<Step>)
    requires 0 <= i <= |content|
    decreases |content| - i
    ensures Chained(ss, i, |content|)
  {
    if i == |content| then []
    else
      var d := DecodeRune(content[i..]);
      [Step(i, d.0, d.1)] + Steps(content, i + d.1)
  }

  /** Each turn starts where the one before it ended, from `i` to `n`. */
  predicate Chained(ss: seq<Step>, i: int, n: int)
    decreases |ss|
  {
    if ss == [] then i == n
    else ss[0].pos == i && 1 <= ss[0].width && Chained(ss[1..], i + ss[0].width, n)
  }

  /** A chain never passes its end, and one already at its end is empty. */
  lemma {:induction false} ChainedBound(ss: seq<Step>, i: int, n: int)
    requires Chained(ss, i, n)
    ensures i <= n && (i == n ==> ss == [])
    decreases |ss|
  {
    if ss != [] {
      ChainedBound(ss[1..], i + ss[0].width, n);
    }
  }

  /** Every turn of a chain lies inside it. */
  lemma {:induction false} StepsInside(ss: seq<Step>, i: int, n: int, s: Step)
    requires Chained(ss, i, n) && s in ss
    ensures i <= s.pos && 1 <= s.width && s.pos + s.width <= n
    decreases |ss|
  {
    if s == ss[0] {
      ChainedBound(ss[1..], s.pos + s.width, n);
    } else {
      assert s in ss[1..];
      StepsInside(ss[1..], ss[0].pos + ss[0].width, n, s);
    }
  }

  /** The turns after the first stand past it. */
  lemma StepsAfter(ss: seq<Step>, i: int, n: int, s: Step)
    requires Chained(ss, i, n) && ss != [] && s in ss[1..]
    ensures ss[0].pos + ss[0].width <= s.pos && 1 <= s.width && s.pos + s.width <= n
  {
    StepsInside(ss[1..], ss[0].pos + ss[0].width, n, s);
  }

  /** The runes at which `Tokenize` cuts: punctuation and spaces, except `&`. */
  predicate Separator(uni: Unicode, r: Rune)
  {
    (uni.isPunct(r) || uni.isSpace(r)) && r != '&' as int
  }

  /** Non-empty spans inside [lo, hi). */
  predicate Within(spans: seq<Span>, lo: int, hi: int)
  {
    forall k :: 0 <= k < |spans| ==> lo <= spans[k].0 < spans[k].1 <= hi
  }

  /** Each span starts where the one before it ends. */
  predicate Contiguous(spans: seq<Span>)
    decreases |spans|
  {
    |spans| <= 1 || (spans[0].1 == spans[1].0 && Contiguous(spans[1..]))
  }

  /** The spans the loop of `Tokenize` hands to `TokenizeAddToken` over the
      turns `ss` of a text of `n` bytes, the current run starting at `j`: a
      separator closes the pending run and is a span of its own, and the
      pending run is closed at the end only when a turn stands on the last
      byte. */
  function Cut(uni: Unicode, ss: seq<Step>, n: int, j: int): (spans: seq<Span>)
    decreases |ss|
  {
    if ss == [] then []
    else
      var s := ss[0];
      if Separator(uni, s.rune) then
        (if s.pos > j then [(j, s.pos)] else []) + [(s.pos, s.pos + s.width)] + Cut(uni, ss[1..], n, s.pos + s.width)
      else if s.pos == n - 1 then [(j, s.pos + s.width)]
      else Cut(uni, ss[1..], n, j)
  }

  lemma WithinAppend(a: seq<Span>, b: seq<Span>, lo: int, mid: int, hi: int)
    requires Within(a, lo, hi) && Within(b, mid, hi) && lo <= mid
    ensures Within(a + b, lo, hi)
  {
    forall k | 0 <= k < |a + b|
      ensures lo <= (a + b)[k].0 < (a + b)[k].1 <= hi
    {
      if k >= |a| {
        assert (a + b)[k] == b[k - |a|];
      }
    }
  }

  lemma {:induction false} ContiguousAppend(a: seq<Span>, b: seq<Span>)
    requires Contiguous(a) && Contiguous(b)
    requires a != [] && b != [] ==> a[|a| - 1].1 == b[0].0
    ensures Contiguous(a + b)
    decreases |a|
  {
    if a == [] {
      assert a + b == b;
    } else if |a| == 1 {
      assert (a + b)[1..] == b;
    } else {
      ContiguousAppend(a[1..], b);
      assert (a + b)[1..] == a[1..] + b;
    }
  }

  /** The spans are non-empty, lie between the pending run and the end of
      the text, and follow each other without gaps. */
  lemma {:induction false} CutShape(uni: Unicode, ss: seq<Step>, i: int, n: int, j: int)
    requires Chained(ss, i, n) && 0 <= j <= i
    ensures Within(Cut(uni, ss, n, j), j, n)
    ensures Contiguous(Cut(uni, ss, n, j))
    ensures Cut(uni, ss, n, j) != [] ==> Cut(uni, ss, n, j)[0].0 == j
    decreases |ss|
  {
    if ss != [] {
      var next := ss[0].pos + ss[0].width;
      ChainedBound(ss[1..], next, n);
      if Separator(uni, ss[0].rune) {
        CutSeparator(uni, ss, i, n, j);
        var head := (if i > j then [(j, i)] else []) + [(i, next)];
        var rest := Cut(uni, ss[1..], n, next);
        CutShape(uni, ss[1..], next, n, next);
        assert Within(head, j, n) && Contiguous(head);
        WithinAppend(head, rest, j, next, n);
        ContiguousAppend(head, rest);
      } else {
        CutRun(uni, ss, i, n, j);
        if i != n - 1 {
          CutShape(uni, ss[1..], next, n, j);
        }
      }
    }
  }

  /** The spans of the whole text. */
  function Split(content: Bytes, uni: Unicode): (spans: seq<Span>)
    ensures Within(spans, 0, |content|) && Contiguous(spans)
  {
    CutShape(uni, Steps(content, 0), 0, |content|, 0);
    Cut(uni, Steps(content, 0), |content|, 0)
  }

  /** One token per span, classified with a fresh lexicon search. */
  function Build(content: Bytes, spans: seq<Span>, ctx: Context): (toks: seq<Token>)
    requires Within(spans, 0, |content|)
  {
    seq(|spans|, k requires 0 <= k < |spans| => BuildToken(content, true, spans[k].0, spans[k].1, ctx).0)
  }

  /** A separator rune on the walk is a span of its own. */
  lemma {:induction false} SeparatorKept(uni: Unicode, ss: seq<Step>, i: int, n: int, j: int, s: Step)
    requires Chained(ss, i, n) && 0 <= j <= i
    requires s in ss && Separator(uni, s.rune)
    ensures (s.pos, s.pos + s.width) in Cut(uni, ss, n, j)
    decreases |ss|
  {
    var h := ss[0];
    var next := h.pos + h.width;
    if Separator(uni, h.rune) {
      CutSeparator(uni, ss, i, n, j);
      if s != h {
        assert s in ss[1..];
        SeparatorKept(uni, ss[1..], next, n, next, s);
      }
    } else {
      assert s in ss[1..];
      StepsAfter(ss, i, n, s);
      CutRun(uni, ss, i, n, j);
      SeparatorKept(uni, ss[1..], next, n, j, s);
    }
  }

  /** No separator rune on the walk lies strictly inside a span: the spans
      of more than one rune are runs of non-separators. */
  lemma {:induction false} SeparatorsNotInside(uni: Unicode, ss: seq<Step>, i: int, n: int, j: int, s: Step, span: Span)
    requires Chained(ss, i, n) && 0 <= j <= i
    requires s in ss && Separator(uni, s.rune) && span in Cut(uni, ss, n, j)
    ensures span.1 <= s.pos || s.pos <= span.0
    decreases |ss|
  {
    var h := ss[0];
    var next := h.pos + h.width;
    if Separator(uni, h.rune) {
      CutSeparator(uni, ss, i, n, j);
      var rest := Cut(uni, ss[1..], n, next);
      CutShape(uni, ss[1..], next, n, next);
      if s != h {
        assert s in ss[1..];
        StepsAfter(ss, i, n, s);
        if span in rest {
          SeparatorsNotInside(uni, ss[1..], next, n, next, s, span);
        }
      }
    } else {
      assert s in ss[1..];
      StepsAfter(ss, i, n, s);
      CutRun(uni, ss, i, n, j);
      SeparatorsNotInside(uni, ss[1..], next, n, j, s, span);
    }
  }

  /** A span starting on a separator rune is that one rune. */
  lemma {:induction false} SeparatorsAlone(uni: Unicode, ss: seq<Step>, i: int, n: int, j: int, s: Step, span: Span)
    requires Chained(ss, i, n) && 0 <= j <= i
    requires s in ss && Separator(uni, s.rune) && span in Cut(uni, ss, n, j) && span.0 == s.pos
    ensures span.1 == s.pos + s.width
    decreases |ss|
  {
    var h := ss[0];
    var next := h.pos + h.width;
    if Separator(uni, h.rune) {
      CutSeparator(uni, ss, i, n, j);
      CutShape(uni, ss[1..], next, n, next);
      if s != h {
        assert s in ss[1..];
        StepsAfter(ss, i, n, s);
        SeparatorsAlone(uni, ss[1..], next, n, next, s, span);
      }
    } else {
      assert s in ss[1..];
      StepsAfter(ss, i, n, s);
      CutRun(uni, ss, i, n, j);
      SeparatorsAlone(uni, ss[1..], next, n, j, s, span);
    }
  }

  /** The spans run from `lo` to `hi`. */
  predicate Covers(spans: seq<Span>, lo: int, hi: int)
  {
    spans != [] && spans[0].0 == lo && spans[|spans| - 1].1 == hi
  }

  lemma CoversAppend(a: seq<Span>, b: seq<Span>, lo: int, mid: int, hi: int)
    requires Covers(a, lo, mid) && Covers(b, mid, hi)
    ensures Covers(a + b, lo, hi)
  {
  }

  /** When a turn stands on the last byte, the spans cover the text from the
      pending run to the end. */
  lemma {:induction false} CutCovers(uni: Unicode, ss: seq<Step>, i: int, n: int, j: int, s: Step)
    requires Chained(ss, i, n) && 0 <= j <= i
    requires s in ss && s.pos == n - 1
    ensures Covers(Cut(uni, ss, n, j), j, n)
    decreases |ss|
  {
    var h := ss[0];
    var next := h.pos + h.width;
    ChainedBound(ss[1..], next, n);
    if Separator(uni, h.rune) {
      CutSeparator(uni, ss, i, n, j);
      var head := (if i > j then [(j, i)] else []) + [(i, next)];
      var rest := Cut(uni, ss[1..], n, next);
      if s == h {
        assert rest == [];
        assert head + rest == head;
      } else {
        assert s in ss[1..];
        CutCovers(uni, ss[1..], next, n, next, s);
        CoversAppend(head, rest, j, next, n);
      }
    } else {
      CutRun(uni, ss, i, n, j);
      if i != n - 1 {
        assert s in ss[1..];
        CutCovers(uni, ss[1..], next, n, j, s);
      }
    }
  }

  /** The last byte of a multi-byte rune is a continuation byte. */
  lemma DecodeEndsHigh(s: Bytes)
    requires DecodeRune(s).1 > 1
    ensures s[DecodeRune(s).1 - 1] >= 0x80
  {
  }

  /** Ending in an ASCII byte, the text is walked onto its last byte. */
  lemma {:induction false} LastStep(content: Bytes, i: int) returns (s: Step)
    requires 0 <= i < |content| && content[|content| - 1] < 0x80
    ensures s in Steps(content, i) && s.pos == |content| - 1
    decreases |content| - i
  {
    var d := DecodeRune(content[i..]);
    var w := d.1;
    StepsUnfold(content, i);
    if i == |content| - 1 {
      s := Steps(content, i)[0];
    } else {
      if w > 1 {
        DecodeEndsHigh(content[i..]);
        assert content[i..][w - 1] == content[i + w - 1];
      }
      s := LastStep(content, i + w);
      assert s in Steps(content, i)[1..];
    }
  }

  /** A text whose last byte is ASCII is cut into spans that cover it. */
  lemma AsciiEndCovered(content: Bytes, uni: Unicode)
    requires content != [] && content[|content| - 1] < 0x80
    ensures Covers(Split(content, uni), 0, |content|)
  {
    var s := LastStep(content, 0);
    CutCovers(uni, Steps(content, 0), 0, |content|, 0, s);
  }

  /** A text ending in a multi-byte rune loses its last run: the bytes
      61 C3 A9 ("a" then U+00E9), neither rune a separator, yield no span at
      all, because the loop jumps from byte 1 past the end without standing
      on the last byte. */
  lemma TrailingRunDropped(uni: Unicode)
    requires !Separator(uni, 0x61) && !Separator(uni, 0xE9)
    ensures Split([0x61, 0xC3, 0xA9], uni) == []
  {
    var content: Bytes := [0x61, 0xC3, 0xA9];
    assert DecodeRune(content[0..]) == (0x61, 1);
    RunTurn(content, uni, 0, 0, 0x61, 1);
    assert DecodeRune(content[1..]) == (0xE9, 2);
    RunTurn(content, uni, 1, 0, 0xE9, 2);
    assert Steps(content, 3) == [];
  }

  lemma StepsUnfold(content: Bytes, i: int)
    requires 0 <= i < |content|
    ensures var d := DecodeRune(content[i..]);
      Steps(content, i)[0] == Step(i, d.0, d.1) && Steps(content, i)[1..] == Steps(content, i + d.1)
  {
    var d := DecodeRune(content[i..]);
    TailOfCons(Step(i, d.0, d.1), Steps(content, i + d.1));
  }

  lemma TailOfCons(x: Step, ys: seq<Step>)
    ensures ([x] + ys)[0] == x && ([x] + ys)[1..] == ys
  {
  }

  /** A turn on a separator: the pending run, the separator, and a new run
      after it. */
  lemma SeparatorTurn(content: Bytes, uni: Unicode, i: int, j: int, r: Rune, w: int)
    requires 0 <= j <= i < |content|
    requires (r, w) == DecodeRune(content[i..]) && Separator(uni, r)
    ensures Cut(uni, Steps(content, i), |content|, j)
      == (if i > j then [(j, i)] else []) + [(i, i + w)] + Cut(uni, Steps(content, i + w), |content|, i + w)
  {
    StepsUnfold(content, i);
    CutSeparator(uni, Steps(content, i), i, |content|, j);
  }

  lemma CutSeparator(uni: Unicode, ss: seq<Step>, i: int, n: int, j: int)
    requires Chained(ss, i, n) && 0 <= j <= i && ss != [] && Separator(uni, ss[0].rune)
    ensures Chained(ss[1..], ss[0].pos + ss[0].width, n)
    ensures var next := ss[0].pos + ss[0].width;
      Cut(uni, ss, n, j) == (if i > j then [(j, i)] else []) + [(i, next)] + Cut(uni, ss[1..], n, next)
  {
  }

  /** A turn on any other rune: the run goes on, and is closed when the turn
      stands on the last byte. */
  lemma RunTurn(content: Bytes, uni: Unicode, i: int, j: int, r: Rune, w: int)
    requires 0 <= j <= i < |content|
    requires (r, w) == DecodeRune(content[i..]) && !Separator(uni, r)
    ensures Cut(uni, Steps(content, i), |content|, j)
      == if i == |content| - 1 then [(j, i + w)] else Cut(uni, Steps(content, i + w), |content|, j)
  {
    StepsUnfold(content, i);
    CutRun(uni, Steps(content, i), i, |content|, j);
  }

  lemma CutRun(uni: Unicode, ss: seq<Step>, i: int, n: int, j: int)
    requires Chained(ss, i, n) && 0 <= j <= i && ss != [] && !Separator(uni, ss[0].rune)
    ensures Chained(ss[1..], ss[0].pos + ss[0].width, n)
    ensures var next := ss[0].pos + ss[0].width;
      Cut(uni, ss, n, j) == if i == n - 1 then [(j, next)] else Cut(uni, ss[1..], n, j)
  {
  }

  lemma BuildSnoc(content: Bytes, spans: seq<Span>, span: Span, ctx: Context)
    requires Within(spans, 0, |content|) && 0 <= span.0 < span.1 <= |content|
    ensures Within(spans + [span], 0, |content|)
    ensures Build(content, spans + [span], ctx) == Build(content, spans, ctx) + [BuildToken(content, true, span.0, span.1, ctx).0]
  {
  }

  /** Sequence concatenation regrouped, as the loop of Tokenize needs it. */
  lemma Regroup<T>(spans: seq<T>, mid: seq<T>, before: seq<T>, pre: seq<T>, x: T, after: seq<T>, rest: seq<T>)
    requires mid == before + pre && spans == mid + [x] && rest == pre + [x] + after
    ensures spans + after == before + rest
  {
  }

  /** `TokenizeAddToken`, with the span it hands over recorded. */
  method Emit(content: Bytes, start: int, end: int, tokens: seq<Token>, ghost spans: seq<Span>, ctx: Context)
    returns (tokens': seq<Token>, ghost spans': seq<Span>)
    requires 0 <= start <= end <= |content|
    requires Within(spans, 0, |content|) && tokens == Build(content, spans, ctx)
    ensures start == end ==> spans' == spans
    ensures start != end ==> spans' == spans + [(start, end)]
    ensures Within(spans', 0, |content|) && tokens' == Build(content, spans', ctx)
  {
    if start != end {
      BuildSnoc(content, spans, (start, end), ctx);
    }
    tokens' := AddToken(content, start, end, tokens, ctx);
    spans' := if start == end then spans else spans + [(start, end)];
  }

  /**
   * The separator case of the decoding loop: emit the pending run, if
   * any, then the separator itself; both are the next spans of `Cut`.
   */
  method EmitSeparator(content: Bytes, ctx: Context, i: int, j: int, r: Rune, w: int,
                       tokens: seq<Token>, ghost spans: seq<Span>)
    returns (tokens': seq<Token>, ghost spans': seq<Span>)
    requires 0 <= j <= i < |content|
    requires (r, w) == DecodeRune(content[i..]) && Separator(ctx.uni, r)
    requires Within(spans, 0, |content|) && tokens == Build(content, spans, ctx)
    ensures Within(spans', 0, |content|) && tokens' == Build(content, spans', ctx)
    ensures spans' + Cut(ctx.uni, Steps(content, i + w), |content|, i + w)
         == spans + Cut(ctx.uni, Steps(content, i), |content|, j)
  {
    ghost var pre := if i > j then [(j, i)] else [];
    ghost var after := Cut(ctx.uni, Steps(content, i + w), |content|, i + w);
    ghost var rest := Cut(ctx.uni, Steps(content, i), |content|, j);
    SeparatorTurn(content, ctx.uni, i, j, r, w);
    assert rest == pre + [(i, i + w)] + after;
    assert content[i..] != [] && 1 <= w;
    tokens', spans' := tokens, spans;
    if i > j {
      tokens', spans' := Emit(content, j, i, tokens', spans', ctx);
    }
    assert spans' == spans + pre;
    ghost var mid := spans';
    tokens', spans' := Emit(content, i, i + w, tokens', spans', ctx);
    assert spans' == mid + [(i, i + w)];
    Regroup(spans', mid, spans, pre, (i, i + w), after, rest);
  }

  /**
   * One pass of the decoding loop of `Tokenize` at byte `i`, with the
   * current run starting at `j`: decode one rune, emit the pending run and
   * the separator when the rune is one, and emit the run when `i` is the
   * last byte.  What it emits is exactly the next part of `Cut`.
   */
  method Visit(content: Bytes, ctx: Context, i: int, j: int, tokens: seq<Token>, ghost spans: seq<Span>)
    returns (w: int, j': int, tokens': seq<Token>, ghost spans': seq<Span>)
    requires 0 <= j <= i < |content|
    requires Within(spans, 0, |content|) && tokens == Build(content, spans, ctx)
    ensures w == DecodeRune(content[i..]).1 && 0 <= j' <= i + w <= |content|
    ensures Within(spans', 0, |content|) && tokens' == Build(content, spans', ctx)
    ensures spans' + Cut(ctx.uni, Steps(content, i + w), |content|, j')
         == spans + Cut(ctx.uni, Steps(content, i), |content|, j)
  {
    var n := |content|;
    var d := DecodeRune(content[i..]);
    var r := d.0;
    w := d.1;
    ghost var sep := Separator(ctx.uni, r);
    if Separator(ctx.uni, r) {
      tokens', spans' := EmitSeparator(content, ctx, i, j, r, w, tokens, spans);
      j' := i + w;
    } else {
      tokens', spans', j' := tokens, spans, j;
      RunTurn(content, ctx.uni, i, j, r, w);
    }
    if i == n - 1 {
      assert Steps(content, i + w) == [];
      ghost var mid := spans';
      tokens', spans' := Emit(content, j', i + w, tokens', spans', ctx);
      if sep {
        assert spans' == mid;
      } else {
        assert spans' == spans + Cut(ctx.uni, Steps(content, i), n, j);
      }
    }
  }

  /** Contiguous spans inside the text follow each other in order. */
  lemma {:induction false} ContiguousOrdered(spans: seq<Span>, lo: int, hi: int)
    requires Within(spans, lo, hi) && Contiguous(spans)
    ensures forall k, l :: 0 <= k < l < |spans| ==> spans[k].1 <= spans[l].0
    decreases |spans|
  {
    if |spans| > 1 {
      ContiguousOrdered(spans[1..], lo, hi);
      forall k, l | 0 <= k < l < |spans| ensures spans[k].1 <= spans[l].0 {
        if k > 0 {
          assert spans[1..][k - 1] == spans[k] && spans[1..][l - 1] == spans[l];
        } else if l > 1 {
          assert spans[1..][0] == spans[1] && spans[1..][l - 1] == spans[l];
        }
      }
    }
  }

  lemma {:induction false} BuildJoined(content: Bytes, spans: seq<Span>, ctx: Context)
    requires Within(spans, 0, |content|) && Contiguous(spans)
    ensures Joined(Build(content, spans, ctx))
    decreases |spans|
  {
    if |spans| > 1 {
      BuildJoined(content, spans[1..], ctx);
      assert Build(content, spans, ctx)[1..] == Build(content, spans[1..], ctx);
    }
  }

  /** The tokens of the decoding loop: one per span of `Split`.  They lie
      inside the text, in order and without gaps, so the compound pass may
      run over them. */
  function Tokenized(content: Bytes, ctx: Context): (toks: seq<Token>)
    ensures Mergeable(content, toks) && Joined(toks)
    ensures |toks| == |Split(content, ctx.uni)|
  {
    var spans := Split(content, ctx.uni);
    ContiguousOrdered(spans, 0, |content|);
    BuildJoined(content, spans, ctx);
    Build(content, spans, ctx)
  }

  /** The decoding loop stands at byte `i` with the pending run starting at
      `j`: the tokens are built from the spans so far, and those spans
      followed by the cut of the rest are the cut of the whole text. */
  predicate Progress(content: Bytes, ctx: Context, goal: seq<Span>, i: int, j: int, tokens: seq<Token>, spans: seq<Span>)
  {
    0 <= j <= i <= |content| &&
    Within(spans, 0, |content|) && tokens == Build(content, spans, ctx) &&
    spans + Cut(ctx.uni, Steps(content, i), |content|, j) == goal
  }

  lemma ProgressStep(content: Bytes, ctx: Context, goal: seq<Span>, i: int, j: int, tokens: seq<Token>, spans: seq<Span>,
                     w: int, j': int, tokens': seq<Token>, spans': seq<Span>)
    requires Progress(content, ctx, goal, i, j, tokens, spans) && i < |content|
    requires w == DecodeRune(content[i..]).1 && 0 <= j' <= i + w <= |content|
    requires Within(spans', 0, |content|) && tokens' == Build(content, spans', ctx)
    requires spans' + Cut(ctx.uni, Steps(content, i + w), |content|, j')
         == spans + Cut(ctx.uni, Steps(content, i), |content|, j)
    ensures Progress(content, ctx, goal, i + w, j', tokens', spans') && i < i + w
  {
  }

  lemma ProgressDone(content: Bytes, ctx: Context, goal: seq<Span>, j: int, tokens: seq<Token>, spans: seq<Span>)
    requires Progress(content, ctx, goal, |content|, j, tokens, spans)
    ensures tokens == Build(content, goal, ctx)
  {
    assert Steps(content, |content|) == [];
    assert spans + [] == spans;
  }

  /** One turn of the decoding loop keeps its progress invariant. */
  method Advance(content: Bytes, ctx: Context, ghost goal: seq<Span>, i: int, j: int, tokens: seq<Token>, ghost spans: seq<Span>)
    returns (w: int, j': int, tokens': seq<Token>, ghost spans': seq<Span>)
    requires Progress(content, ctx, goal, i, j, tokens, spans) && i < |content|
    ensures Progress(content, ctx, goal, i + w, j', tokens', spans') && i < i + w
  {
    w, j', tokens', spans' := Visit(content, ctx, i, j, tokens, spans);
    ProgressStep(content, ctx, goal, i, j, tokens, spans, w, j', tokens', spans');
  }

  /** The decoding loop of `Tokenize`: one visit per rune, left to right. */
  method DecodeLoop(content: Bytes, ctx: Context) returns (tokens: seq<Token>)
    ensures tokens == Build(content, Split(content, ctx.uni), ctx)
  {
    var n := |content|;
    tokens := [];
    var i, j := 0, 0;
    ghost var spans: seq<Span> := [];
    ghost var goal := Split(content, ctx.uni);
    while i < n
      invariant Progress(content, ctx, goal, i, j, tokens, spans)
      decreases n - i
    {
      var w;
      w, j, tokens, spans := Advance(content, ctx, goal, i, j, tokens, spans);
      i := i + w;
    }
    ProgressDone(content, ctx, goal, j, tokens, spans);
  }

  /** `Tokenize`: the decoding loop, then the compound pass when asked. */
  method Tokenize(content: Bytes, ctx: Context, compound: bool) returns (tokens: seq<Token>)
    ensures !compound ==> tokens == Tokenized(content, ctx)
    ensures compound ==> tokens == CompoundFrom(content, Tokenized(content, ctx), 0, ctx)
  {
    tokens := DecodeLoop(content, ctx);
    assert tokens == Tokenized(content, ctx);
    if compound {
      tokens := CompoundToken(content, tokens, ctx);
    }
  }
}
