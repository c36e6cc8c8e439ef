/** `TokenizeCompoundToken` of words/tokenizer.go: neighbouring tokens are
    merged into one when the lexicon or a classifier accepts the text they
    span together ("pomme de terre", "12 h 30"). */
module Compound {
  import opened Wrappers
  import opened Utf8
  import opened Morphology
  import opened Tokens

  /** What the merging pass needs of its input to stay inside the text:
      every token starts on a byte of it, and no token ends before an
      earlier one starts. */
  predicate Mergeable(content: Bytes, toks: seq<Token>)
  {
    (forall k :: 0 <= k < |toks| ==> 0 <= toks[k].start < |content|) &&
    (forall k, l :: 0 <= k < l < |toks| ==> toks[k].start <= toks[l].end <= |content|)
  }

  /** Each token ends where the next one starts. */
  predicate Joined(toks: seq<Token>)
    decreases |toks|
  {
    |toks| <= 1 || (toks[0].end == toks[1].start && Joined(toks[1..]))
  }

  /** Only a token whose first byte, read as a rune, is neither a space nor
      a digit may start a compound. */
  predicate StartsCompound(content: Bytes, t: Token, ctx: Context)
    requires 0 <= t.start < |content|
  {
    !(ctx.uni.isSpace(content[t.start]) || ctx.uni.isDigit(content[t.start]))
  }

  /** Tokens `i` to `e` merged: at most `maxTokens` steps apart, and the
      token built over their whole text is valid. */
  predicate Merge(content: Bytes, toks: seq<Token>, ctx: Context, i: int, e: int, t: Token)
    requires Mergeable(content, toks)
  {
    0 <= i < e < |toks| && e - i <= ctx.dict.maxTokens &&
    t == BuildToken(content, true, toks[i].start, toks[e].end, ctx).0 && IsValid(t)
  }

  /** The inner loop of `TokenizeCompoundToken` from token `j` on: while the
      lexicon search may still succeed, build the token from `toks[i]` to
      `toks[j]` (when no more than `maxTokens` apart) and keep the last
      valid one with the index it ends at. */
  function Longest(content: Bytes, toks: seq<Token>, ctx: Context, i: int, j: int,
                   searchPath: bool, best: Option<(Token, int)>): (r: Option<(Token, int)>)
    requires Mergeable(content, toks) && 0 <= i < j <= |toks|
    requires best.Some? ==> best.value.1 < j && Merge(content, toks, ctx, i, best.value.1, best.value.0)
    ensures r.Some? ==> Merge(content, toks, ctx, i, r.value.1, r.value.0)
    ensures best.Some? ==> r.Some? && best.value.1 <= r.value.1
    decreases |toks| - j
  {
    if j == |toks| || !searchPath then best
    else if j - i <= ctx.dict.maxTokens then
      var b := BuildToken(content, searchPath, toks[i].start, toks[j].end, ctx);
      Longest(content, toks, ctx, i, j + 1, b.1, if IsValid(b.0) then Some((b.0, j)) else best)
    else
      Longest(content, toks, ctx, i, j + 1, searchPath, best)
  }

  /** One turn of the inner loop. */
  lemma LongestStep(content: Bytes, toks: seq<Token>, ctx: Context, i: int, j: int,
                    searchPath: bool, best: Option<(Token, int)>)
    requires Mergeable(content, toks) && 0 <= i < j < |toks| && searchPath
    requires best.Some? ==> best.value.1 < j && Merge(content, toks, ctx, i, best.value.1, best.value.0)
    ensures Longest(content, toks, ctx, i, j, searchPath, best) ==
      if j - i <= ctx.dict.maxTokens then
        var b := BuildToken(content, searchPath, toks[i].start, toks[j].end, ctx);
        Longest(content, toks, ctx, i, j + 1, b.1, if IsValid(b.0) then Some((b.0, j)) else best)
      else
        Longest(content, toks, ctx, i, j + 1, searchPath, best)
  {
  }

  /** The inner loop's invariant at token `j`: the best find so far is a
      merge ending before `j`, and finishing the search from here gives what
      the whole search gives. */
  predicate Searching(content: Bytes, toks: seq<Token>, ctx: Context, i: int, j: int,
                      searchPath: bool, best: Option<(Token, int)>)
    requires Mergeable(content, toks)
  {
    && 0 <= i < j <= |toks|
    && (best.Some? ==> best.value.1 < j && Merge(content, toks, ctx, i, best.value.1, best.value.0))
    && Longest(content, toks, ctx, i, j, searchPath, best) == Longest(content, toks, ctx, i, i + 1, true, None)
  }

  /** One turn of the inner loop keeps its invariant. */
  lemma SearchStep(content: Bytes, toks: seq<Token>, ctx: Context, i: int, j: int,
                   searchPath: bool, best: Option<(Token, int)>)
    requires Mergeable(content, toks) && Searching(content, toks, ctx, i, j, searchPath, best)
    requires j < |toks| && searchPath
    ensures j - i <= ctx.dict.maxTokens ==>
      var b := BuildToken(content, searchPath, toks[i].start, toks[j].end, ctx);
      Searching(content, toks, ctx, i, j + 1, b.1, if IsValid(b.0) then Some((b.0, j)) else best)
    ensures j - i > ctx.dict.maxTokens ==> Searching(content, toks, ctx, i, j + 1, searchPath, best)
  {
    LongestStep(content, toks, ctx, i, j, searchPath, best);
  }

  /** The compound starting at token `i`, if any. */
  function Found(content: Bytes, toks: seq<Token>, ctx: Context, i: int): (r: Option<(Token, int)>)
    requires Mergeable(content, toks) && 0 <= i < |toks|
    ensures r.Some? ==> Merge(content, toks, ctx, i, r.value.1, r.value.0)
    ensures r.Some? ==> StartsCompound(content, toks[i], ctx)
    ensures r.Some? ==> r.value.0.start == toks[i].start && r.value.0.end == toks[r.value.1].end
  {
    if StartsCompound(content, toks[i], ctx) then Longest(content, toks, ctx, i, i + 1, true, None)
    else None
  }

  /** What the search finds at each token: nothing, or a token and the
      index of the last input token it spans. */
  type Finds = seq<Option<(Token, int)>>

  /** A find at `k` spans tokens `k` to an index inside the list. */
  predicate Ahead(fs: Finds, n: int)
  {
    |fs| == n && forall k :: 0 <= k < n && fs[k].Some? ==> k <= fs[k].value.1 < n
  }

  /** The pass from token `i` on, given what the search finds at each
      token: a find replaces the tokens it spans, any other token is kept. */
  function MergeFrom(toks: seq<Token>, fs: Finds, i: int): seq<Token>
    requires Ahead(fs, |toks|) && 0 <= i <= |toks|
    decreases |toks| - i
  {
    if i == |toks| then []
    else
      match fs[i]
      case None => [toks[i]] + MergeFrom(toks, fs, i + 1)
      case Some(f) => [f.0] + MergeFrom(toks, fs, f.1 + 1)
  }

  /** The compound found at each token. */
  function Finding(content: Bytes, toks: seq<Token>, ctx: Context): (fs: Finds)
    requires Mergeable(content, toks)
    ensures Ahead(fs, |toks|)
    ensures forall k :: 0 <= k < |toks| ==> fs[k] == Found(content, toks, ctx, k)
  {
    seq(|toks|, k requires 0 <= k < |toks| => Found(content, toks, ctx, k))
  }

  /** The tokens from `i` on after merging: a compound replaces the tokens
      it spans, any other token is kept. */
  function CompoundFrom(content: Bytes, toks: seq<Token>, i: int, ctx: Context): seq<Token>
    requires Mergeable(content, toks) && 0 <= i <= |toks|
  {
    MergeFrom(toks, Finding(content, toks, ctx), i)
  }

  /** One step of the pass: the find at `i` replaces the tokens it spans,
      or token `i` is kept. */
  lemma MergeStep(toks: seq<Token>, fs: Finds, i: int)
    requires Ahead(fs, |toks|) && 0 <= i < |toks|
    ensures fs[i].Some? ==> MergeFrom(toks, fs, i) == [fs[i].value.0] + MergeFrom(toks, fs, fs[i].value.1 + 1)
    ensures fs[i].None? ==> MergeFrom(toks, fs, i) == [toks[i]] + MergeFrom(toks, fs, i + 1)
  {
  }

  /** The pass after emitting what it makes of token `i`. */
  lemma MergeAdvance(toks: seq<Token>, fs: Finds, i: int, done: seq<Token>)
    requires Ahead(fs, |toks|) && 0 <= i < |toks|
    requires done + MergeFrom(toks, fs, i) == MergeFrom(toks, fs, 0)
    ensures fs[i].None? ==> (done + [toks[i]]) + MergeFrom(toks, fs, i + 1) == MergeFrom(toks, fs, 0)
    ensures fs[i].Some? ==> (done + [fs[i].value.0]) + MergeFrom(toks, fs, fs[i].value.1 + 1) == MergeFrom(toks, fs, 0)
  {
    MergeStep(toks, fs, i);
    if fs[i].None? {
      MoveFirst(MergeFrom(toks, fs, 0), done, MergeFrom(toks, fs, i), toks[i], MergeFrom(toks, fs, i + 1));
    } else {
      MoveFirst(MergeFrom(toks, fs, 0), done, MergeFrom(toks, fs, i), fs[i].value.0, MergeFrom(toks, fs, fs[i].value.1 + 1));
    }
  }

  lemma {:induction false} MergeShrinks(toks: seq<Token>, fs: Finds, i: int)
    requires Ahead(fs, |toks|) && 0 <= i <= |toks|
    ensures |MergeFrom(toks, fs, i)| <= |toks| - i
    decreases |toks| - i
  {
    if i < |toks| {
      MergeShrinks(toks, fs, if fs[i].Some? then fs[i].value.1 + 1 else i + 1);
    }
  }

  /** Merging never adds tokens. */
  lemma CompoundShrinks(content: Bytes, toks: seq<Token>, i: int, ctx: Context)
    requires Mergeable(content, toks) && 0 <= i <= |toks|
    ensures |CompoundFrom(content, toks, i, ctx)| <= |toks| - i
  {
    MergeShrinks(toks, Finding(content, toks, ctx), i);
  }

  lemma {:induction false} MergeOrigin(toks: seq<Token>, fs: Finds, i: int, t: Token)
    requires Ahead(fs, |toks|) && 0 <= i <= |toks| && t in MergeFrom(toks, fs, i)
    ensures t in toks[i..] || exists k :: i <= k < |toks| && fs[k].Some? && fs[k].value.0 == t
    decreases |toks| - i
  {
    var next := if fs[i].Some? then fs[i].value.1 + 1 else i + 1;
    var head := if fs[i].Some? then fs[i].value.0 else toks[i];
    assert MergeFrom(toks, fs, i) == [head] + MergeFrom(toks, fs, next);
    if t == head {
      if fs[i].None? {
        assert toks[i..][0] == t;
      }
    } else {
      MergeOrigin(toks, fs, next, t);
      if t in toks[next..] {
        assert toks[next..] == toks[i..][next - i..];
      }
    }
  }

  /** Every token out of the pass is an input token or a valid compound of
      input tokens at most `maxTokens` apart, starting on a token that may
      start one. */
  lemma CompoundMerges(content: Bytes, toks: seq<Token>, i: int, ctx: Context, t: Token)
    requires Mergeable(content, toks) && 0 <= i <= |toks|
    requires t in CompoundFrom(content, toks, i, ctx)
    ensures t in toks[i..] ||
      exists a, e :: i <= a && Merge(content, toks, ctx, a, e, t) && StartsCompound(content, toks[a], ctx)
  {
    var fs := Finding(content, toks, ctx);
    MergeOrigin(toks, fs, i, t);
    if t !in toks[i..] {
      var k :| i <= k < |toks| && fs[k].Some? && fs[k].value.0 == t;
      assert fs[k] == Found(content, toks, ctx, k);
      assert Merge(content, toks, ctx, k, fs[k].value.1, t) && StartsCompound(content, toks[k], ctx);
    }
  }

  lemma {:induction false} MergeNothing(toks: seq<Token>, fs: Finds, i: int)
    requires Ahead(fs, |toks|) && 0 <= i <= |toks|
    requires forall k :: 0 <= k < |toks| ==> fs[k].None?
    ensures MergeFrom(toks, fs, i) == toks[i..]
    decreases |toks| - i
  {
    if i < |toks| {
      MergeNothing(toks, fs, i + 1);
      assert toks[i..] == [toks[i]] + toks[i + 1..];
    }
  }

  /** With `maxTokens` below one nothing is merged. */
  lemma NoMergeWithoutRoom(content: Bytes, toks: seq<Token>, i: int, ctx: Context)
    requires Mergeable(content, toks) && 0 <= i <= |toks| && ctx.dict.maxTokens < 1
    ensures CompoundFrom(content, toks, i, ctx) == toks[i..]
  {
    var fs := Finding(content, toks, ctx);
    forall k | 0 <= k < |toks| ensures fs[k].None? {
      assert fs[k] == Found(content, toks, ctx, k);
    }
    MergeNothing(toks, fs, i);
  }

  lemma {:induction false} JoinedAt(toks: seq<Token>, k: int)
    requires Joined(toks) && 0 <= k < |toks| - 1
    ensures toks[k].end == toks[k + 1].start
    decreases k
  {
    if k > 0 {
      JoinedAt(toks[1..], k - 1);
    }
  }

  /** Each find spans its tokens' text: it starts where token `k` starts
      and ends where the last token it spans ends. */
  predicate Spanning(toks: seq<Token>, fs: Finds)
    requires Ahead(fs, |toks|)
  {
    forall k :: 0 <= k < |toks| && fs[k].Some? ==>
      fs[k].value.0.start == toks[k].start && fs[k].value.0.end == toks[fs[k].value.1].end
  }

  /** The first token out of the pass from `i`, and the last input token
      it stands for. */
  lemma MergeHead(toks: seq<Token>, fs: Finds, i: int) returns (e: int, head: Token)
    requires Ahead(fs, |toks|) && 0 <= i < |toks|
    ensures i <= e < |toks| && MergeFrom(toks, fs, i) == [head] + MergeFrom(toks, fs, e + 1)
    ensures fs[i].Some? ==> e == fs[i].value.1 && head == fs[i].value.0
    ensures fs[i].None? ==> e == i && head == toks[i]
  {
    if fs[i].Some? {
      e, head := fs[i].value.1, fs[i].value.0;
    } else {
      e, head := i, toks[i];
    }
  }

  /** A token put in front of joined tokens that it meets. */
  lemma JoinCons(head: Token, rest: seq<Token>)
    requires Joined(rest) && (rest != [] ==> head.end == rest[0].start)
    ensures var out := [head] + rest;
      Joined(out) && out[0] == head && out[|out| - 1].end == (if rest == [] then head else rest[|rest| - 1]).end
  {
    assert ([head] + rest)[1..] == rest;
  }

  lemma {:induction false} MergeCovers(toks: seq<Token>, fs: Finds, i: int)
    requires Ahead(fs, |toks|) && Spanning(toks, fs) && Joined(toks) && 0 <= i < |toks|
    ensures var out := MergeFrom(toks, fs, i);
      Joined(out) && out != [] &&
      out[0].start == toks[i].start && out[|out| - 1].end == toks[|toks| - 1].end
    decreases |toks| - i
  {
    var e, head := MergeHead(toks, fs, i);
    var rest := MergeFrom(toks, fs, e + 1);
    assert head.start == toks[i].start && head.end == toks[e].end;
    if e + 1 < |toks| {
      MergeCovers(toks, fs, e + 1);
      JoinedAt(toks, e);
    } else {
      assert rest == [];
    }
    JoinCons(head, rest);
  }

  /** Merging keeps the text covered: the tokens out of the pass still join
      up, from the start of token `i` to the end of the last token. */
  lemma CompoundCovers(content: Bytes, toks: seq<Token>, i: int, ctx: Context)
    requires Mergeable(content, toks) && Joined(toks) && 0 <= i < |toks|
    ensures var out := CompoundFrom(content, toks, i, ctx);
      Joined(out) && out != [] &&
      out[0].start == toks[i].start && out[|out| - 1].end == toks[|toks| - 1].end
  {
    var fs := Finding(content, toks, ctx);
    forall k | 0 <= k < |toks| && fs[k].Some?
      ensures fs[k].value.0.start == toks[k].start && fs[k].value.0.end == toks[fs[k].value.1].end
    {
      assert fs[k] == Found(content, toks, ctx, k);
    }
    MergeCovers(toks, fs, i);
  }

  /** One turn of the inner loop: when token `j` is at most `maxTokens`
      past token `i`, build the token over both, let it decide whether the
      search goes on, and keep it when valid. */
  method Probe(content: Bytes, intoks: seq<Token>, ctx: Context, i: int, j: int,
               searchPath: bool, found: Option<(Token, int)>)
    returns (searchPath': bool, found': Option<(Token, int)>)
    requires Mergeable(content, intoks) && Searching(content, intoks, ctx, i, j, searchPath, found)
    requires j < |intoks| && searchPath
    ensures Searching(content, intoks, ctx, i, j + 1, searchPath', found')
  {
    SearchStep(content, intoks, ctx, i, j, searchPath, found);
    searchPath', found' := searchPath, found;
    if j - i <= ctx.dict.maxTokens {
      var b := BuildToken(content, searchPath, intoks[i].start, intoks[j].end, ctx);
      searchPath' := b.1;
      if IsValid(b.0) {
        found' := Some((b.0, j));
      }
    }
  }

  /** The inner loop of `TokenizeCompoundToken` for token `i`; its `isComp`
      test, constant over the loop, guards the whole loop here. */
  method LongestCompound(content: Bytes, intoks: seq<Token>, ctx: Context, i: int) returns (found: Option<(Token, int)>)
    requires Mergeable(content, intoks) && 0 <= i < |intoks|
    ensures found == Found(content, intoks, ctx, i)
  {
    var startPos := intoks[i].start;
    var r := content[startPos];
    var isComp := !(ctx.uni.isSpace(r) || ctx.uni.isDigit(r));
    found := None;
    if isComp {
      var searchPath := true;
      var j := i + 1;
      while j < |intoks| && searchPath
        invariant Searching(content, intoks, ctx, i, j, searchPath, found)
        decreases |intoks| - j
      {
        searchPath, found := Probe(content, intoks, ctx, i, j, searchPath, found);
        j := j + 1;
      }
    }
  }

  /** `TokenizeCompoundToken`: for each token, scan ahead for the longest
      compound it starts, emit it and jump past it, or emit the token. */
  method CompoundToken(content: Bytes, intoks: seq<Token>, ctx: Context) returns (tokens: seq<Token>)
    requires Mergeable(content, intoks)
    ensures tokens == CompoundFrom(content, intoks, 0, ctx)
  {
    tokens := [];
    var i := 0;
    ghost var fs := Finding(content, intoks, ctx);
    while i < |intoks|
      invariant 0 <= i <= |intoks|
      invariant tokens + MergeFrom(intoks, fs, i) == MergeFrom(intoks, fs, 0)
      decreases |intoks| - i
    {
      var found := LongestCompound(content, intoks, ctx, i);
      assert found == fs[i];
      MergeAdvance(intoks, fs, i, tokens);
      if found.None? {
        tokens := tokens + [intoks[i]];
        i := i + 1;
      } else {
        tokens := tokens + [found.value.0];
        i := found.value.1 + 1;
      }
    }
  }
}
