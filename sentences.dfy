/** `TokenizeSentence` of words/tokenizer.go: the tokens of a text grouped
    into sentences, separators, fragments and parenthetical asides, with
    cursors `i` (the token looked at) and `j` (the start of the pending
    group). */
module Sentences {
  import opened Tokens
  import opened Compound
  import Tokenizer

  /** The sentence types `SENTENCE`, `NOSENTENCE`, `SEPARATOR` and
      `PARENTHESIS` (1 to 4 in the Go constants). */
  datatype Kind = Sentence | NoSentence | Separator | Parenthesis

  /** `TokenSentence`: the tokens `[start, end)` of the token list, with
      their type. */
  datatype TokenSentence = TokenSentence(start: int, end: int, kind: Kind)

  /** `TokenizeGetSentenceType`: an aside when it opens with `(` and closes
      with `)`, a fragment otherwise. */
  function SentenceType(toks: seq<Token>, i: int, j: int): Kind
    requires 0 <= i < |toks| && 0 <= j < |toks|
  {
    if IsBeginParenthesis(toks[i]) && IsEndParenthesis(toks[j]) then Parenthesis else NoSentence
  }

  /** The first token from `k` on that is not a space, or the end. */
  function FirstNonSpace(toks: seq<Token>, k: int): (r: int)
    requires 0 <= k <= |toks|
    ensures k <= r <= |toks|
    ensures r < |toks| ==> !IsSpace(toks[r])
    ensures forall m :: k <= m < r ==> IsSpace(toks[m])
    decreases |toks| - k
  {
    if k == |toks| || !IsSpace(toks[k]) then k else FirstNonSpace(toks, k + 1)
  }

  /** The last `)` token from `k` on, or `cur` when there is none. */
  function LastEndParenthesis(toks: seq<Token>, k: int, cur: int): (r: int)
    requires 0 <= k <= |toks|
    ensures r == cur || (k <= r < |toks| && IsEndParenthesis(toks[r]))
    ensures forall m :: k <= m < |toks| && r < m ==> !IsEndParenthesis(toks[m])
    decreases |toks| - k
  {
    if k == |toks| then cur
    else LastEndParenthesis(toks, k + 1, if IsEndParenthesis(toks[k]) then k else cur)
  }

  /** One turn of the loop of `TokenizeSentence`: the groups it emits and
      the cursors `i` and `j` it leaves for the next turn. */
  datatype Turn = Turn(out: seq<TokenSentence>, i: int, j: int)

  /** The turn at token `i`, the pending group starting at `j`:
      - a sentence-ending mark closes a sentence, unless the group opens
        with `(`;
      - a space first in the text or after an end mark starts a separator
        that runs to the next non-space token, and that token is then
        passed over (it opens the next group unexamined);
      - on `(`, the cursor jumps to the last `)` of the whole list;
      - a tab closes the pending group, if non-empty, as a fragment;
      - on the last token, a pending group of at least two tokens is
        flushed as an aside or a fragment.
      A turn that ends the loop leaves `i` at the end. */
  function Step(toks: seq<Token>, i: int, j: int): (r: Turn)
    requires 0 <= j <= i < |toks|
    ensures i < r.i <= |toks| && 0 <= r.j <= r.i
  {
    var t := toks[i];
    if IsDot(t) && !IsBeginParenthesis(toks[j]) then
      Turn([TokenSentence(j, i + 1, Sentence)], i + 1, i + 1)
    else if IsSpace(t) && (i == 0 || IsEnd(toks[i - 1])) then
      var k := FirstNonSpace(toks, i);
      if k < |toks| then Turn([TokenSentence(j, k, Separator)], k + 1, k)
      else Turn([TokenSentence(j, |toks|, Separator)], |toks|, |toks|)
    else
      var e := if IsBeginParenthesis(t) then LastEndParenthesis(toks, i, i) else i;
      if IsTab(t) then
        Turn(if e - j > 0 then [TokenSentence(j, e, NoSentence)] else [], e + 1, e + 1)
      else if e == |toks| - 1 && j < |toks| && e - j > 0 then
        Turn([TokenSentence(j, |toks|, SentenceType(toks, j, |toks| - 1))], |toks|, j)
      else Turn([], e + 1, j)
  }

  /** The groups the loop emits from token `i` on. */
  function Scan(toks: seq<Token>, i: int, j: int): (ss: seq<TokenSentence>)
    requires 0 <= j <= i <= |toks|
    decreases |toks| - i
  {
    if i == |toks| then []
    else
      var r := Step(toks, i, j);
      r.out + Scan(toks, r.i, r.j)
  }

  /** Each group ends at or before the start of the next. */
  predicate InOrder(ss: seq<TokenSentence>)
    decreases |ss|
  {
    |ss| <= 1 || (ss[0].end <= ss[1].start && InOrder(ss[1..]))
  }

  /** What each type of group is made of. */
  predicate Typed(toks: seq<Token>, s: TokenSentence)
    requires 0 <= s.start < s.end <= |toks|
  {
    match s.kind
    case Sentence =>
      IsDot(toks[s.end - 1]) && !IsBeginParenthesis(toks[s.start])
    case Separator =>
      IsSpace(toks[s.end - 1]) && (s.end == |toks| || !IsSpace(toks[s.end]))
    case Parenthesis =>
      s.end == |toks| && s.end - s.start >= 2 &&
      IsBeginParenthesis(toks[s.start]) && IsEndParenthesis(toks[s.end - 1])
    case NoSentence =>
      (s.end == |toks| && s.end - s.start >= 2) ||
      (s.end < |toks| && (IsTab(toks[s.end]) || IsEndParenthesis(toks[s.end])))
  }

  lemma InOrderCons(s: TokenSentence, rest: seq<TokenSentence>, j: int)
    requires InOrder(rest) && s.end <= j
    requires forall r :: r in rest ==> j <= r.start
    ensures InOrder([s] + rest)
  {
    if rest != [] {
      assert rest[0] in rest;
      assert ([s] + rest)[1..] == rest;
    }
  }

  /** A turn emits at most one group, a non-empty slice from `j` up to the
      new `j` (or to the end, when the turn ends the loop), of the shape its
      type says. */
  lemma StepShape(toks: seq<Token>, i: int, j: int)
    requires 0 <= j <= i < |toks|
    ensures var r := Step(toks, i, j);
      |r.out| <= 1 &&
      forall s :: s in r.out ==>
        j <= s.start < s.end <= |toks| && (s.end <= r.j || r.i == |toks|) && Typed(toks, s)
  {
  }

  /** The groups are non-empty slices of the tokens, from `j` on, left to
      right without overlap, and each is of the shape its type says. */
  lemma {:induction false} ScanShape(toks: seq<Token>, i: int, j: int)
    requires 0 <= j <= i <= |toks|
    ensures forall s :: s in Scan(toks, i, j) ==>
      j <= s.start < s.end <= |toks| && Typed(toks, s)
    ensures InOrder(Scan(toks, i, j))
    decreases |toks| - i
  {
    if i < |toks| {
      var r := Step(toks, i, j);
      var rest := Scan(toks, r.i, r.j);
      StepShape(toks, i, j);
      ScanShape(toks, r.i, r.j);
      if r.out == [] {
        assert Scan(toks, i, j) == rest;
      } else if r.i == |toks| {
        assert Scan(toks, i, j) == r.out;
      } else {
        assert r.out == [r.out[0]];
        InOrderCons(r.out[0], rest, r.j);
      }
    }
  }

  lemma Regroup(done: seq<TokenSentence>, out: seq<TokenSentence>, rest: seq<TokenSentence>)
    ensures done + out + rest == done + (out + rest)
  {
  }

  /** The inner loop of the separator case: the first non-space token. */
  method SkipSpaces(tokens: seq<Token>, i: int) returns (k: int)
    requires 0 <= i <= |tokens|
    ensures k == FirstNonSpace(tokens, i)
  {
    k := i;
    while k < |tokens| && IsSpace(tokens[k])
      invariant i <= k <= |tokens|
      invariant FirstNonSpace(tokens, k) == FirstNonSpace(tokens, i)
      decreases |tokens| - k
    {
      k := k + 1;
    }
  }

  /** The inner loop of the `(` case: the cursor moves to every `)` in turn
      up to the end of the list. */
  method LastClose(tokens: seq<Token>, i: int) returns (e: int)
    requires 0 <= i <= |tokens|
    ensures e == LastEndParenthesis(tokens, i, i)
  {
    e := i;
    var k := i;
    while k < |tokens|
      invariant i <= k <= |tokens|
      invariant LastEndParenthesis(tokens, k, e) == LastEndParenthesis(tokens, i, i)
      decreases |tokens| - k
    {
      if IsEndParenthesis(tokens[k]) {
        e := k;
      }
      k := k + 1;
    }
  }

  /** The loop of `TokenizeSentence` over a token list. */
  method Segment(tokens: seq<Token>) returns (s: seq<TokenSentence>)
    ensures s == Scan(tokens, 0, 0)
  {
    s := [];
    var i, j := 0, 0;
    while i < |tokens|
      invariant 0 <= j <= i <= |tokens|
      invariant s + Scan(tokens, i, j) == Scan(tokens, 0, 0)
      decreases |tokens| - i
    {
      ghost var r := Step(tokens, i, j);
      ghost var before := s;
      assert Scan(tokens, i, j) == r.out + Scan(tokens, r.i, r.j);
      var t := tokens[i];
      if IsDot(t) && !IsBeginParenthesis(tokens[j]) {
        s := s + [TokenSentence(j, i + 1, Sentence)];
        j := i + 1;
        i := i + 1;
      } else if IsSpace(t) && (i == 0 || IsEnd(tokens[i - 1])) {
        var k := SkipSpaces(tokens, i);
        if k < |tokens| {
          s := s + [TokenSentence(j, k, Separator)];
          i, j := k + 1, k;
        } else {
          s := s + [TokenSentence(j, |tokens|, Separator)];
          i, j := k, k;  // reach end
        }
      } else {
        if IsBeginParenthesis(t) {
          i := LastClose(tokens, i);
        }
        if IsTab(t) {
          if i - j > 0 {
            s := s + [TokenSentence(j, i, NoSentence)];
          }
          j := i + 1;
          i := i + 1;
        } else {
          if i == |tokens| - 1 && j < |tokens| && i - j > 0 {
            s := s + [TokenSentence(j, |tokens|, SentenceType(tokens, j, |tokens| - 1))];
          }
          i := i + 1;
        }
      }
      assert s == before + r.out && i == r.i && j == r.j;
      Regroup(before, r.out, Scan(tokens, i, j));
    }
  }

  /** `TokenizeSentence`: tokenize with compounds, then group. */
  method TokenizeSentence(content: Utf8.Bytes, ctx: Context) returns (s: seq<TokenSentence>)
    ensures s == Scan(CompoundFrom(content, Tokenizer.Tokenized(content, ctx), 0, ctx), 0, 0)
  {
    var tokens := Tokenizer.Tokenize(content, ctx, true);
    s := Segment(tokens);
  }
}
