/** The phrase matcher of words/grammar.go: a phrase definition is a list of
    tags, and a token list matches it when its tokens, spaces passed over,
    carry those tags one after the other. */
module Phrases {
  import opened Utf8
  import opened Morphology
  import opened Tokens

  /** The phrase names (`PHRASE_*`). */
  const PHRASE_UNKNOWN: byte := 0
  const PHRASE_GN_NOUN_PHRASE: byte := 1
  const PHRASE_GN_NOUN: byte := 2
  const PHRASE_GN_DET_NOUN: byte := 3
  const PHRASE_GN_DET_ADN_NOUN: byte := 4
  const PHRASE_GN_DET_NOUN_ADJ: byte := 5

  /** `PhraseConstructDef`: the tags a phrase is made of, and its name. */
  datatype Def = Def(tags: seq<byte>, name: byte)

  /** `PhraseConstruct`: the phrase name, the tokens matched and the
      sub-phrases (never filled in by the matcher). */
  datatype Construct = Construct(name: byte, tokens: seq<Token>, childs: seq<Construct>)

  /** The construct handed back when a definition does not match. */
  const Unmatched := Construct(PHRASE_UNKNOWN, [], [])

  /** The tag test the matcher applies to a token; `TokenizeIsTag` in the
      program. The lemmas below hold for any such test. */
  type TagTest = (Token, byte) -> bool

  /** The tokens before `n` that are not spaces, in order. */
  function NonSpace(isTag: TagTest, ts: seq<Token>, n: int): (r: seq<Token>)
    requires 0 <= n <= |ts|
    ensures |r| <= n
    ensures forall t :: t in r ==> !isTag(t, SPACE)
  {
    if n == 0 then []
    else NonSpace(isTag, ts, n - 1) + (if isTag(ts[n - 1], SPACE) then [] else [ts[n - 1]])
  }

  /** The definition matches with token `n` carrying its last tag: `n` is
      not a space, and the non-spaces up to and including it carry the
      tags of the definition, one each, in order. */
  predicate Fits(isTag: TagTest, tags: seq<byte>, tokens: seq<Token>, n: int)
  {
    0 <= n < |tokens| && !isTag(tokens[n], SPACE) &&
    var ns := NonSpace(isTag, tokens, n + 1);
    |ns| == |tags| && forall k :: 0 <= k < |tags| ==> isTag(ns[k], tags[k])
  }

  /** The loop of `MatchDef` from tag `tag` and token `tok` on: the
      construct and the index after the token that matched the last tag,
      or the unmatched construct and 0. */
  function Run(isTag: TagTest, d: Def, tokens: seq<Token>, tag: int, tok: int): (r: (Construct, int))
    requires 0 <= tag <= |d.tags| && 0 <= tok <= |tokens|
    ensures r.1 == 0 ==> r.0 == Unmatched
    ensures r.1 != 0 ==> tok < r.1 <= |tokens| && r.0 == Construct(d.name, tokens[..r.1 - 1], [])
    decreases |tokens| - tok
  {
    if tag == |d.tags| || tok == |tokens| then (Unmatched, 0)
    else if isTag(tokens[tok], SPACE) then Run(isTag, d, tokens, tag, tok + 1)
    else if !isTag(tokens[tok], d.tags[tag]) then (Unmatched, 0)
    else if tag == |d.tags| - 1 then (Construct(d.name, tokens[..tok], []), tok + 1)
    else Run(isTag, d, tokens, tag + 1, tok + 1)
  }

  /** What `MatchDef` returns for `d` on `tokens`. */
  function Matched(d: Def, tokens: seq<Token>): (r: (Construct, int))
  {
    Run(IsTag, d, tokens, 0, 0)
  }

  /** The loop has matched the first `tag` tags on the tokens before `tok`. */
  predicate Matching(isTag: TagTest, d: Def, tokens: seq<Token>, tag: int, tok: int)
    requires 0 <= tok <= |tokens|
  {
    var ns := NonSpace(isTag, tokens, tok);
    tag == |ns| && tag <= |d.tags| && forall k :: 0 <= k < tag ==> isTag(ns[k], d.tags[k])
  }

  /** The non-spaces of a shorter prefix are a prefix of those of a longer
      one, and strictly shorter when a non-space lies between. */
  lemma {:induction false} NonSpaceGrows(isTag: TagTest, ts: seq<Token>, a: int, b: int)
    requires 0 <= a <= b <= |ts|
    ensures |NonSpace(isTag, ts, a)| <= |NonSpace(isTag, ts, b)|
    ensures NonSpace(isTag, ts, a) == NonSpace(isTag, ts, b)[..|NonSpace(isTag, ts, a)|]
    ensures a < b && !isTag(ts[a], SPACE) ==> |NonSpace(isTag, ts, a)| < |NonSpace(isTag, ts, b)|
    decreases b - a
  {
    if a < b {
      NonSpaceGrows(isTag, ts, a + 1, b);
    }
  }

  /** A space leaves the match where it was. */
  lemma MatchingSpace(isTag: TagTest, d: Def, tokens: seq<Token>, tag: int, tok: int)
    requires 0 <= tok < |tokens| && Matching(isTag, d, tokens, tag, tok) && isTag(tokens[tok], SPACE)
    ensures Matching(isTag, d, tokens, tag, tok + 1)
  {
    assert NonSpace(isTag, tokens, tok + 1) == NonSpace(isTag, tokens, tok);
  }

  /** A non-space carrying the next tag matches it, and fits when that tag
      is the last. */
  lemma MatchingTag(isTag: TagTest, d: Def, tokens: seq<Token>, tag: int, tok: int)
    requires 0 <= tok < |tokens| && Matching(isTag, d, tokens, tag, tok) && tag < |d.tags|
    requires !isTag(tokens[tok], SPACE) && isTag(tokens[tok], d.tags[tag])
    ensures Matching(isTag, d, tokens, tag + 1, tok + 1)
    ensures tag == |d.tags| - 1 ==> Fits(isTag, d.tags, tokens, tok)
  {
    var ns := NonSpace(isTag, tokens, tok);
    assert NonSpace(isTag, tokens, tok + 1) == ns + [tokens[tok]];
  }

  /** A match that ends before token `next` fits the definition there;
      `next` is 0 when nothing matched. */
  predicate FitsBefore(isTag: TagTest, tags: seq<byte>, tokens: seq<Token>, next: int)
  {
    next != 0 ==> Fits(isTag, tags, tokens, next - 1)
  }

  /** Whatever the loop matches fits the definition. */
  lemma {:induction false} RunSound(isTag: TagTest, d: Def, tokens: seq<Token>, tag: int, tok: int)
    requires 0 <= tok <= |tokens| && tag < |d.tags| && Matching(isTag, d, tokens, tag, tok)
    ensures FitsBefore(isTag, d.tags, tokens, Run(isTag, d, tokens, tag, tok).1)
    decreases |tokens| - tok
  {
    if tok < |tokens| {
      RunAt(isTag, d, tokens, tag, tok);
      if isTag(tokens[tok], SPACE) {
        MatchingSpace(isTag, d, tokens, tag, tok);
        RunSound(isTag, d, tokens, tag, tok + 1);
      } else if isTag(tokens[tok], d.tags[tag]) {
        MatchingTag(isTag, d, tokens, tag, tok);
        if tag < |d.tags| - 1 {
          RunSound(isTag, d, tokens, tag + 1, tok + 1);
        }
      }
    }
  }

  /** One turn of the loop at a token. */
  lemma RunAt(isTag: TagTest, d: Def, tokens: seq<Token>, tag: int, tok: int)
    requires 0 <= tag < |d.tags| && 0 <= tok < |tokens|
    ensures isTag(tokens[tok], SPACE) ==> Run(isTag, d, tokens, tag, tok) == Run(isTag, d, tokens, tag, tok + 1)
    ensures !isTag(tokens[tok], SPACE) && !isTag(tokens[tok], d.tags[tag]) ==>
      Run(isTag, d, tokens, tag, tok).1 == 0
    ensures !isTag(tokens[tok], SPACE) && isTag(tokens[tok], d.tags[tag]) && tag == |d.tags| - 1 ==>
      Run(isTag, d, tokens, tag, tok).1 == tok + 1
    ensures !isTag(tokens[tok], SPACE) && isTag(tokens[tok], d.tags[tag]) && tag < |d.tags| - 1 ==>
      Run(isTag, d, tokens, tag, tok) == Run(isTag, d, tokens, tag + 1, tok + 1)
  {
  }

  /** When the definition fits at `n`, the token at `tok` carries the next
      tag (or is a space), and it is `n` itself only for the last tag. */
  lemma FitsAhead(isTag: TagTest, d: Def, tokens: seq<Token>, tag: int, tok: int, n: int)
    requires Fits(isTag, d.tags, tokens, n)
    requires 0 <= tok <= n && tag < |d.tags| && Matching(isTag, d, tokens, tag, tok)
    requires !isTag(tokens[tok], SPACE)
    ensures isTag(tokens[tok], d.tags[tag])
    ensures tag < |d.tags| - 1 <==> tok < n
  {
    var ns := NonSpace(isTag, tokens, tok);
    var upto := NonSpace(isTag, tokens, tok + 1);
    var all := NonSpace(isTag, tokens, n + 1);
    assert upto == ns + [tokens[tok]];
    NonSpaceGrows(isTag, tokens, tok + 1, n + 1);
    assert upto == all[..tag + 1];
    assert all[tag] == tokens[tok];
    if tok < n {
      NonSpaceGrows(isTag, tokens, tok + 1, n);
      NonSpaceGrows(isTag, tokens, n, n + 1);
      assert tag + 1 < |all|;
    } else {
      assert upto == all;
    }
  }

  /** The loop is on its way to a fit at `n`: it has matched the first
      `tag` tags on the tokens before `tok`, and `tok` is not past `n`. */
  predicate Toward(isTag: TagTest, d: Def, tokens: seq<Token>, tag: int, tok: int, n: int)
  {
    Fits(isTag, d.tags, tokens, n) &&
    0 <= tok <= n && tag < |d.tags| && Matching(isTag, d, tokens, tag, tok)
  }

  /** One token on the way to the fit: a space is skipped, any other token
      carries the next tag and is the fitting token only for the last tag. */
  lemma TowardStep(isTag: TagTest, d: Def, tokens: seq<Token>, tag: int, tok: int, n: int)
    requires Toward(isTag, d, tokens, tag, tok, n)
    ensures isTag(tokens[tok], SPACE) ==>
      Toward(isTag, d, tokens, tag, tok + 1, n) && Run(isTag, d, tokens, tag, tok) == Run(isTag, d, tokens, tag, tok + 1)
    ensures !isTag(tokens[tok], SPACE) && tag < |d.tags| - 1 ==>
      Toward(isTag, d, tokens, tag + 1, tok + 1, n) && Run(isTag, d, tokens, tag, tok) == Run(isTag, d, tokens, tag + 1, tok + 1)
    ensures !isTag(tokens[tok], SPACE) && tag == |d.tags| - 1 ==> Run(isTag, d, tokens, tag, tok).1 == n + 1
  {
    RunAt(isTag, d, tokens, tag, tok);
    if isTag(tokens[tok], SPACE) {
      assert tok < n;
      MatchingSpace(isTag, d, tokens, tag, tok);
    } else {
      FitsAhead(isTag, d, tokens, tag, tok, n);
      if tag < |d.tags| - 1 {
        MatchingTag(isTag, d, tokens, tag, tok);
      }
    }
  }

  /** The loop finds the token the definition fits at. */
  lemma {:induction false} RunComplete(isTag: TagTest, d: Def, tokens: seq<Token>, tag: int, tok: int, n: int)
    requires Toward(isTag, d, tokens, tag, tok, n)
    ensures Run(isTag, d, tokens, tag, tok).1 == n + 1
    decreases |tokens| - tok
  {
    TowardStep(isTag, d, tokens, tag, tok, n);
    if isTag(tokens[tok], SPACE) {
      RunComplete(isTag, d, tokens, tag, tok + 1, n);
    } else if tag < |d.tags| - 1 {
      RunComplete(isTag, d, tokens, tag + 1, tok + 1, n);
    }
  }

  /** `MatchDef` matches exactly when the definition fits: then it names
      the phrase, keeps the tokens before the one matching the last tag,
      and points past that token; spaces never match a tag, nor does a
      token without a lexicon word. Otherwise the construct is empty and
      the index 0 (a construct is returned either way). */
  lemma MatchedFits(d: Def, tokens: seq<Token>)
    ensures var (c, next) := Matched(d, tokens);
      (next == 0 ==> c == Unmatched) &&
      (next != 0 ==>
         Fits(IsTag, d.tags, tokens, next - 1) && c == Construct(d.name, tokens[..next - 1], []) &&
         SPACE !in d.tags && forall t :: t in NonSpace(IsTag, tokens, next) ==> t.word.Some?)
  {
    if d.tags != [] {
      RunSound(IsTag, d, tokens, 0, 0);
      var next := Matched(d, tokens).1;
      if next != 0 {
        var ns := NonSpace(IsTag, tokens, next);
        forall k | 0 <= k < |d.tags|
          ensures d.tags[k] != SPACE && ns[k].word.Some?
        {
          assert ns[k] in ns;
        }
        forall t | t in ns
          ensures t.word.Some?
        {
          var k :| 0 <= k < |ns| && ns[k] == t;
        }
      }
    }
  }

  /** If the definition fits at `n`, `MatchDef` matches there. */
  lemma FitsMatched(d: Def, tokens: seq<Token>, n: int)
    requires Fits(IsTag, d.tags, tokens, n)
    ensures Matched(d, tokens) == (Construct(d.name, tokens[..n], []), n + 1)
  {
    RunComplete(IsTag, d, tokens, 0, 0, n);
  }

  /** The constructs `Match` collects, one per definition in order. */
  function MatchAll(defs: seq<Def>, tokens: seq<Token>): (cs: seq<Construct>)
    ensures |cs| == |defs|
    ensures forall k :: 0 <= k < |defs| ==> cs[k] == Matched(defs[k], tokens).0
  {
    if defs == [] then [] else MatchAll(defs[..|defs| - 1], tokens) + [Matched(defs[|defs| - 1], tokens).0]
  }

  /** `Grammar`: the phrase definitions. */
  class Grammar {
    var defs: seq<Def>

    /** `GrammarNew`: no definitions. */
    constructor ()
      ensures defs == []
    {
      defs := [];
    }

    /** `MatchDef`: walk tags and tokens together, passing over spaces,
        and stop at the first token that lacks its tag or at the one that
        matches the last tag. */
    method MatchDef(d: Def, tokens: seq<Token>) returns (c: Construct, next: int)
      ensures (c, next) == Matched(d, tokens)
    {
      var tag, tok := 0, 0;
      c, next := Unmatched, 0;
      while tag < |d.tags| && tok < |tokens|
        invariant 0 <= tag <= |d.tags| && 0 <= tok <= |tokens|
        invariant Run(IsTag, d, tokens, tag, tok) == Matched(d, tokens)
        decreases |tokens| - tok
      {
        if IsTag(tokens[tok], SPACE) {
          tok := tok + 1;
          continue;
        }
        if !IsTag(tokens[tok], d.tags[tag]) {
          return;
        }
        if tag == |d.tags| - 1 {
          c, next := Construct(d.name, tokens[..tok], []), tok + 1;
          return;
        }
        tag, tok := tag + 1, tok + 1;
      }
    }

    /** `Match`: the construct of every definition, matched or not. */
    method Match(tokens: seq<Token>) returns (cs: seq<Construct>)
      ensures cs == MatchAll(defs, tokens)
    {
      cs := [];
      var k := 0;
      while k < |defs|
        invariant 0 <= k <= |defs|
        invariant cs == MatchAll(defs[..k], tokens)
        decreases |defs| - k
      {
        var c, _ := MatchDef(defs[k], tokens);
        assert defs[..k + 1][..k] == defs[..k];
        cs := cs + [c];
        k := k + 1;
      }
      assert defs[..k] == defs;
    }
  }

  /** A new grammar matches nothing and returns no constructs. */
  method NewGrammarMatchesNothing(tokens: seq<Token>) returns (cs: seq<Construct>)
    ensures cs == []
  {
    var g := new Grammar();
    cs := g.Match(tokens);
  }
}
