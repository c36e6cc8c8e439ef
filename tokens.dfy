/** The tokens of words/tokenizer.go and the classification of one span of
    text: lexicon lookup first, then the number, time, date, temperature and
    URL classifiers in that order. The Unicode category tests, lower-casing
    and the regular-expression engine are parameters (`Unicode`, `Finder`). */
module Tokens {
  import opened Wrappers
  import opened Utf8
  import opened Morphology
  import WordLetter
  import opened Lexicon

  /** The `unicode` and `strings` library calls the tokenizer makes. */
  datatype Unicode = Unicode(
    isPunct: Rune -> bool,
    isSpace: Rune -> bool,
    isUpper: Rune -> bool,
    isLetter: Rune -> bool,
    isDigit: Rune -> bool,
    toLower: Bytes -> Bytes)

  /** `Regexp.FindAllStringIndex(s, -1)`: the [start, end) byte ranges of
      the successive matches. */
  type Finder = Bytes -> seq<(int, int)>

  /** The compiled expressions of `TokenizeNewContext`. */
  datatype Patterns = Patterns(
    time: Finder, temp: Finder, number: Finder, roman: Finder,
    hex: Finder, date: Finder, url: Finder)

  /** `TokenizeContext`: the lexicon and the classifiers. */
  datatype Context = Context(dict: DictState, uni: Unicode, re: Patterns)

  /** `Token`: the byte span [start, end) of the text, the lexicon word if
      one was found, and the classification flags. */
  datatype Token = Token(
    start: int, end: int,
    word: Option<Word>,
    isNumber: bool, isTime: bool, isDate: bool, isTemp: bool, isURL: bool,
    isUpper: bool)

  /** `Token.IsValid`: a lexicon word or a classified span. */
  predicate IsValid(t: Token)
  {
    t.word.Some? || t.isNumber || t.isTime || t.isTemp || t.isURL || t.isDate
  }

  /** `TokenizeIsTag`: the token's word has a reading with `tag`. */
  predicate IsTag(t: Token, tag: byte)
  {
    t.word.Some? && Tagged(t.word.value, tag)
  }

  /** `TokenizeIsDot`: a sentence-ending mark. */
  predicate IsDot(t: Token)
  {
    IsTag(t, DOT) || IsTag(t, EXCLAMATIONMARK) || IsTag(t, QUESTIONMARK)
  }

  predicate IsSpace(t: Token)
  {
    IsTag(t, SPACE)
  }

  predicate IsTab(t: Token)
  {
    IsTag(t, TAB)
  }

  /** `TokenizeIsEnd`: a sentence-ending mark or a tab. */
  predicate IsEnd(t: Token)
  {
    IsDot(t) || IsTab(t)
  }

  predicate IsBeginParenthesis(t: Token)
  {
    IsTag(t, BEGINPARENTHESIS)
  }

  predicate IsEndParenthesis(t: Token)
  {
    IsTag(t, ENDPARENTHESIS)
  }

  /** `TokenizeMatchOnly`: the expression matches exactly once, over the
      whole string. */
  function MatchOnly(s: Bytes, find: Finder): (r: bool)
    ensures r <==> find(s) == [(0, |s|)]
  {
    var indexes := find(s);
    if |indexes| != 1 then false
    else if indexes[0].0 != 0 || indexes[0].1 != |s| then false
    else true
  }

  /** `TokenizeIsNumber`: decimal, Roman or hexadecimal. */
  function IsNumber(s: Bytes, ctx: Context): bool
  {
    MatchOnly(s, ctx.re.number) || MatchOnly(s, ctx.re.roman) || MatchOnly(s, ctx.re.hex)
  }

  function IsTemp(s: Bytes, ctx: Context): bool
  {
    MatchOnly(s, ctx.re.temp)
  }

  function IsTime(s: Bytes, ctx: Context): bool
  {
    MatchOnly(s, ctx.re.time)
  }

  function IsDate(s: Bytes, ctx: Context): bool
  {
    MatchOnly(s, ctx.re.date)
  }

  const AT: byte := 0x40

  /** `TokenizeIsURL`: a Twitter handle (anything starting with '@'), or a
      whole-string URL match. */
  function IsURL(s: Bytes, ctx: Context): (r: bool)
    ensures |s| > 0 && s[0] == AT ==> r
    ensures (|s| == 0 || s[0] != AT) ==> (r <==> ctx.re.url(s) == [(0, |s|)])
  {
    if |s| > 0 && s[0] == AT then true
    else MatchOnly(s, ctx.re.url)
  }

  /** A rune `TokenizeIsWord` accepts: a lower-case letter or a dash. */
  predicate WordRune(uni: Unicode, r: Rune)
  {
    (uni.isLetter(r) || r == '-' as int) && !uni.isUpper(r)
  }

  /** A rune `TokenizeIsProperNoun` accepts anywhere: a letter or a dash. */
  predicate NameRune(uni: Unicode, r: Rune)
  {
    uni.isLetter(r) || r == '-' as int
  }

  /** A rune that keeps a name "all upper case": upper case, or a dash. */
  predicate UpperRune(uni: Unicode, r: Rune)
  {
    uni.isUpper(r) || r == '-' as int
  }

  /** The three rune tests of `TokenizeIsWord` and `TokenizeIsProperNoun`. */
  datatype RuneTest = WordTest | NameTest | UpperTest

  predicate Passes(uni: Unicode, test: RuneTest, r: Rune)
  {
    match test
    case WordTest => WordRune(uni, r)
    case NameTest => NameRune(uni, r)
    case UpperTest => UpperRune(uni, r)
  }

  /** Every rune of `rs` passes `test`. */
  predicate AllPass(uni: Unicode, test: RuneTest, rs: seq<Rune>)
  {
    forall k :: 0 <= k < |rs| ==> Passes(uni, test, rs[k])
  }

  lemma AllPassSnoc(uni: Unicode, test: RuneTest, rs: seq<Rune>, r: Rune)
    ensures AllPass(uni, test, rs + [r]) <==> AllPass(uni, test, rs) && Passes(uni, test, r)
  {
    if AllPass(uni, test, rs) && Passes(uni, test, r) {
      forall k | 0 <= k < |rs + [r]| ensures Passes(uni, test, (rs + [r])[k]) {
        if k < |rs| {
          assert (rs + [r])[k] == rs[k];
        }
      }
    }
    if AllPass(uni, test, rs + [r]) {
      assert (rs + [r])[|rs|] == r;
      forall k | 0 <= k < |rs| ensures Passes(uni, test, rs[k]) {
        assert (rs + [r])[k] == rs[k];
      }
    }
  }

  lemma AllPassPrefix(uni: Unicode, test: RuneTest, rs: seq<Rune>, n: int)
    requires 0 <= n <= |rs|
    ensures AllPass(uni, test, rs) ==> AllPass(uni, test, rs[..n])
  {
    if AllPass(uni, test, rs) {
      forall k | 0 <= k < n ensures Passes(uni, test, rs[..n][k]) {
        assert rs[..n][k] == rs[k];
      }
    }
  }

  /** `TokenizeIsWord`: every rune is a letter or '-', and none is upper
      case. */
  method IsWord(s: Bytes, uni: Unicode) returns (r: bool)
    ensures r <==> AllPass(uni, WordTest, Runes(s))
  {
    var i := 0;
    ghost var done: seq<Rune> := [];
    RunesStart(s);
    while i < |s|
      invariant 0 <= i <= |s|
      invariant Decoded(s, i, done)
      invariant AllPass(uni, WordTest, done)
      decreases |s| - i
    {
      var (rn, l) := DecodeRune(s[i..]);
      RunesStep(s, i, done, rn, l);
      AllPassSnoc(uni, WordTest, done, rn);
      AllPassPrefix(uni, WordTest, Runes(s), |done| + 1);
      if !uni.isLetter(rn) && rn != '-' as int {
        return false;
      }
      if uni.isUpper(rn) {
        return false;
      }
      done := done + [rn];
      i := i + l;
    }
    RunesDone(s, done);
    return true;
  }

  /** `TokenizeIsProperNoun`: an upper-case first letter, only letters and
      dashes, and not all upper case (a dash counts as upper case). */
  method IsProperNoun(s: Bytes, uni: Unicode) returns (r: bool)
    ensures r <==>
      && uni.isUpper(DecodeRune(s).0) && uni.isLetter(DecodeRune(s).0)
      && AllPass(uni, NameTest, Runes(s))
      && !AllPass(uni, UpperTest, Runes(s))
  {
    var first := DecodeRune(s).0;
    var isUpper := uni.isUpper(first) && uni.isLetter(first);
    var allUpper := true;
    if !isUpper {
      return false;
    }
    var i := 0;
    ghost var done: seq<Rune> := [];
    RunesStart(s);
    while i < |s|
      invariant 0 <= i <= |s|
      invariant Decoded(s, i, done)
      invariant AllPass(uni, NameTest, done)
      invariant allUpper <==> AllPass(uni, UpperTest, done)
      decreases |s| - i
    {
      var (rn, l) := DecodeRune(s[i..]);
      RunesStep(s, i, done, rn, l);
      AllPassSnoc(uni, NameTest, done, rn);
      AllPassPrefix(uni, NameTest, Runes(s), |done| + 1);
      AllPassSnoc(uni, UpperTest, done, rn);
      if !uni.isLetter(rn) && rn != '-' as int {
        return false;
      }
      if !uni.isUpper(rn) && rn != '-' as int {
        allUpper := false;
      }
      done := done + [rn];
      i := i + l;
    }
    RunesDone(s, done);
    return !allUpper;
  }

  /** `TokenizeFindWord`: the lexicon lookup, retried on the lower-cased
      text when nothing was found and the first rune is upper case. */
  function FindWord(s: Bytes, ctx: Context): (r: (Option<Word>, bool))
    ensures WordLetter.Lookup(ctx.dict.root, s).0.Some? || !ctx.uni.isUpper(DecodeRune(s).0) ==>
      r == WordLetter.Lookup(ctx.dict.root, s)
    ensures WordLetter.Lookup(ctx.dict.root, s).0.None? && ctx.uni.isUpper(DecodeRune(s).0) ==>
      r == WordLetter.Lookup(ctx.dict.root, ctx.uni.toLower(s))
  {
    var isUpper := ctx.uni.isUpper(DecodeRune(s).0);
    var found := WordLetter.Lookup(ctx.dict.root, s);
    if found.0.None? && isUpper then WordLetter.Lookup(ctx.dict.root, ctx.uni.toLower(s))
    else found
  }

  /** The classifiers of `TokenizeBuildToken`. */
  datatype Class = NumberClass | TimeClass | DateClass | TempClass | URLClass

  /** The order in which `TokenizeBuildToken` tries the classifiers. */
  function Rank(c: Class): nat
  {
    match c
    case NumberClass => 0
    case TimeClass => 1
    case DateClass => 2
    case TempClass => 3
    case URLClass => 4
  }

  function Accepts(c: Class, s: Bytes, ctx: Context): bool
  {
    match c
    case NumberClass => IsNumber(s, ctx)
    case TimeClass => IsTime(s, ctx)
    case DateClass => IsDate(s, ctx)
    case TempClass => IsTemp(s, ctx)
    case URLClass => IsURL(s, ctx)
  }

  /** `c` accepts `s` and no classifier tried before it does. */
  predicate FirstAccepting(c: Class, s: Bytes, ctx: Context)
  {
    Accepts(c, s, ctx) && forall d :: Rank(d) < Rank(c) ==> !Accepts(d, s, ctx)
  }

  /** `FirstAccepting` spelled out for each classifier. */
  lemma FirstAcceptingCases(c: Class, s: Bytes, ctx: Context)
    ensures FirstAccepting(c, s, ctx) <==> match c
      case NumberClass => IsNumber(s, ctx)
      case TimeClass => !IsNumber(s, ctx) && IsTime(s, ctx)
      case DateClass => !IsNumber(s, ctx) && !IsTime(s, ctx) && IsDate(s, ctx)
      case TempClass => !IsNumber(s, ctx) && !IsTime(s, ctx) && !IsDate(s, ctx) && IsTemp(s, ctx)
      case URLClass => !IsNumber(s, ctx) && !IsTime(s, ctx) && !IsDate(s, ctx) && !IsTemp(s, ctx) && IsURL(s, ctx)
  {
    assert Rank(NumberClass) == 0 && Rank(TimeClass) == 1 && Rank(DateClass) == 2;
    assert Rank(TempClass) == 3 && Rank(URLClass) == 4;
  }

  /** The class a token's flags claim. */
  predicate HasFlag(t: Token, c: Class)
  {
    match c
    case NumberClass => t.isNumber
    case TimeClass => t.isTime
    case DateClass => t.isDate
    case TempClass => t.isTemp
    case URLClass => t.isURL
  }

  /** `TokenizeBuildToken` on `content[start:end]`, with the `*searchPath`
      flag passed in and its new value returned. */
  function BuildToken(content: Bytes, searchPath: bool, start: int, end: int, ctx: Context): (r: (Token, bool))
    requires 0 <= start <= end <= |content|
    ensures r.0.start == start && r.0.end == end
    ensures r.1 <==> searchPath && FindWord(content[start..end], ctx).1
    ensures r.0.word == if searchPath then FindWord(content[start..end], ctx).0 else None
    ensures r.0.isUpper <==> ctx.uni.isUpper(DecodeRune(content[start..end]).0)
    ensures forall c :: HasFlag(r.0, c) <==> r.0.word.None? && FirstAccepting(c, content[start..end], ctx)
  {
    var s := content[start..end];
    var found := if searchPath then FindWord(s, ctx) else (None, false);
    var word := found.0;
    var nextSearch := if searchPath && !found.1 then false else searchPath;
    var isUpper := ctx.uni.isUpper(DecodeRune(s).0);
    var isNumber := word.None? && IsNumber(s, ctx);
    var isTime := word.None? && !isNumber && IsTime(s, ctx);
    var isDate := word.None? && !isNumber && !isTime && IsDate(s, ctx);
    var isTemp := word.None? && !isNumber && !isTime && !isDate && IsTemp(s, ctx);
    var isURL := word.None? && !isNumber && !isTime && !isDate && !isTemp && IsURL(s, ctx);
    var tok := Token(start, end, word, isNumber, isTime, isDate, isTemp, isURL, isUpper);
    assert forall c :: HasFlag(tok, c) <==> word.None? && FirstAccepting(c, s, ctx) by {
      forall c ensures HasFlag(tok, c) <==> word.None? && FirstAccepting(c, s, ctx) {
        FirstAcceptingCases(c, s, ctx);
      }
    }
    (tok, nextSearch)
  }

  /** A token carries at most one classification flag, and none when the
      lexicon knew the span. */
  lemma FlagsExclusive(content: Bytes, searchPath: bool, start: int, end: int, ctx: Context, c: Class, d: Class)
    requires 0 <= start <= end <= |content|
    ensures var t := BuildToken(content, searchPath, start, end, ctx).0;
      HasFlag(t, c) && HasFlag(t, d) ==> c == d
    ensures var t := BuildToken(content, searchPath, start, end, ctx).0;
      t.word.Some? ==> !HasFlag(t, c)
  {
  }

  /** `TokenizeAddToken`: a non-empty span is classified with a fresh
      `searchPath` and appended. */
  function AddToken(content: Bytes, start: int, end: int, intoks: seq<Token>, ctx: Context): (tokens: seq<Token>)
    requires 0 <= start <= end <= |content|
    ensures start == end ==> tokens == intoks
    ensures start != end ==> tokens == intoks + [BuildToken(content, true, start, end, ctx).0]
  {
    if start == end then intoks
    else intoks + [BuildToken(content, true, start, end, ctx).0]
  }
}
