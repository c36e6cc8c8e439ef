/** The grammatical payload of the lexicon (words/word.go): one reading of a
    spelling is a `WordVariant`, eight single-byte fields; a `Word` is the
    ordered, duplicate-free list of its readings together with the trie node
    that holds it. */
module Morphology {
  import opened Wrappers
  import opened Utf8

  // part-of-speech tags
  const NOUN: byte := 1
  const PREP: byte := 2
  const ADVERB: byte := 3
  const VERB: byte := 4
  const ADJ: byte := 5
  const NOMINALDET: byte := 6
  const PREFIX: byte := 7
  const GNP: byte := 8
  const GNPX: byte := 9
  const CONJS: byte := 10
  const CONJ: byte := 11
  const GN: byte := 12
  const CONJC: byte := 13
  const PRONOUN: byte := 14
  const PREPADJ: byte := 15
  const PREPDET: byte := 16
  const PREPPRO: byte := 17
  const INTJ: byte := 18
  const DET: byte := 19
  const PRON: byte := 20
  const VA: byte := 21
  const NA: byte := 22
  const CLARKN: byte := 23
  const GHERYN: byte := 24
  const GWELLSN: byte := 25
  const MAYERN: byte := 26
  const NES: byte := 27
  const MAUGHAMN: byte := 28
  const ADVA: byte := 29
  const CFIELDSN: byte := 30
  const X: byte := 31
  const PCDN3: byte := 32
  const XI: byte := 33
  const PART: byte := 34
  const PRED: byte := 35
  const HARTN: byte := 36
  const ABBR: byte := 37
  // punctuation
  const BEGIN_PUNCT: byte := 38
  const TAB: byte := 38
  const QUOTATIONMARK: byte := 39
  const BEGINQUOTATION: byte := 40
  const ENDQUOTATION: byte := 41
  const APOS: byte := 42
  const SLASH: byte := 43
  const DASH: byte := 44
  const GREATHERTHAN: byte := 45
  const SMALLERTHAN: byte := 46
  const SPACE: byte := 47
  const COMMA: byte := 48
  const SEMICOLON: byte := 49
  const DOT: byte := 50
  const COLON: byte := 51
  const EXCLAMATIONMARK: byte := 52
  const QUESTIONMARK: byte := 53
  const BEGINPARENTHESIS: byte := 54
  const ENDPARENTHESIS: byte := 55
  const BEGINBRACKET: byte := 56
  const ENDBRACKET: byte := 57
  // symbols
  const NUMBERSIGN: byte := 58
  const DOLLARSIGN: byte := 59
  const COPYRIGHTSIGN: byte := 60
  const ATSIGN: byte := 61
  const NBNS: byte := 62
  const AND: byte := 63
  const OR: byte := 64
  const EOL: byte := 65
  const CR: byte := 66

  // gender
  const NOGENDER: byte := 0
  const MALE: byte := 1
  const FEMALE: byte := 2

  // verb tense
  const IND: byte := 1
  const GERONDIF: byte := 2
  const SUBJ: byte := 3
  const PPAST: byte := 4
  const IMP: byte := 5
  const COND: byte := 6
  const INF: byte := 7

  // number
  const SINGULAR: byte := 0x1
  const PLURAL: byte := 0x2

  // subcategory
  const HUMAN: byte := 1
  const ANIMAL: byte := 2
  const CONCRET: byte := 3
  const ABSTRACT: byte := 4
  const UNIT: byte := 5
  const INDEFINITE: byte := 6
  const TEMPORAL: byte := 7
  const DEMONSTRATIVE: byte := 8

  // languages
  const ENGLISH: byte := 1
  const FRENCH: byte := 2

  // flags
  const PROPER: byte := 0x1
  const SUBCAT: byte := 0x2
  const COMPOUND: byte := 0x4
  const COLL: byte := 0x8
  const POSTPOS: byte := 0x10
  const COLLECTIVE: byte := 0x20
  const PROCATDEMONSTRATIVE: byte := 0x40

  datatype WordVariant = WordVariant(
    tag: byte, language: byte,
    flags: byte, subcat: byte,
    gender: byte, number: byte,
    person: byte, tense: byte)

  const ZeroVariant := WordVariant(0, 0, 0, 0, 0, 0, 0, 0)

  /** A node of the lexicon trie, named by the runes on the way from the root. */
  type Path = seq<Rune>

  /** `lastLetter` is the trie node the word is registered under (None for a
      word not yet inserted); `variants` its readings in first-seen order. */
  datatype Word = Word(lastLetter: Option<Path>, variants: seq<WordVariant>)

  /** Field-by-field comparison: the same as structural equality. */
  function Equals(rhs: WordVariant, lhs: WordVariant): (r: bool)
    ensures r <==> rhs == lhs
  {
    if rhs.tag != lhs.tag then false
    else if rhs.language != lhs.language then false
    else if rhs.flags != lhs.flags then false
    else if rhs.subcat != lhs.subcat then false
    else if rhs.person != lhs.person then false
    else if rhs.gender != lhs.gender then false
    else if rhs.number != lhs.number then false
    else if rhs.tense != lhs.tense then false
    else true
  }

  lemma EqualsIsEquivalence(a: WordVariant, b: WordVariant, c: WordVariant)
    ensures Equals(a, a)
    ensures Equals(a, b) == Equals(b, a)
    ensures Equals(a, b) && Equals(b, c) ==> Equals(a, c)
  {
  }

  /** A punctuation or symbol word: a single reading whose tag lies in the
      punctuation/symbol range of the tag enumeration. */
  function IsPunct(word: Word): (r: bool)
    ensures r ==> |word.variants| == 1 && forall u: byte :: Tagged(word, u) <==> u == word.variants[0].tag
    ensures r ==> forall u: byte :: Tagged(word, u) ==> u >= BEGIN_PUNCT
  {
    |word.variants| == 1 && word.variants[0].tag >= BEGIN_PUNCT
  }

  function LanguageIn(vs: seq<WordVariant>, lang: byte): (r: bool)
    ensures r <==> exists k :: 0 <= k < |vs| && vs[k].language == lang
  {
    if vs == [] then false
    else if vs[0].language == lang then true
    else LanguageIn(vs[1..], lang)
  }

  function TaggedIn(vs: seq<WordVariant>, tag: byte): (r: bool)
    ensures r <==> exists k :: 0 <= k < |vs| && vs[k].tag == tag
  {
    if vs == [] then false
    else if vs[0].tag == tag then true
    else TaggedIn(vs[1..], tag)
  }

  /** `Word.Language`: some reading is in `lang`. */
  function Language(word: Word, lang: byte): (r: bool)
    ensures r <==> exists v :: v in word.variants && v.language == lang
  {
    LanguageIn(word.variants, lang)
  }

  /** `Word.Tagged`: some reading carries `tag`. */
  function Tagged(word: Word, tag: byte): (r: bool)
    ensures r <==> exists v :: v in word.variants && v.tag == tag
  {
    TaggedIn(word.variants, tag)
  }

  predicate IsSubsequence<T(==)>(a: seq<T>, b: seq<T>)
    decreases |b|
  {
    if a == [] then true
    else if b == [] then false
    else if a[0] == b[0] then IsSubsequence(a[1..], b[1..])
    else IsSubsequence(a, b[1..])
  }

  function CountTagged(vs: seq<WordVariant>, tag: byte, lang: byte): nat
  {
    if vs == [] then 0
    else (if vs[0].tag == tag && vs[0].language == lang then 1 else 0) + CountTagged(vs[1..], tag, lang)
  }

  /** `Word.VariantsByTag`: exactly the readings with both `tag` and `lang`,
      each occurrence once, in their original order. */
  function VariantsByTag(vs: seq<WordVariant>, tag: byte, lang: byte): (r: seq<WordVariant>)
    ensures forall v :: v in r <==> v in vs && v.tag == tag && v.language == lang
    ensures |r| == CountTagged(vs, tag, lang)
    ensures IsSubsequence(r, vs)
  {
    if vs == [] then []
    else if vs[0].tag == tag && vs[0].language == lang then [vs[0]] + VariantsByTag(vs[1..], tag, lang)
    else VariantsByTag(vs[1..], tag, lang)
  }

  /** The per-reading test of `Filter`, branch for branch. The subcategory
      test is the source's: an unset query subcategory demands an unset
      reading subcategory, a set one demands nothing. */
  predicate Accepts(query: WordVariant, v: WordVariant)
  {
    var verbOk := query.tag == VERB ==>
      !(query.person != 0 && query.person != v.person) && !(query.tense != 0 && query.tense != v.tense);
    && verbOk
    && !(query.number != 0 && query.number != v.number)
    && !(query.gender != 0 && query.gender != v.gender)
    && !(query.subcat == 0 && query.subcat != v.subcat)
  }

  function AnyAccepted(query: WordVariant, vs: seq<WordVariant>): (r: bool)
    ensures r <==> exists k :: 0 <= k < |vs| && Accepts(query, vs[k])
  {
    if vs == [] then false
    else if Accepts(query, vs[0]) then true
    else AnyAccepted(query, vs[1..])
  }

  /** What `Filter` asks of one reading: the query's tag and language; every
      set number or gender field; every set person or tense field when the
      query is a verb; and subcategory 0 when the query's subcategory is 0. */
  predicate Selected(query: WordVariant, v: WordVariant)
  {
    && v.tag == query.tag
    && v.language == query.language
    && (query.tag == VERB ==> (query.person == 0 || query.person == v.person))
    && (query.tag == VERB ==> (query.tense == 0 || query.tense == v.tense))
    && (query.number == 0 || query.number == v.number)
    && (query.gender == 0 || query.gender == v.gender)
    && (query.subcat == 0 ==> v.subcat == 0)
  }

  /** `WordVariant.Filter`: some reading of the word is selected by the query. */
  function Filter(query: WordVariant, word: Word): (r: bool)
    ensures r <==> exists v :: v in word.variants && Selected(query, v)
  {
    var candidates := VariantsByTag(word.variants, query.tag, query.language);
    var r := AnyAccepted(query, candidates);
    assert forall v :: v in candidates ==> (Accepts(query, v) <==> Selected(query, v));
    assert r <==> exists v :: v in candidates && Accepts(query, v) by {
      if r {
        var k :| 0 <= k < |candidates| && Accepts(query, candidates[k]);
        assert candidates[k] in candidates;
      }
    }
    r
  }

  /** Set union by structural equality, first-seen order: the reference
      definition `AddVariants` is proved against. */
  function MergeVariants(existing: seq<WordVariant>, incoming: seq<WordVariant>): (r: seq<WordVariant>)
    ensures existing <= r
    ensures forall v :: v in r <==> v in existing || v in incoming
    decreases |incoming|
  {
    if incoming == [] then existing
    else
      var next := if incoming[0] in existing then existing else existing + [incoming[0]];
      MergeVariants(next, incoming[1..])
  }

  predicate NoDuplicates<T(==)>(s: seq<T>)
  {
    forall a, b :: 0 <= a < b < |s| ==> s[a] != s[b]
  }

  lemma {:induction false} MergeKeepsDistinct(existing: seq<WordVariant>, incoming: seq<WordVariant>)
    requires NoDuplicates(existing)
    ensures NoDuplicates(MergeVariants(existing, incoming))
    decreases |incoming|
  {
    if incoming != [] {
      var next := if incoming[0] in existing then existing else existing + [incoming[0]];
      MergeKeepsDistinct(next, incoming[1..]);
    }
  }

  /** The readings an `AddVariants` call appends are new and pairwise distinct. */
  lemma {:induction false} MergeAddsOnlyNew(existing: seq<WordVariant>, incoming: seq<WordVariant>)
    ensures var r := MergeVariants(existing, incoming);
      forall a, b :: |existing| <= a < b < |r| ==> r[a] != r[b]
    ensures var r := MergeVariants(existing, incoming);
      forall a :: |existing| <= a < |r| ==> r[a] !in existing
    decreases |incoming|
  {
    if incoming != [] {
      var next := if incoming[0] in existing then existing else existing + [incoming[0]];
      MergeAddsOnlyNew(next, incoming[1..]);
      var r := MergeVariants(existing, incoming);
      assert next <= r;
      assert r == MergeVariants(next, incoming[1..]);
      if incoming[0] !in existing {
        assert r[|existing|] == incoming[0];
        forall a | |existing| <= a < |r| ensures r[a] !in existing {
          if a > |existing| {
            assert r[a] !in next;
          }
        }
        forall a, b | |existing| <= a < b < |r| ensures r[a] != r[b] {
          assert r[b] !in next;
          if a == |existing| {
            assert r[a] in next;
          }
        }
      }
    }
  }

  lemma {:induction false} MergeAbsorbed(existing: seq<WordVariant>, incoming: seq<WordVariant>)
    requires forall v :: v in incoming ==> v in existing
    ensures MergeVariants(existing, incoming) == existing
    decreases |incoming|
  {
    if incoming != [] {
      MergeAbsorbed(existing, incoming[1..]);
    }
  }

  /** Merging the same readings twice changes nothing the second time. */
  lemma MergeIdempotent(existing: seq<WordVariant>, incoming: seq<WordVariant>)
    ensures MergeVariants(MergeVariants(existing, incoming), incoming) == MergeVariants(existing, incoming)
  {
    MergeAbsorbed(MergeVariants(existing, incoming), incoming);
  }

  /** The inner scan of `AddVariants`: does a stored reading equal `v`? */
  /** Adding readings to a stored word keeps it a punctuation word exactly
      when it was one and every reading added was already stored. */
  lemma MergePunct(word: Word, incoming: seq<WordVariant>)
    requires word.variants != []
    ensures IsPunct(Word(word.lastLetter, MergeVariants(word.variants, incoming))) <==>
      IsPunct(word) && forall v :: v in incoming ==> v in word.variants
  {
    var m := MergeVariants(word.variants, incoming);
    if forall v :: v in incoming ==> v in word.variants {
      MergeAbsorbed(word.variants, incoming);
    } else {
      var v :| v in incoming && v !in word.variants;
      assert v in m && m[0] == word.variants[0] != v;
    }
  }

  method ContainsEqual(stored: seq<WordVariant>, v: WordVariant) returns (found: bool)
    ensures found <==> v in stored
  {
    found := false;
    var m := 0;
    while m < |stored|
      invariant 0 <= m <= |stored|
      invariant found ==> v in stored
      invariant !found ==> forall x :: 0 <= x < m ==> stored[x] != v
    {
      if Equals(stored[m], v) {
        found := true;
        break;
      }
      m := m + 1;
    }
  }

  /** `Word.AddVariants`: for each incoming reading, scan the current list
      with `Equals` and append the reading when no stored one equals it. */
  method AddVariants(word: Word, variants: seq<WordVariant>) returns (merged: Word)
    ensures merged.lastLetter == word.lastLetter
    ensures merged.variants == MergeVariants(word.variants, variants)
  {
    var result := word.variants;
    var k := 0;
    while k < |variants|
      invariant 0 <= k <= |variants|
      invariant MergeVariants(result, variants[k..]) == MergeVariants(word.variants, variants)
    {
      var v := variants[k];
      var found := ContainsEqual(result, v);
      assert found <==> v in result;
      assert variants[k..][1..] == variants[k + 1..];
      if !found {
        result := result + [v];
      }
      k := k + 1;
    }
    merged := Word(word.lastLetter, result);
  }
}
