/** The `Dictionary` of words/dictionary.go: the lexicon trie plus two
    aggregates maintained on insertion, the lookups that delegate to the
    trie, fuzzy matching, completion, and the record-by-record binary dump
    and load. */
module Lexicon {
  import opened Wrappers
  import opened Utf8
  import opened Morphology
  import opened WordLetter
  import opened WordCodec
  import opened Strings

  /** A dictionary's fields as a value. */
  datatype DictState = DictState(root: Trie, maxWordLen: int, maxTokens: int)

  /** The zero `Dictionary{}`. */
  const EmptyState := DictState(Empty, 0, 0)

  predicate StateValid(d: DictState)
  {
    WordLetter.Valid(d.root) && d.maxWordLen >= 0 && d.maxTokens >= 0
  }

  /** `strings.Count(s, " ")`: the number of space bytes. */
  function CountSpaces(s: Bytes): (n: nat)
    ensures n <= |s|
  {
    if s == [] then 0 else (if s[0] == 0x20 then 1 else 0) + CountSpaces(s[1..])
  }

  /** `Dictionary.AddWord` on the state: insert into the trie, then raise
      `MaxWordLen` to the spelling's byte length and `MaxTokens` to its
      number of spaces. */
  function AddToState(d: DictState, letters: Bytes, word: Word): DictState
    requires CanAdd(d.root, [], letters)
  {
    DictState(AddWord(d.root, letters, word),
              Max(|letters|, d.maxWordLen),
              Max(CountSpaces(letters), d.maxTokens))
  }

  /** Every node of the trie is at most `maxWordLen` runes deep, so every
      stored word's spelling has at most `maxWordLen` runes. */
  predicate LengthsBounded(d: DictState)
  {
    forall p | p in d.root.nodes :: |p| <= d.maxWordLen
  }

  /** Inserting keeps the dictionary well formed, never lowers either
      aggregate, and makes them bound the new spelling. */
  lemma AddToStateValid(d: DictState, letters: Bytes, word: Word)
    requires StateValid(d) && CanAdd(d.root, [], letters)
    ensures StateValid(AddToState(d, letters, word))
    ensures d.maxWordLen <= AddToState(d, letters, word).maxWordLen
    ensures |letters| <= AddToState(d, letters, word).maxWordLen
    ensures d.maxTokens <= AddToState(d, letters, word).maxTokens
    ensures CountSpaces(letters) <= AddToState(d, letters, word).maxTokens
  {
    if letters != [] {
      AddWordEffect(d.root, letters, word);
    } else {
      AddEmptyEffect(d.root, word);
    }
  }

  /** `MaxWordLen` counts bytes and a rune takes at least one, so no node
      is ever deeper than `MaxWordLen`. */
  lemma AddToStateBounded(d: DictState, letters: Bytes, word: Word)
    requires StateValid(d) && CanAdd(d.root, [], letters) && LengthsBounded(d)
    ensures LengthsBounded(AddToState(d, letters, word))
  {
    var r := AddToState(d, letters, word);
    if letters != [] {
      AddWordEffect(d.root, letters, word);
      RunesLength(letters);
      forall p | p in r.root.nodes ensures |p| <= r.maxWordLen {
        if p !in d.root.nodes {
          assert p in Prefixes(Runes(letters));
        }
      }
    } else {
      AddEmptyEffect(d.root, word);
    }
  }

  /** The word `AddWordWithTag` inserts: one reading, all zero but the tag. */
  function TagWord(tag: byte): Word
  {
    Word(None, [ZeroVariant.(tag := tag)])
  }

  type Spelled = s: Bytes | s != [] witness [0]

  /** Entry `k` of the fixed spellings and tags of `AddBuiltin`, in its
      order. */
  function Builtin(k: int): (Spelled, byte)
  {
    if k == 0 then ([0x09], TAB) else if k == 1 then ([0x0A], EOL)
    else if k == 2 then ([0x0D], CR) else if k == 3 then ([0x2F], SLASH)
    else if k == 4 then ([0x3E], GREATHERTHAN) else if k == 5 then ([0x3C], SMALLERTHAN)
    else if k == 6 then ([0x26], AND) else if k == 7 then ([0x7C], OR)
    else if k == 8 then ([0x5B], BEGINBRACKET) else if k == 9 then ([0x5D], ENDBRACKET)
    else if k == 10 then ([0x23], NUMBERSIGN) else if k == 11 then ([0x24], DOLLARSIGN)
    else if k == 12 then ([0x40], ATSIGN) else ([0xC3, 0x82, 0xC2, 0xA9], COPYRIGHTSIGN)
  }

  const Builtins: seq<(Spelled, byte)> := seq(14, k => Builtin(k))

  lemma BuiltinsTable()
    ensures |Builtins| == 14 && forall i :: 0 <= i < 14 ==> Builtins[i] == Builtin(i)
  {
  }

  /** The rune path of builtin entry `k`: the copyright entry's bytes
      decode to U+00C2 U+00A9, every other entry is one ASCII byte. */
  function BuiltinPath(k: int): Path
  {
    if k == 13 then [0xC2, 0xA9] else Builtin(k).0
  }

  const BuiltinPaths: seq<Path> := seq(14, k => BuiltinPath(k))

  /** `AddWordWithTag` for the entries of `xs` from index `k` on, first to
      last. */
  function AddTaggedFrom(d: DictState, xs: seq<(Spelled, byte)>, k: nat): DictState
    decreases |xs| - k
  {
    if k >= |xs| then d
    else AddTaggedFrom(AddToState(d, xs[k].0, TagWord(xs[k].1)), xs, k + 1)
  }

  function AddTagged(d: DictState, xs: seq<(Spelled, byte)>): DictState
  {
    AddTaggedFrom(d, xs, 0)
  }

  predicate DistinctKeys(xs: seq<(Spelled, byte)>)
  {
    forall i, j :: 0 <= i < j < |xs| ==> Runes(xs[i].0) != Runes(xs[j].0)
  }

  /** The rune paths of the entries from index `k` on. */
  function KeysFrom(xs: seq<(Spelled, byte)>, k: nat): set<Path>
  {
    set i | k <= i < |xs| :: Runes(xs[i].0)
  }

  /** After tagging a list of distinct spellings, each spelling holds the
      word `AddWord` would have left there had it been the only insertion
      (a new one-reading word, or the earlier word with the tag reading
      merged in), and every other word is untouched. */
  lemma {:induction false} AddTaggedEffect(d: DictState, xs: seq<(Spelled, byte)>, k: nat)
    requires StateValid(d) && DistinctKeys(xs) && k <= |xs|
    ensures var r := AddTaggedFrom(d, xs, k);
      && StateValid(r)
      && (forall i :: k <= i < |xs| ==>
            Lookup(r.root, xs[i].0).0 == Some(Installed(d.root, Runes(xs[i].0), TagWord(xs[i].1))))
      && (forall p :: p in d.root.words && p !in KeysFrom(xs, k) ==>
            p in r.root.words && r.root.words[p] == d.root.words[p])
    decreases |xs| - k
  {
    if k < |xs| {
      var key := Runes(xs[k].0);
      var d1 := AddToState(d, xs[k].0, TagWord(xs[k].1));
      AddToStateValid(d, xs[k].0, TagWord(xs[k].1));
      AddWordEffect(d.root, xs[k].0, TagWord(xs[k].1));
      AddTaggedEffect(d1, xs, k + 1);
      var r := AddTaggedFrom(d, xs, k);
      assert key !in KeysFrom(xs, k + 1);
      forall i | k <= i < |xs|
        ensures Lookup(r.root, xs[i].0).0 == Some(Installed(d.root, Runes(xs[i].0), TagWord(xs[i].1)))
      {
        if i == k {
          assert key in d1.root.words;
        } else {
          assert Runes(xs[i].0) != key;
        }
      }
      forall p | p in d.root.words && p !in KeysFrom(xs, k)
        ensures p in r.root.words && r.root.words[p] == d.root.words[p]
      {
        assert p != key;
        assert p !in KeysFrom(xs, k + 1);
      }
    }
  }

  /** Tagging distinct spellings with punctuation tags leaves at each one a
      word holding that tag's reading, and a punctuation word where there
      was none before. */
  lemma TaggedFound(d: DictState, xs: seq<(Spelled, byte)>)
    requires StateValid(d) && DistinctKeys(xs)
    requires forall i :: 0 <= i < |xs| ==> xs[i].1 >= BEGIN_PUNCT
    ensures var r := AddTagged(d, xs);
      forall i :: 0 <= i < |xs| ==>
        var w := Lookup(r.root, xs[i].0).0;
        && w.Some?
        && ZeroVariant.(tag := xs[i].1) in w.value.variants
        && (Runes(xs[i].0) !in d.root.words ==> IsPunct(w.value))
  {
    AddTaggedEffect(d, xs, 0);
  }

  lemma RunesAscii(b: byte)
    requires b < 0x80
    ensures Runes([b]) == [b]
  {
    assert [b][1..] == [];
  }

  lemma BuiltinRunes(i: int)
    requires 0 <= i < 14
    ensures Runes(Builtin(i).0) == BuiltinPath(i)
  {
    if i == 13 {
      assert DecodeRune([0xC3, 0x82, 0xC2, 0xA9]) == (0xC2, 2);
      assert [0xC3, 0x82, 0xC2, 0xA9][2..] == [0xC2, 0xA9];
      assert DecodeRune([0xC2, 0xA9]) == (0xA9, 2);
      assert [0xC2, 0xA9][2..] == [];
    } else {
      var b := Builtin(i).0[0];
      assert Builtin(i).0 == [b] && b < 0x80;
      RunesAscii(b);
    }
  }

  lemma BuiltinPathsAreRunes()
    ensures |Builtins| == |BuiltinPaths| == 14
    ensures forall i :: 0 <= i < |Builtins| ==> Runes(Builtins[i].0) == BuiltinPaths[i]
  {
    BuiltinsTable();
    forall i | 0 <= i < 14 ensures Runes(Builtins[i].0) == BuiltinPaths[i] {
      BuiltinRunes(i);
    }
  }

  /** The position of a builtin path in the table, from its first rune. */
  function BuiltinRank(p: Path): int
  {
    if p == [] then -1
    else if p[0] == 0x09 then 0
    else if p[0] == 0x0A then 1
    else if p[0] == 0x0D then 2
    else if p[0] == 0x2F then 3
    else if p[0] == 0x3E then 4
    else if p[0] == 0x3C then 5
    else if p[0] == 0x26 then 6
    else if p[0] == 0x7C then 7
    else if p[0] == 0x5B then 8
    else if p[0] == 0x5D then 9
    else if p[0] == 0x23 then 10
    else if p[0] == 0x24 then 11
    else if p[0] == 0x40 then 12
    else if p[0] == 0xC2 then 13
    else -1
  }

  lemma BuiltinRankOf(i: int)
    requires 0 <= i < 14
    ensures BuiltinRank(BuiltinPath(i)) == i
  {
  }

  lemma BuiltinsDistinct()
    ensures DistinctKeys(Builtins)
  {
    BuiltinPathsAreRunes();
    forall i, j | 0 <= i < j < |Builtins| ensures Runes(Builtins[i].0) != Runes(Builtins[j].0) {
      BuiltinRankOf(i);
      BuiltinRankOf(j);
      assert BuiltinPaths[i] == BuiltinPath(i) && BuiltinPaths[j] == BuiltinPath(j);
    }
  }

  /** Every builtin symbol is found afterwards and carries its tag reading;
      a symbol the dictionary did not hold before becomes a punctuation
      word, and words at other spellings are untouched. */
  lemma BuiltinsAdded(d: DictState)
    requires StateValid(d)
    ensures var r := AddTagged(d, Builtins);
      && StateValid(r)
      && (forall i :: 0 <= i < |Builtins| ==>
            var w := Lookup(r.root, Builtins[i].0).0;
            && w.Some?
            && ZeroVariant.(tag := Builtins[i].1) in w.value.variants
            && (Runes(Builtins[i].0) !in d.root.words ==> IsPunct(w.value)))
      && (forall p :: p in d.root.words && p !in BuiltinPaths ==>
            p in r.root.words && r.root.words[p] == d.root.words[p])
  {
    BuiltinsDistinct();
    BuiltinPathsAreRunes();
    BuiltinsTable();
    assert forall i :: 0 <= i < |Builtins| ==> Builtin(i).1 >= BEGIN_PUNCT;
    AddTaggedEffect(d, Builtins, 0);
    TaggedFound(d, Builtins);
    forall p | p in d.root.words && p !in BuiltinPaths
      ensures p !in KeysFrom(Builtins, 0)
    {
    }
  }

  /** `Dictionary.WalkFromPath`: the words under the node the spelling
      reaches, none when `FindPath` finds no node. */
  function WordsFromPath(d: DictState, word: Bytes): set<Word>
  {
    if word != [] && Runes(word) in d.root.nodes then Walk(d.root, Runes(word)) else {}
  }

  /** Moving one element from the pending part of a set to the visited
      part. */
  lemma TakeOne(all: set<Word>, pending: set<Word>, w: Word)
    requires w in pending && pending <= all
    ensures all - (pending - {w}) == (all - pending) + {w}
  {
  }

  predicate Passes(filter: Option<WordVariant>, w: Word)
  {
    filter.None? || Filter(filter.value, w)
  }

  /** The words of `xs` that pass the filter. */
  function Passing(xs: set<Word>, filter: Option<WordVariant>): set<Word>
  {
    set w | w in xs && Passes(filter, w)
  }

  lemma PassingAdd(xs: set<Word>, w: Word, filter: Option<WordVariant>)
    ensures Passing(xs + {w}, filter) == Passing(xs, filter) + (if Passes(filter, w) then {w} else {})
  {
  }

  /** The result `AutoComplete` collects, as a set. */
  function Completions(d: DictState, word: Bytes, filter: Option<WordVariant>): set<Word>
  {
    Passing(WordsFromPath(d, word), filter)
  }

  /** Completions are exactly the stored words whose node extends the
      spelling's runes and that pass the filter. */
  lemma CompletionsMeaning(d: DictState, word: Bytes, filter: Option<WordVariant>, w: Word)
    requires StateValid(d)
    ensures w in Completions(d, word, filter) <==>
      word != [] && (filter.None? || Filter(filter.value, w)) &&
      exists p :: p in d.root.words && d.root.words[p] == w && IsPrefix(Runes(word), p)
  {
    if word != [] && (exists p :: p in d.root.words && d.root.words[p] == w && IsPrefix(Runes(word), p)) {
      var p :| p in d.root.words && d.root.words[p] == w && IsPrefix(Runes(word), p);
      PrefixClosed(d.root, p, |Runes(word)|);
    }
  }

  /** The spelling of a word stored in the trie. */
  function SpellingOf(w: Word): Bytes
  {
    if w.lastLetter.Some? then Spelling(w.lastLetter.value) else []
  }

  /** Every word a walk delivers knows its node. */
  lemma WalkedWordsPlaced(t: Trie, n: Option<int>)
    requires WordLetter.Valid(t)
    ensures n.None? ==> forall w | w in Walk(t, []) :: w.lastLetter.Some?
    ensures n.Some? ==> forall w | w in WalkOfSize(t, [], n.value) :: w.lastLetter.Some?
  {
  }

  /** Whether `FindAlternatives` keeps candidate `w`: within `maxerror`
      byte errors of the query and with a reading in `lang`. */
  predicate Near(word: Bytes, w: Word, lang: byte, maxerror: int)
  {
    |SpellingOf(w)| >= |word| && Mismatches(word, SpellingOf(w), |word|) <= maxerror && Language(w, lang)
  }

  function NearOnes(xs: set<Word>, word: Bytes, lang: byte, maxerror: int): set<Word>
  {
    set w | w in xs && Near(word, w, lang, maxerror)
  }

  lemma NearOnesAdd(xs: set<Word>, w: Word, word: Bytes, lang: byte, maxerror: int)
    ensures NearOnes(xs + {w}, word, lang, maxerror) ==
      NearOnes(xs, word, lang, maxerror) + (if Near(word, w, lang, maxerror) then {w} else {})
  {
  }

  /** What `FindAlternatives` keeps: the words of the query's rune count
      within `maxerror` byte errors of it and with a reading in `lang`. */
  function Alternatives(d: DictState, word: Bytes, lang: byte, maxerror: int): set<Word>
  {
    NearOnes(WalkOfSize(d.root, [], |Runes(word)|), word, lang, maxerror)
  }

  /** A candidate spelling shorter in bytes than the query makes
      `CountError` index past its end: the source panics. */
  predicate AlternativesPanic(d: DictState, word: Bytes)
  {
    exists w :: w in WalkOfSize(d.root, [], |Runes(word)|) && |SpellingOf(w)| < |word|
  }

  datatype Panic = IndexOutOfRange

  /** How loading a binary dump fails: a record that does not decode, or a
      record with an empty spelling when the root has no U+FFFD child (the
      source dereferences a nil node). */
  datatype LoadError = Corrupt(error: ReadError) | NilChild

  /** `ReadBinary`'s loop on the stream from `pos`: insert each record that
      reads; stop cleanly on `io.EOF`, otherwise with the error, keeping
      what was inserted so far. */
  function Load(d: DictState, s: Bytes, pos: nat): (DictState, Option<LoadError>)
    requires pos <= |s|
    decreases |s| - pos
  {
    var r := ReadRecord(s, pos);
    if r.Ok? then
      var rec := r.value.0;
      if CanAdd(d.root, [], rec.letters) then
        Load(AddToState(d, rec.letters, Word(None, rec.variants)), s, r.value.1)
      else (d, Some(NilChild))
    else if r.error == EndOfFile then (d, None)
    else (d, Some(Corrupt(r.error)))
  }

  /** The dump of a sequence of words, one record each. */
  function Records(order: seq<Word>): Bytes
  {
    if order == [] then []
    else EncodeRecord(SpellingOf(order[0]), order[0].variants) + Records(order[1..])
  }

  lemma RecordsSnoc(order: seq<Word>, w: Word)
    ensures Records(order + [w]) == Records(order) + EncodeRecord(SpellingOf(w), w.variants)
  {
    if order == [] {
      assert order + [w] == [w];
    } else {
      assert (order + [w])[1..] == order[1..] + [w];
      RecordsSnoc(order[1..], w);
    }
  }

  predicate Distinct(xs: seq<Word>)
  {
    forall i, j :: 0 <= i < j < |xs| ==> xs[i] != xs[j]
  }

  /** `order` lists each element of `s` exactly once. */
  predicate Enumerates(order: seq<Word>, s: set<Word>)
  {
    Distinct(order) && Elements(order) == s
  }

  lemma ElementsSnoc(xs: seq<Word>, w: Word)
    ensures Elements(xs + [w]) == Elements(xs) + {w}
  {
    assert forall x :: x in xs + [w] <==> x in xs || x == w;
  }

  lemma DistinctSnoc(xs: seq<Word>, w: Word)
    requires Distinct(xs) && w !in Elements(xs)
    ensures Distinct(xs + [w])
  {
    forall i, j | 0 <= i < j < |xs + [w]| ensures (xs + [w])[i] != (xs + [w])[j] {
      if j == |xs| {
        assert (xs + [w])[i] == xs[i] && xs[i] in Elements(xs);
      } else {
        assert (xs + [w])[i] == xs[i] && (xs + [w])[j] == xs[j];
      }
    }
  }

  /** The words of `t` whose word is in `done`. */
  function Restrict(t: Trie, done: set<Word>): map<Path, Word>
  {
    map p | p in t.words && t.words[p] in done :: t.words[p]
  }

  /** Every word can be dumped and read back: its node has no U+0000 rune
      and both lengths fit an int32. */
  predicate Dumpable(t: Trie)
  {
    forall p | p in t.words ::
      NoNul(p) && |Spelling(p)| < TwoTo31 && |t.words[p].variants| < TwoTo31
  }

  /** A record that reads back is inserted, and loading goes on after it. */
  lemma LoadOne(d: DictState, s: Bytes, pre: Bytes, letters: Bytes, vs: seq<WordVariant>, post: Bytes)
    returns (d1: DictState, next: Bytes)
    requires letters != [] && |letters| < TwoTo31 && |vs| < TwoTo31
    requires s == pre + (EncodeRecord(letters, vs) + post)
    ensures d1 == AddToState(d, letters, Word(None, vs))
    ensures s == next + post && |pre| < |next|
    ensures Load(d, s, |pre|) == Load(d1, s, |next|)
  {
    d1 := AddToState(d, letters, Word(None, vs));
    next := pre + EncodeRecord(letters, vs);
    RecordAt(s, pre, letters, vs, post, next);
    LoadStep(d, s, |pre|, Record(letters, vs), |next|);
  }

  /** The record after `pre` reads back, up to the end of `next`. */
  lemma RecordAt(s: Bytes, pre: Bytes, letters: Bytes, vs: seq<WordVariant>, post: Bytes, next: Bytes)
    requires |letters| < TwoTo31 && |vs| < TwoTo31
    requires s == pre + (EncodeRecord(letters, vs) + post) && next == pre + EncodeRecord(letters, vs)
    ensures ReadRecord(s, |pre|) == Ok((Record(letters, vs), |next|))
    ensures s == next + post && |pre| < |next|
  {
    assert s == pre + EncodeRecord(letters, vs) + post;
    RecordSize(letters, vs);
    RecordRoundTrip(s, pre, letters, vs, post);
  }

  /** A record that reads and may be inserted is inserted. */
  lemma LoadStep(d: DictState, s: Bytes, pos: nat, rec: Record, next: nat)
    requires pos <= |s| && ReadRecord(s, pos) == Ok((rec, next)) && rec.letters != []
    ensures Load(d, s, pos) == Load(AddToState(d, rec.letters, Word(None, rec.variants)), s, next)
  {
  }

  /** Inserting a stored word's spelling and readings into a dictionary
      holding some of the words of `t` adds exactly that word of `t`. */
  lemma RestrictAdd(t: Trie, d: DictState, done: set<Word>, p: Path)
    requires WordLetter.Valid(t) && Dumpable(t) && StateValid(d)
    requires d.root.words == Restrict(t, done) && p in t.words && t.words[p] !in done
    ensures Spelling(p) != [] && Runes(Spelling(p)) == p
    ensures AddToState(d, Spelling(p), Word(None, t.words[p].variants)).root.words ==
      Restrict(t, done + {t.words[p]})
  {
    var w := t.words[p];
    var letters := Spelling(p);
    SpellingRoundTrip(p);
    assert letters != [];
    var d1 := AddToState(d, letters, Word(None, w.variants));
    AddWordEffect(d.root, letters, Word(None, w.variants));
    assert p !in d.root.words;
    assert Installed(d.root, p, Word(None, w.variants)) == w;
    forall q | q in t.words && t.words[q] == w ensures q == p {
      assert t.words[q].lastLetter == Some(q);
    }
    RestrictInsert(t, done, p);
  }

  /** A word stored at one node only joins the restriction at that node. */
  lemma RestrictInsert(t: Trie, done: set<Word>, p: Path)
    requires p in t.words && t.words[p] !in done
    requires forall q :: q in t.words && t.words[q] == t.words[p] ==> q == p
    ensures Restrict(t, done)[p := t.words[p]] == Restrict(t, done + {t.words[p]})
  {
    var a := Restrict(t, done)[p := t.words[p]];
    var b := Restrict(t, done + {t.words[p]});
    assert a.Keys == b.Keys;
  }

  function Elements(xs: seq<Word>): set<Word>
  {
    set x | x in xs
  }

  lemma ElementsCons(xs: seq<Word>)
    requires xs != []
    ensures Elements(xs) == {xs[0]} + Elements(xs[1..])
  {
    forall x | x in xs ensures x == xs[0] || x in xs[1..] {
      var j :| 0 <= j < |xs| && xs[j] == x;
      if j > 0 { assert xs[1..][j - 1] == x; }
    }
  }

  /** The words still to load after the first are distinct, dumped, and
      not yet loaded once the first is. */
  lemma PendingTail(all: set<Word>, done: set<Word>, rest: seq<Word>)
    requires rest != [] && Distinct(rest)
    requires forall i :: 0 <= i < |rest| ==> rest[i] in all && rest[i] !in done
    ensures Distinct(rest[1..])
    ensures forall i :: 0 <= i < |rest[1..]| ==> rest[1..][i] in all && rest[1..][i] !in done + {rest[0]}
  {
    forall i | 0 <= i < |rest[1..]| ensures rest[1..][i] in all && rest[1..][i] !in done + {rest[0]} {
      assert rest[1..][i] == rest[i + 1];
    }
    forall i, j | 0 <= i < j < |rest[1..]| ensures rest[1..][i] != rest[1..][j] {
      assert rest[1..][i] == rest[i + 1] && rest[1..][j] == rest[j + 1];
    }
  }

  /** Reading the first of the remaining records of a dump: the loader
      moves past it to a state holding one more word of `t`. */
  lemma NextRecord(t: Trie, d: DictState, done: set<Word>, s: Bytes, pre: Bytes, rest: seq<Word>)
    returns (d1: DictState, next: Bytes)
    requires WordLetter.Valid(t) && Dumpable(t) && StateValid(d)
    requires d.root.words == Restrict(t, done)
    requires rest != [] && Distinct(rest) && forall i :: 0 <= i < |rest| ==> rest[i] in Walk(t, []) && rest[i] !in done
    requires s == pre + Records(rest)
    ensures StateValid(d1) && d1.root.words == Restrict(t, done + {rest[0]})
    ensures s == next + Records(rest[1..]) && |pre| < |next|
    ensures Load(d, s, |pre|) == Load(d1, s, |next|)
    ensures Distinct(rest[1..])
    ensures forall i :: 0 <= i < |rest[1..]| ==> rest[1..][i] in Walk(t, []) && rest[1..][i] !in done + {rest[0]}
    ensures done + Elements(rest) == (done + {rest[0]}) + Elements(rest[1..])
  {
    var w := rest[0];
    var p :| p in t.words && IsPrefix([], p) && t.words[p] == w;
    RestrictAdd(t, d, done, p);
    var letters := Spelling(p);
    assert SpellingOf(w) == letters;
    d1, next := LoadOne(d, s, pre, letters, w.variants, Records(rest[1..]));
    AddToStateValid(d, letters, Word(None, w.variants));
    PendingTail(Walk(t, []), done, rest);
    ElementsCons(rest);
  }

  lemma {:induction false} LoadRecords(t: Trie, d: DictState, done: set<Word>, s: Bytes, pre: Bytes, rest: seq<Word>)
    requires WordLetter.Valid(t) && Dumpable(t) && StateValid(d)
    requires d.root.words == Restrict(t, done)
    requires Distinct(rest) && forall i :: 0 <= i < |rest| ==> rest[i] in Walk(t, []) && rest[i] !in done
    requires s == pre + Records(rest)
    ensures Load(d, s, |pre|).1 == None
    ensures Load(d, s, |pre|).0.root.words == Restrict(t, done + Elements(rest))
    decreases |rest|
  {
    if rest == [] {
      assert s == pre;
      ReadAtEnd(s);
      assert Load(d, s, |s|) == (d, None);
      assert done + Elements(rest) == done;
    } else {
      var d1, next := NextRecord(t, d, done, s, pre, rest);
      LoadRecords(t, d1, done + {rest[0]}, s, next, rest[1..]);
    }
  }

  /** Loading the dump of a lexicon, written in any order, into an empty
      dictionary succeeds and rebuilds exactly the same words at the same
      nodes. */
  lemma BinaryRoundTrip(t: Trie, order: seq<Word>)
    requires WordLetter.Valid(t) && Dumpable(t)
    requires Enumerates(order, Walk(t, []))
    ensures Load(EmptyState, Records(order), 0).1 == None
    ensures Load(EmptyState, Records(order), 0).0.root.words == t.words
  {
    EmptyValid();
    assert EmptyState.root.words == Restrict(t, {});
    assert forall i :: 0 <= i < |order| ==> order[i] in Elements(order);
    LoadRecords(t, EmptyState, {}, Records(order), [], order);
    RestrictAll(t, order);
  }

  /** Restricted to all the words the walk enumerates, a lexicon is whole. */
  lemma RestrictAll(t: Trie, order: seq<Word>)
    requires WordLetter.Valid(t) && Enumerates(order, Walk(t, []))
    ensures Restrict(t, {} + Elements(order)) == t.words
  {
    forall p | p in t.words ensures t.words[p] in Elements(order) {
      assert IsPrefix([], p);
    }
  }

  /** Hence every dumped spelling is found again with the same word. */
  lemma BinaryRoundTripFinds(t: Trie, order: seq<Word>, p: Path)
    requires WordLetter.Valid(t) && Dumpable(t)
    requires Enumerates(order, Walk(t, [])) && p in t.words
    ensures var d := Load(EmptyState, Records(order), 0).0;
      Lookup(d.root, Spelling(p)) == (Some(t.words[p]), true)
  {
    BinaryRoundTrip(t, order);
    SpellingRoundTrip(p);
    var d := Load(EmptyState, Records(order), 0).0;
    LoadValid(EmptyState, Records(order), 0);
  }

  lemma {:induction false} LoadValid(d: DictState, s: Bytes, pos: nat)
    requires StateValid(d) && pos <= |s|
    ensures StateValid(Load(d, s, pos).0)
    decreases |s| - pos
  {
    var r := ReadRecord(s, pos);
    if r.Ok? && CanAdd(d.root, [], r.value.0.letters) {
      AddToStateValid(d, r.value.0.letters, Word(None, r.value.0.variants));
      LoadValid(AddToState(d, r.value.0.letters, Word(None, r.value.0.variants)), s, r.value.1);
    }
  }

  class Dictionary {
    var root: Trie
    var maxWordLen: int
    var maxTokens: int

    function State(): DictState
      reads this
    {
      DictState(root, maxWordLen, maxTokens)
    }

    predicate Valid()
      reads this
    {
      StateValid(State()) && LengthsBounded(State())
    }

    constructor ()
      ensures Valid() && State() == EmptyState
    {
      root := Empty;
      maxWordLen := 0;
      maxTokens := 0;
      EmptyValid();
    }

    /** `Dictionary.AddWord`. */
    method AddWord(letters: Bytes, word: Word)
      requires Valid() && CanAdd(root, [], letters)
      modifies this
      ensures Valid() && State() == AddToState(old(State()), letters, word)
    {
      AddToStateValid(State(), letters, word);
      AddToStateBounded(State(), letters, word);
      root := WordLetter.AddWord(root, letters, word);
      maxWordLen := Max(|letters|, maxWordLen);
      maxTokens := Max(CountSpaces(letters), maxTokens);
    }

    /** `Dictionary.AddWordWithTag`. */
    method AddWordWithTag(s: Bytes, tag: byte)
      requires Valid() && CanAdd(root, [], s)
      modifies this
      ensures Valid() && State() == AddToState(old(State()), s, TagWord(tag))
    {
      var variant := ZeroVariant.(tag := tag);
      var word := Word(None, [variant]);
      AddWord(s, word);
    }

    /** `Dictionary.AddBuiltin`: tags the fixed punctuation and symbol
        spellings, one `AddWordWithTag` each. */
    method AddBuiltin()
      requires Valid()
      modifies this
      ensures Valid() && State() == AddTagged(old(State()), Builtins)
    {
      ghost var s0 := State();
      AddWordWithTag(Builtins[0].0, Builtins[0].1);
      assert AddTaggedFrom(s0, Builtins, 0) == AddTaggedFrom(State(), Builtins, 1);
      AddWordWithTag(Builtins[1].0, Builtins[1].1);
      assert AddTaggedFrom(s0, Builtins, 0) == AddTaggedFrom(State(), Builtins, 2);
      AddWordWithTag(Builtins[2].0, Builtins[2].1);
      assert AddTaggedFrom(s0, Builtins, 0) == AddTaggedFrom(State(), Builtins, 3);
      AddWordWithTag(Builtins[3].0, Builtins[3].1);
      assert AddTaggedFrom(s0, Builtins, 0) == AddTaggedFrom(State(), Builtins, 4);
      AddWordWithTag(Builtins[4].0, Builtins[4].1);
      assert AddTaggedFrom(s0, Builtins, 0) == AddTaggedFrom(State(), Builtins, 5);
      AddWordWithTag(Builtins[5].0, Builtins[5].1);
      assert AddTaggedFrom(s0, Builtins, 0) == AddTaggedFrom(State(), Builtins, 6);
      AddWordWithTag(Builtins[6].0, Builtins[6].1);
      assert AddTaggedFrom(s0, Builtins, 0) == AddTaggedFrom(State(), Builtins, 7);
      AddWordWithTag(Builtins[7].0, Builtins[7].1);
      assert AddTaggedFrom(s0, Builtins, 0) == AddTaggedFrom(State(), Builtins, 8);
      AddWordWithTag(Builtins[8].0, Builtins[8].1);
      assert AddTaggedFrom(s0, Builtins, 0) == AddTaggedFrom(State(), Builtins, 9);
      AddWordWithTag(Builtins[9].0, Builtins[9].1);
      assert AddTaggedFrom(s0, Builtins, 0) == AddTaggedFrom(State(), Builtins, 10);
      AddWordWithTag(Builtins[10].0, Builtins[10].1);
      assert AddTaggedFrom(s0, Builtins, 0) == AddTaggedFrom(State(), Builtins, 11);
      AddWordWithTag(Builtins[11].0, Builtins[11].1);
      assert AddTaggedFrom(s0, Builtins, 0) == AddTaggedFrom(State(), Builtins, 12);
      AddWordWithTag(Builtins[12].0, Builtins[12].1);
      assert AddTaggedFrom(s0, Builtins, 0) == AddTaggedFrom(State(), Builtins, 13);
      AddWordWithTag(Builtins[13].0, Builtins[13].1);
      assert AddTaggedFrom(s0, Builtins, 0) == AddTaggedFrom(State(), Builtins, 14);
    }

    /** `Dictionary.FindWord`. */
    method FindWord(letters: Bytes) returns (w: Option<Word>, found: bool)
      requires Valid()
      ensures (w, found) == Lookup(root, letters)
    {
      w, found := WordLetter.FindWord(root, letters);
    }

    /** `Dictionary.FindLonguestWord`. */
    method FindLonguestWord(letters: Bytes) returns (w: Option<Word>)
      requires Valid()
      ensures w == LongestPrefixWord(root.words, Runes(letters), |Runes(letters)|)
    {
      w := WordLetter.FindLonguestWord(root, letters);
    }

    /** `Dictionary.FindPath`. */
    method FindPath(letters: Bytes) returns (node: Option<Path>)
      requires Valid()
      ensures node.Some? <==> letters != [] && Runes(letters) in root.nodes
      ensures node.Some? ==> node.value == Runes(letters)
    {
      node := WordLetter.FindPath(root, letters);
    }

    /** `Dictionary.Walk`: every stored word, in no particular order. */
    method Walk() returns (words: set<Word>)
      requires Valid()
      ensures forall w :: w in words <==> exists p :: p in root.words && root.words[p] == w
    {
      words := WordLetter.Walk(root, []);
      forall w | w in words ensures exists p :: p in root.words && root.words[p] == w {
      }
      forall p | p in root.words ensures root.words[p] in words {
        assert IsPrefix([], p);
      }
    }

    /** `Dictionary.WalkOfSize`: the stored words of exactly `size` runes. */
    method WalkOfSize(size: int) returns (words: set<Word>)
      requires Valid()
      ensures forall w :: w in words <==> exists p :: p in root.words && root.words[p] == w && |p| == size
    {
      words := WordLetter.WalkOfSize(root, [], size);
      forall p | p in root.words && |p| == size ensures root.words[p] in words {
        assert IsPrefix([], p);
      }
    }

    /** `Dictionary.WalkFromPath`. */
    method WalkFromPath(letters: Bytes) returns (words: set<Word>)
      requires Valid()
      ensures words == WordsFromPath(State(), letters)
    {
      var node := FindPath(letters);
      if node.Some? {
        words := WordLetter.Walk(root, node.value);
      } else {
        words := {};
      }
    }

    /** `Dictionary.AutoComplete`: the words under the spelling's node that
        pass the filter, when one is given. */
    method AutoComplete(letters: Bytes, filter: Option<WordVariant>) returns (words: set<Word>)
      requires Valid()
      ensures words == Completions(State(), letters, filter)
    {
      var candidates := WalkFromPath(letters);
      var pending := candidates;
      words := {};
      while pending != {}
        invariant pending <= candidates
        invariant words == Passing(candidates - pending, filter)
        decreases |pending|
      {
        var w :| w in pending;
        PassingAdd(candidates - pending, w, filter);
        TakeOne(candidates, pending, w);
        if filter.None? || Filter(filter.value, w) {
          words := words + {w};
        }
        pending := pending - {w};
      }
      assert candidates - pending == candidates;
    }

    /** `Dictionary.FindAlternatives`: the words with as many runes as the
        query, within `maxerror` byte errors of it and with a reading in
        `lang`; a candidate shorter in bytes than the query panics. */
    method FindAlternatives(letters: Bytes, lang: byte, maxerror: int) returns (r: Result<set<Word>, Panic>)
      requires Valid()
      ensures r.Err? <==> AlternativesPanic(State(), letters)
      ensures r.Ok? ==> r.value == Alternatives(State(), letters, lang, maxerror)
    {
      var count := |Runes(letters)|;
      var candidates := WordLetter.WalkOfSize(root, [], count);
      WalkedWordsPlaced(root, Some(count));
      var pending := candidates;
      var words: set<Word> := {};
      while pending != {}
        invariant pending <= candidates
        invariant forall w | w in candidates - pending :: |SpellingOf(w)| >= |letters|
        invariant words == NearOnes(candidates - pending, letters, lang, maxerror)
        decreases |pending|
      {
        var w :| w in pending;
        var spelling := GetWord(w.lastLetter.value);
        if |spelling| < |letters| {
          return Err(IndexOutOfRange);
        }
        var errors := CountError(letters, spelling);
        NearOnesAdd(candidates - pending, w, letters, lang, maxerror);
        TakeOne(candidates, pending, w);
        if errors <= maxerror && Language(w, lang) {
          words := words + {w};
        }
        pending := pending - {w};
      }
      assert candidates - pending == candidates;
      r := Ok(words);
    }

    /** `Dictionary.WriteBinary`: one record per stored word, in the order
        the walk delivers them, which `order` records. */
    method WriteBinary() returns (out: Bytes, ghost order: seq<Word>)
      requires Valid()
      ensures Enumerates(order, WordLetter.Walk(root, []))
      ensures out == Records(order)
    {
      var pending := WordLetter.Walk(root, []);
      WalkedWordsPlaced(root, None);
      out := [];
      order := [];
      assert Elements(order) == {};
      while pending != {}
        invariant pending <= WordLetter.Walk(root, [])
        invariant Distinct(order) && Elements(order) == WordLetter.Walk(root, []) - pending
        invariant out == Records(order)
        decreases |pending|
      {
        var w :| w in pending;
        var record := Write(w);
        RecordsSnoc(order, w);
        TakeOne(WordLetter.Walk(root, []), pending, w);
        ElementsSnoc(order, w);
        DistinctSnoc(order, w);
        out := out + record;
        order := order + [w];
        pending := pending - {w};
      }
      assert WordLetter.Walk(root, []) - pending == WordLetter.Walk(root, []);
    }

    /** `Dictionary.ReadBinary`: load records until the end of the stream. */
    method ReadBinary(data: Bytes) returns (err: Option<LoadError>)
      requires Valid()
      modifies this
      ensures Valid()
      ensures (State(), err) == Load(old(State()), data, 0)
    {
      var pos := 0;
      while true
        invariant Valid() && pos <= |data|
        invariant Load(old(State()), data, 0) == Load(State(), data, pos)
        decreases |data| - pos
      {
        var r := Read(data, pos);
        if r.Ok? {
          var (record, next) := r.value;
          if !CanAdd(root, [], record.letters) {
            return Some(NilChild);
          }
          AddWord(record.letters, Word(None, record.variants));
          pos := next;
        } else if r.error == EndOfFile {
          return None;
        } else {
          return Some(Corrupt(r.error));
        }
      }
    }
  }
}
