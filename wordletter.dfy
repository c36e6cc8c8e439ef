/** The lexicon trie of words/wordletter.go. A node is named by the runes on
    the path from the root (its `Letter` is the last of them, the root has
    none), so the `Children` maps of all nodes together are the set `nodes`
    of paths, and the `Word` pointers the map `words` from a node to the word
    stored there. A `Word`'s `LastLetter` back-reference is the key it is
    stored under, and `Parent` links are the path's prefixes. */
module WordLetter {
  import opened Wrappers
  import opened Utf8
  import opened Morphology

  datatype Trie = Trie(nodes: set<Path>, words: map<Path, Word>)

  /** The shape every trie built by `AddWord` has: the root exists, every
      prefix of a node (its parent, and so on up) exists, node letters are decoded runes, and every word
      hangs under a non-root node and points back to it. */
  predicate Valid(t: Trie)
  {
    && [] in t.nodes
    && (forall p | p in t.nodes :: AllValid(p))
    && (forall p, k | p in t.nodes && 0 <= k <= |p| :: p[..k] in t.nodes)
    && (forall p | p in t.words :: p in t.nodes && p != [] && t.words[p].lastLetter == Some(p))
  }

  /** A fresh `WordLetter{}` root. */
  const Empty: Trie := Trie({[]}, map[])

  lemma EmptyValid()
    ensures Valid(Empty)
  {
  }

  function Prefixes(p: Path): set<Path>
  {
    set k | 0 <= k <= |p| :: p[..k]
  }

  lemma PrefixClosed(t: Trie, p: Path, k: nat)
    requires Valid(t) && p in t.nodes && k <= |p|
    ensures p[..k] in t.nodes
  {
  }

  lemma PrefixesInNodes(t: Trie, p: Path)
    requires Valid(t) && p in t.nodes
    ensures Prefixes(p) <= t.nodes
  {
    forall q | q in Prefixes(p) ensures q in t.nodes {
      var k :| 0 <= k <= |p| && q == p[..k];
      PrefixClosed(t, p, k);
    }
  }

  /** `AddWord` may insert under `node` only when `letters` is non-empty or
      the child for U+FFFD already exists: the empty string decodes to
      U+FFFD of width 0, no child is created, and the source dereferences
      that child. */
  predicate CanAdd(t: Trie, node: Path, letters: Bytes)
  {
    letters != [] || node + [RuneError] in t.nodes
  }

  /** The word stored at `key` after inserting `word` there: the existing
      word with `word`'s readings merged in, or `word` itself pointed at the
      node. */
  function Installed(t: Trie, key: Path, word: Word): Word
  {
    if key in t.words then
      t.words[key].(variants := MergeVariants(t.words[key].variants, word.variants))
    else word.(lastLetter := Some(key))
  }

  /** `WordLetter.AddWord`, one recursion step per decoded rune. */
  function AddWordAt(t: Trie, node: Path, letters: Bytes, word: Word): Trie
    requires CanAdd(t, node, letters)
    decreases |letters|
  {
    var d := DecodeRune(letters);
    var child := node + [d.0];
    var t1 := if child !in t.nodes && d.1 > 0 then t.(nodes := t.nodes + {child}) else t;
    if |letters| > d.1 then AddWordAt(t1, child, letters[d.1..], word)
    else t1.(words := t1.words[child := Installed(t1, child, word)])
  }

  function AddWord(t: Trie, letters: Bytes, word: Word): Trie
    requires CanAdd(t, [], letters)
  {
    AddWordAt(t, [], letters, word)
  }

  lemma AddChildValid(t: Trie, node: Path, c: Rune)
    requires Valid(t) && node in t.nodes && ValidRune(c)
    ensures Valid(t.(nodes := t.nodes + {node + [c]}))
  {
    var child := node + [c];
    forall k | 0 <= k <= |child| ensures child[..k] in t.nodes + {child} {
      if k <= |node| {
        assert child[..k] == node[..k];
      } else {
        assert child[..k] == child;
      }
    }
    assert AllValid(child);
  }

  lemma PrefixesSnoc(node: Path, c: Rune)
    ensures Prefixes(node + [c]) == Prefixes(node) + {node + [c]}
  {
    var key := node + [c];
    forall q | q in Prefixes(key) ensures q in Prefixes(node) + {key} {
      var k :| 0 <= k <= |key| && q == key[..k];
      if k <= |node| {
        assert key[..k] == node[..k];
      } else {
        assert key[..k] == key;
      }
    }
    forall q | q in Prefixes(node) ensures q in Prefixes(key) {
      var k :| 0 <= k <= |node| && q == node[..k];
      assert node[..k] == key[..k];
    }
    assert key == key[..|key|];
  }

  /** What inserting `word` under the rune path `key` does to `t`: the result
      `r` is a valid trie whose nodes are the old ones plus every prefix of
      `key`, and whose words differ only at `key`. */
  predicate Effect(t: Trie, key: Path, word: Word, r: Trie)
  {
    && Valid(r)
    && r.nodes == t.nodes + Prefixes(key)
    && r.words == t.words[key := Installed(t, key, word)]
  }

  /** The last step: the child for the final rune is created if missing and
      the word installed there. */
  lemma EffectBase(t: Trie, node: Path, c: Rune, word: Word)
    requires Valid(t) && node in t.nodes && ValidRune(c)
    ensures var t1 := t.(nodes := t.nodes + {node + [c]});
      Effect(t, node + [c], word, t1.(words := t1.words[node + [c] := Installed(t1, node + [c], word)]))
  {
    AddChildValid(t, node, c);
    PrefixesInNodes(t, node);
    PrefixesSnoc(node, c);
  }

  /** Creating a node on the way to `key` first changes nothing in the
      effect of the whole insertion. */
  lemma EffectLift(t: Trie, child: Path, key: Path, word: Word, r: Trie)
    requires child in Prefixes(key)
    requires Effect(t.(nodes := t.nodes + {child}), key, word, r)
    ensures Effect(t, key, word, r)
  {
  }

  lemma {:induction false} AddWordAtEffect(t: Trie, node: Path, letters: Bytes, word: Word)
    requires Valid(t) && node in t.nodes && letters != []
    ensures Effect(t, node + Runes(letters), word, AddWordAt(t, node, letters, word))
    decreases |letters|
  {
    var d := DecodeRune(letters);
    var child := node + [d.0];
    var t1 := if child !in t.nodes && d.1 > 0 then t.(nodes := t.nodes + {child}) else t;
    assert t1 == t.(nodes := t.nodes + {child});
    RunesFrom(letters, 0);
    assert letters[0..] == letters;
    var key := node + Runes(letters);
    assert key == child + Runes(letters[d.1..]);
    if |letters| > d.1 {
      AddChildValid(t, node, d.0);
      AddWordAtEffect(t1, child, letters[d.1..], word);
      assert child == key[..|child|];
      EffectLift(t, child, key, word, AddWordAt(t, node, letters, word));
    } else {
      assert Runes(letters[d.1..]) == [];
      assert key == child;
      EffectBase(t, node, d.0, word);
    }
  }

  /** Inserting a non-empty spelling creates exactly the missing nodes along
      its runes and changes only the word at its end node. */
  lemma AddWordEffect(t: Trie, letters: Bytes, word: Word)
    requires Valid(t) && letters != []
    ensures var r := AddWord(t, letters, word);
      && Valid(r)
      && r.nodes == t.nodes + Prefixes(Runes(letters))
      && r.words == t.words[Runes(letters) := Installed(t, Runes(letters), word)]
  {
    AddWordAtEffect(t, [], letters, word);
    assert [] + Runes(letters) == Runes(letters);
  }

  /** The empty spelling lands on the existing U+FFFD child of the root. */
  lemma AddEmptyEffect(t: Trie, word: Word)
    requires Valid(t) && CanAdd(t, [], [])
    ensures var r := AddWord(t, [], word);
      && Valid(r)
      && r.nodes == t.nodes
      && r.words == t.words[[RuneError] := Installed(t, [RuneError], word)]
  {
    assert [] + [RuneError] == [RuneError];
    assert [RuneError] in t.nodes;
  }

  /** The reference meaning of `FindWord`: whether the spelling's rune path
      exists, and the word at its end. */
  function Lookup(t: Trie, s: Bytes): (Option<Word>, bool)
  {
    if Runes(s) in t.nodes then (Get(t.words, Runes(s)), true) else (None, false)
  }

  /** After `AddWord(s, w)`, `s` is found with `w` (or the earlier word with
      `w`'s readings merged in), and every other spelling is looked up as
      before, except that a path may now exist where it did not. */
  lemma AddThenFind(t: Trie, s: Bytes, word: Word, other: Bytes)
    requires Valid(t) && s != []
    ensures var r := AddWord(t, s, word);
      && Lookup(r, s) == (Some(Installed(t, Runes(s), word)), true)
      && (Lookup(t, s).0.None? ==> Lookup(r, s).0 == Some(word.(lastLetter := Some(Runes(s)))))
      && (Lookup(t, s).0.Some? ==>
            Lookup(r, s).0.value.variants == MergeVariants(Lookup(t, s).0.value.variants, word.variants))
      && (Runes(other) != Runes(s) ==> Lookup(r, other).0 == Lookup(t, other).0)
      && (Lookup(t, other).1 ==> Lookup(r, other).1)
  {
    AddWordEffect(t, s, word);
    var r := AddWord(t, s, word);
    assert Runes(s) == Runes(s)[..|Runes(s)|];
    assert Runes(s) in Prefixes(Runes(s));
    if Runes(other) != Runes(s) && Runes(other) in r.nodes && Runes(other) !in t.nodes {
      assert Runes(other) !in t.words;
    }
  }

  /** Once a child is missing along `rs`, no longer prefix of `rs` is a
      node. */
  lemma MissingChild(t: Trie, rs: seq<Rune>, last: Path, c: Rune)
    requires Valid(t) && |last| < |rs| && rs[..|last| + 1] == last + [c]
    requires last + [c] !in t.nodes
    ensures forall j :: |last| < j <= |rs| ==> rs[..j] !in t.nodes
  {
    forall j | |last| < j <= |rs| ensures rs[..j] !in t.nodes {
      assert rs[..j][..|last| + 1] == last + [c];
    }
  }

  /** `WordLetter.FindWord`: walk the children rune by rune from the root;
      give up on the first missing child. */
  method FindWord(t: Trie, word: Bytes) returns (w: Option<Word>, found: bool)
    requires Valid(t)
    ensures found <==> Runes(word) in t.nodes
    ensures w == if found then Get(t.words, Runes(word)) else None
  {
    var wordptr: Option<Word> := None;
    var last: Path := [];
    var i := 0;
    RunesStart(word);
    while i < |word|
      invariant 0 <= i <= |word|
      invariant last in t.nodes
      invariant Decoded(word, i, last)
      invariant wordptr == Get(t.words, last)
      decreases |word| - i
    {
      var (letter, width) := DecodeRune(word[i..]);
      RunesStep(word, i, last, letter, width);
      if last + [letter] in t.nodes {
        last := last + [letter];
        wordptr := Get(t.words, last);
      } else {
        MissingChild(t, Runes(word), last, letter);
        return None, false;
      }
      i := i + width;
    }
    RunesDone(word, last);
    return wordptr, true;
  }

  /** `WordLetter.FindPath`: the node reached by the whole spelling; none for
      the empty spelling or a missing child. */
  method FindPath(t: Trie, word: Bytes) returns (node: Option<Path>)
    requires Valid(t)
    ensures node.Some? <==> word != [] && Runes(word) in t.nodes
    ensures node.Some? ==> node.value == Runes(word)
  {
    var wordletter: Option<Path> := None;
    var last: Path := [];
    var i := 0;
    RunesStart(word);
    while i < |word|
      invariant 0 <= i <= |word|
      invariant last in t.nodes
      invariant Decoded(word, i, last)
      invariant wordletter == if i == 0 then None else Some(last)
      decreases |word| - i
    {
      var (letter, width) := DecodeRune(word[i..]);
      RunesStep(word, i, last, letter, width);
      if last + [letter] in t.nodes {
        last := last + [letter];
        wordletter := Some(last);
      } else {
        MissingChild(t, Runes(word), last, letter);
        return None;
      }
      i := i + width;
    }
    RunesDone(word, last);
    return wordletter;
  }

  /** The word at the longest of the first `k` non-empty prefixes of `rs`
      that holds one. */
  function LongestPrefixWord(words: map<Path, Word>, rs: seq<Rune>, k: nat): Option<Word>
    requires k <= |rs|
  {
    if k == 0 then None
    else if rs[..k] in words then Some(words[rs[..k]])
    else LongestPrefixWord(words, rs, k - 1)
  }

  /** `LongestPrefixWord` is none exactly when no prefix is a word, and
      otherwise the word at a prefix with no longer word prefix after it. */
  lemma {:induction false} LongestPrefixWordMeaning(words: map<Path, Word>, rs: seq<Rune>, k: nat)
    requires k <= |rs|
    ensures var r := LongestPrefixWord(words, rs, k);
      && (r.None? <==> forall j :: 1 <= j <= k ==> rs[..j] !in words)
      && (r.Some? ==>
            exists j :: 1 <= j <= k && rs[..j] in words && r.value == words[rs[..j]] &&
              forall j' :: j < j' <= k ==> rs[..j'] !in words)
  {
    if k > 0 && rs[..k] !in words {
      LongestPrefixWordMeaning(words, rs, k - 1);
    }
  }

  lemma LongestPrefixWordStep(words: map<Path, Word>, rs: seq<Rune>, k: nat)
    requires k < |rs|
    ensures LongestPrefixWord(words, rs, k + 1)
      == if rs[..k + 1] in words then Some(words[rs[..k + 1]]) else LongestPrefixWord(words, rs, k)
  {
  }

  /** One more rune read: the prefix `last + [c]` is looked up. */
  lemma LongestPrefixWordNext(words: map<Path, Word>, rs: seq<Rune>, last: Path, c: Rune)
    requires |last| < |rs| && rs[..|last| + 1] == last + [c]
    ensures LongestPrefixWord(words, rs, |last + [c]|)
      == if last + [c] in words then Some(words[last + [c]]) else LongestPrefixWord(words, rs, |last|)
  {
    LongestPrefixWordStep(words, rs, |last|);
  }

  lemma {:induction false} LongestPrefixWordStops(words: map<Path, Word>, rs: seq<Rune>, m: nat, k: nat)
    requires m <= k <= |rs|
    requires forall j :: m < j <= k ==> rs[..j] !in words
    ensures LongestPrefixWord(words, rs, k) == LongestPrefixWord(words, rs, m)
    decreases k - m
  {
    if m < k {
      LongestPrefixWordStops(words, rs, m, k - 1);
    }
  }

  /** Past a missing child no longer prefix is a word. */
  lemma NoLongerWord(t: Trie, rs: seq<Rune>, last: Path, c: Rune)
    requires Valid(t) && |last| < |rs| && rs[..|last| + 1] == last + [c]
    requires last + [c] !in t.nodes
    ensures LongestPrefixWord(t.words, rs, |rs|) == LongestPrefixWord(t.words, rs, |last|)
  {
    MissingChild(t, rs, last, c);
    assert forall j :: |last| < j <= |rs| ==> rs[..j] !in t.words;
    LongestPrefixWordStops(t.words, rs, |last|, |rs|);
  }

  /** `WordLetter.FindLonguestWord`: walk as far as the children go and keep
      the last word met: the word at the longest prefix of the spelling that
      is a lexicon entry. */
  method FindLonguestWord(t: Trie, word: Bytes) returns (w: Option<Word>)
    requires Valid(t)
    ensures w == LongestPrefixWord(t.words, Runes(word), |Runes(word)|)
  {
    var wordptr: Option<Word> := None;
    var last: Path := [];
    var i := 0;
    RunesStart(word);
    while i < |word|
      invariant 0 <= i <= |word|
      invariant Decoded(word, i, last)
      invariant wordptr == LongestPrefixWord(t.words, Runes(word), |last|)
      decreases |word| - i
    {
      var (letter, width) := DecodeRune(word[i..]);
      RunesStep(word, i, last, letter, width);
      var next := last + [letter];
      if next !in t.nodes {
        NoLongerWord(t, Runes(word), last, letter);
        return wordptr;
      }
      LongestPrefixWordNext(t.words, Runes(word), last, letter);
      last := next;
      if last in t.words {
        wordptr := Some(t.words[last]);
      }
      i := i + width;
    }
    RunesDone(word, last);
    assert Runes(word)[..|last|] == last;
    return wordptr;
  }



  /** The bytes `GetWord` produces for a node: the UTF-8 encoding of its
      runes, collected upwards until a node whose letter is 0 (the root's
      marker, so a U+0000 rune in a spelling cuts it off there). */
  function Spelling(p: Path): Bytes
  {
    if p == [] || p[|p| - 1] == 0 then [] else Spelling(p[..|p| - 1]) + EncodeRune(p[|p| - 1])
  }

  /** `WordLetter.GetWord`: prepend the encoding of each letter while walking
      the parent links. */
  method GetWord(last: Path) returns (word: Bytes)
    ensures word == Spelling(last)
  {
    word := [];
    var l := |last|;
    assert last[..l] == last;
    while l > 0 && last[l - 1] != 0
      invariant 0 <= l <= |last|
      invariant Spelling(last) == Spelling(last[..l]) + word
      decreases l
    {
      SpellingStep(last, l);
      word := EncodeRune(last[l - 1]) + word;
      l := l - 1;
    }
  }

  /** One letter of the walk up: the node at depth `l` spells its parent's
      spelling followed by its own letter. */
  lemma SpellingStep(last: Path, l: int)
    requires 0 < l <= |last| && last[l - 1] != 0
    ensures Spelling(last[..l]) == Spelling(last[..l - 1]) + EncodeRune(last[l - 1])
  {
    assert last[..l][..l - 1] == last[..l - 1];
  }

  predicate NoNul(p: Path)
  {
    forall k :: 0 <= k < |p| ==> p[k] != 0
  }

  lemma {:induction false} SpellingIsEncoding(p: Path)
    requires NoNul(p)
    ensures Spelling(p) == EncodeAll(p)
    decreases |p|
  {
    if p != [] {
      var q := p[..|p| - 1];
      SpellingIsEncoding(q);
      assert p == q + [p[|p| - 1]];
      EncodeAllAppend(q, [p[|p| - 1]]);
      assert EncodeAll([p[|p| - 1]]) == EncodeRune(p[|p| - 1]) + EncodeAll([]);
    }
  }

  /** Reconstructing a spelling from its node and decoding it again leads
      back to the node, for spellings without U+0000. */
  lemma SpellingRoundTrip(p: Path)
    requires NoNul(p) && AllValid(p)
    ensures Runes(Spelling(p)) == p
  {
    SpellingIsEncoding(p);
    RunesOfEncodeAll(p);
  }

  /** `GetWord` on the node `FindWord` reached gives the spelling back, for
      well-formed UTF-8 without a NUL byte. */
  lemma FindThenGetWord(t: Trie, s: Bytes)
    requires Valid(t) && ValidUtf8(s) && NoNul(Runes(s))
    requires Lookup(t, s).0.Some?
    ensures Lookup(t, s).0.value.lastLetter == Some(Runes(s))
    ensures Spelling(Lookup(t, s).0.value.lastLetter.value) == s
  {
    SpellingIsEncoding(Runes(s));
  }

  predicate IsPrefix(p: Path, q: Path)
  {
    |p| <= |q| && q[..|p|] == p
  }

  /** `WordLetter.Walk`: every word stored in the subtree of `node`, once. */
  function Walk(t: Trie, node: Path): set<Word>
  {
    set q | q in t.words && IsPrefix(node, q) :: t.words[q]
  }

  /** `WordLetter.WalkOfSize`: the words exactly `n` levels below `node`. */
  function WalkOfSize(t: Trie, node: Path, n: int): set<Word>
  {
    set q | q in t.words && IsPrefix(node, q) && |q| == |node| + n :: t.words[q]
  }

  function Here(t: Trie, node: Path): set<Word>
  {
    if node in t.words then {t.words[node]} else {}
  }

  /** `Walk` satisfies the source's recursion: the node's own word, then the
      walks of its children. */
  lemma WalkUnfold(t: Trie, node: Path, w: Word)
    requires Valid(t)
    ensures w in Walk(t, node) <==>
      w in Here(t, node) || exists c :: node + [c] in t.nodes && w in Walk(t, node + [c])
  {
    if w in Walk(t, node) && w !in Here(t, node) {
      var q :| q in t.words && IsPrefix(node, q) && t.words[q] == w;
      assert q != node;
      var c := q[|node|];
      assert q[..|node| + 1] == node + [c];
      PrefixClosed(t, q, |node| + 1);
      assert IsPrefix(node + [c], q);
    }
    if exists c :: node + [c] in t.nodes && w in Walk(t, node + [c]) {
      var c :| node + [c] in t.nodes && w in Walk(t, node + [c]);
      var q :| q in t.words && IsPrefix(node + [c], q) && t.words[q] == w;
      assert q[..|node|] == (node + [c])[..|node|] == node;
    }
  }

  /** `WalkOfSize` satisfies the source's recursion: at size 0 the node's own
      word, at a positive size the children's walks one size smaller, and
      nothing at a negative size. */
  lemma WalkOfSizeUnfold(t: Trie, node: Path, n: int, w: Word)
    requires Valid(t)
    ensures n < 0 ==> w !in WalkOfSize(t, node, n)
    ensures n == 0 ==> (w in WalkOfSize(t, node, n) <==> w in Here(t, node))
    ensures n > 0 ==> (w in WalkOfSize(t, node, n) <==>
      exists c :: node + [c] in t.nodes && w in WalkOfSize(t, node + [c], n - 1))
  {
    if n == 0 {
      WalkOfSizeHere(t, node, w);
    }
    if n > 0 && w in WalkOfSize(t, node, n) {
      WalkOfSizeDown(t, node, n, w);
    }
    if n > 0 && exists c :: node + [c] in t.nodes && w in WalkOfSize(t, node + [c], n - 1) {
      var c :| node + [c] in t.nodes && w in WalkOfSize(t, node + [c], n - 1);
      WalkOfSizeUp(t, node, c, n, w);
    }
  }

  lemma WalkOfSizeHere(t: Trie, node: Path, w: Word)
    ensures w in WalkOfSize(t, node, 0) <==> w in Here(t, node)
  {
    if w in WalkOfSize(t, node, 0) {
      var q :| q in t.words && IsPrefix(node, q) && |q| == |node| + 0 && t.words[q] == w;
      assert q == node;
    }
    if w in Here(t, node) {
      assert IsPrefix(node, node);
    }
  }

  /** A word `n` levels below `node` is `n - 1` levels below a child. */
  lemma WalkOfSizeDown(t: Trie, node: Path, n: int, w: Word)
    requires Valid(t) && n > 0 && w in WalkOfSize(t, node, n)
    ensures exists c :: node + [c] in t.nodes && w in WalkOfSize(t, node + [c], n - 1)
  {
    var q :| q in t.words && IsPrefix(node, q) && |q| == |node| + n && t.words[q] == w;
    var c := q[|node|];
    assert q[..|node| + 1] == node + [c];
    PrefixClosed(t, q, |node| + 1);
    assert IsPrefix(node + [c], q);
    assert w in WalkOfSize(t, node + [c], n - 1);
  }

  /** A word `n - 1` levels below a child is `n` levels below `node`. */
  lemma WalkOfSizeUp(t: Trie, node: Path, c: Rune, n: int, w: Word)
    requires w in WalkOfSize(t, node + [c], n - 1)
    ensures w in WalkOfSize(t, node, n)
  {
    var q :| q in t.words && IsPrefix(node + [c], q) && |q| == |node + [c]| + (n - 1) && t.words[q] == w;
    assert q[..|node|] == (node + [c])[..|node|] == node;
    assert IsPrefix(node, q);
  }

  /** The whole walk is the union of the walks of every size. */
  lemma WalkIsAllSizes(t: Trie, node: Path, w: Word)
    ensures w in Walk(t, node) <==> exists n :: 0 <= n && w in WalkOfSize(t, node, n)
  {
    if w in Walk(t, node) {
      var q :| q in t.words && IsPrefix(node, q) && t.words[q] == w;
      assert w in WalkOfSize(t, node, |q| - |node|);
    }
  }
}
