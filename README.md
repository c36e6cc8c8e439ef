# babble `words` in Dafny

A model of the `words` package of babble, with proofs. The package is a morphological tokenizer for French and English text. It is made of:

- A lexicon trie keyed by Unicode code points (`WordLetter`, `Dictionary`). Each node may carry a `Word`: an ordered, duplicate-free list of 8-byte `WordVariant` readings (tag, language, flags, subcategory, person, gender, number, tense).
- A little-endian binary dump and load of the lexicon, one record per stored word.
- The DELA decoder, which maps tag names and feature name/value pairs of the French/English dictionaries onto readings.
- A tokenizer, in four stages:
  - it cuts the text at punctuation and spaces;
  - it classifies each span by lexicon lookup, then by number, time, date, temperature and URL patterns;
  - it merges neighbouring tokens into multi-word lexicon entries;
  - it groups the tokens into sentences, separators, fragments and parenthetical asides.
- A small phrase matcher over tag sequences.
- An HTML text and link extractor.

## Modules

| file | module | what it holds |
|---|---|---|
| `wrappers.dfy` | `Wrappers` | `Option`, `Result`, `Max` |
| `utf8.dfy` | `Utf8` | Go's `utf8.DecodeRuneInString`/`EncodeRune` on bytes, `Runes`, and round trips |
| `word.dfy` | `Morphology` | `WordVariant`, `Word`, `Equals`, `Language`, `Tagged`, `IsPunct`, `VariantsByTag`, `Filter`, `AddVariants` |
| `word_codec.dfy` | `WordCodec` | `Word.Write`/`Word.Read`: the record layout, int32 wrap-around, and the read-back proofs |
| `wordletter.dfy` | `WordLetter` | The trie as a value: `AddWord`, `FindWord`, `FindPath`, `FindLonguestWord`, `GetWord`, `Walk`, `WalkOfSize` |
| `strings.dfy` | `Strings` | `CountError`, `ReplaceAtPos` |
| `lexicon.dfy` | `Lexicon` | The `Dictionary` class with its two aggregates. Fuzzy matching, completion, and `WriteBinary`/`ReadBinary` with the dump/load round trip |
| `dela.dfy` | `Dela` | `Inflected.GetVariant` and the loop of `WordList.Read` |
| `tokens.dfy` | `Tokens` | `Token`, the tag predicates, the classifiers, `TokenizeFindWord`, `TokenizeBuildToken`, `TokenizeAddToken` |
| `tokenizer.dfy` | `Tokenizer` | The primary split loop of `Tokenize` |
| `compound.dfy` | `Compound` | `TokenizeCompoundToken` |
| `sentences.dfy` | `Sentences` | `TokenizeGetSentenceType`, `TokenizeSentence` |
| `grammar.dfy` | `Phrases` | `GrammarNew`, `Grammar.MatchDef`, `Grammar.Match` |
| `html.dfy` | `Html` | `HTMLGetTagName`, `HTMLGetLink`, `HTMLUnescapeString`, `HTMLProcessTag`, `HTMLProcessTags` |

### Representation

- **Text.** A Go string is a `seq<byte>` (`Bytes`). UTF-8 decoding follows Go exactly:
  - an invalid or truncated sequence decodes to U+FFFD of width 1;
  - the empty string decodes to U+FFFD of width 0;
  - `Runes(s)` is the rune sequence a `for range` loop sees.
- **Trie.** The trie is a value `Trie(nodes, words)`.
  - A node is named by its rune path from the root: `Children` maps become the set of paths, and `Parent` links become path prefixes.
  - A word's `LastLetter` is the path it is stored under.
  - `Dictionary` is a class with fields `root`, `maxWordLen` and `maxTokens` that its methods update. `State()` reads them as a value for specifications.
- **Library calls.**
  - The Unicode category tests and `strings.ToLower` are fields of a `Unicode` context. The compiled regular expressions are the `Finder` functions of a `Patterns` context; each returns the match index pairs.
  - `html.UnescapeString` and the two HTML regular expressions are parameters.
  - The `addWord` callback of `WordList.Read` is a function parameter. The model returns the list of calls made.
- **Panics.** Each becomes an error result:
  - an unknown DELA name or value;
  - `CountError` reading past the end of a shorter candidate in `FindAlternatives`;
  - a zero-length spelling in `ReadBinary` when the root has no U+FFFD child (a nil node dereference);
  - a negative spelling length in a dump record, where `make` is given a negative size: the read fails with `NegativeLength`, which `ReadBinary` reports as an ordinary load error.

### Where the code's behaviour may surprise (the model follows the code)

- The primary split does not always flush the final run. It is flushed only when the last rune is one byte long, because the flush test is `i == len(content)-1`. `Tokenizer.TrailingRunDropped` shows a text ending in "é" losing its last run.
- On `(`, `TokenizeSentence` jumps to the last `)` of the remaining tokens, not to the balanced one.
- The trailing group of `TokenizeSentence` is typed `NOSENTENCE` or `PARENTHESIS`, never `SENTENCE`. It is flushed only when it has at least two tokens.
- `MaxWordLen` counts bytes, not code points.
- A dump truncated exactly at a field boundary inside a record does not raise an error. `binary.Read` reports plain `io.EOF` there, which `ReadBinary` takes as a clean end (`WordCodec.TruncatedAfterCount`).
- `FindPath("")` is nil, not the root.
- `MatchDef` always returns a construct: `Name` 0 and no tokens when nothing matched.
- `Filter`'s subcategory test is kept as written. An unset query subcategory demands an unset reading subcategory; a set one demands nothing.

## Model

Several reference functions carry no contract of their own and have no row: `WordLetter.AddWord`, `WordLetter.Walk`, `WordLetter.WalkOfSize`, `WordLetter.Spelling`, `Lexicon.AddToState` and `Lexicon.Alternatives`. The lemma and method rows that cite the same lines state their properties: `AddWordEffect`, `AddThenFind`, `WalkUnfold`, `WalkOfSizeUnfold`, `WalkIsAllSizes`, `GetWord`, `SpellingRoundTrip`, `AddToStateValid`, `AddToStateBounded` and `Dictionary.FindAlternatives`.

| member | source | states |
|---|---|---|
| Morphology.IsPunct | words/word.go:170-175 | a punctuation word has exactly one reading, so it carries exactly one tag, and that tag lies in the punctuation and symbol range |
| Morphology.MergePunct | words/word.go:170-175 | adding readings to a stored word keeps it a punctuation word iff it was one and every added reading was already stored |
| Morphology.Equals | words/word.go:195-221 | `Equals` holds iff the two readings agree on all eight fields |
| Morphology.EqualsIsEquivalence | words/word.go:195-221 | `Equals` is reflexive, symmetric and transitive |
| Morphology.Language | words/word.go:177-184 | true iff some reading has language `lang` |
| Morphology.Tagged | words/word.go:186-193 | true iff some reading has tag `tag` |
| Morphology.VariantsByTag | words/word.go:271-280 | exactly the readings with both the tag and the language, as many as there are, in their original order (a subsequence) |
| Morphology.AnyAccepted | words/word.go:223-254 | the scan over readings is true iff some reading passes the per-reading test |
| Morphology.Filter | words/word.go:223-254 | true iff some reading is selected by the query. Selection means: the tag and language match; a set number or gender must match; for a verb query a set person or tense must match; and an unset query subcategory requires an unset reading subcategory |
| Morphology.MergeVariants | words/word.go:256-269 | the reference union: the old list is a prefix of the result, and an element is in the result iff it is in either input |
| Morphology.MergeKeepsDistinct | words/word.go:256-269 | merging into a duplicate-free list keeps it duplicate-free |
| Morphology.MergeAddsOnlyNew | words/word.go:256-269 | the readings appended by a merge are pairwise distinct and were not already stored |
| Morphology.MergeAbsorbed | words/word.go:256-269 | merging readings that are all already stored changes nothing |
| Morphology.MergeIdempotent | words/word.go:256-269 | merging the same readings a second time changes nothing |
| Morphology.ContainsEqual | words/word.go:259-264 | the inner scan finds an `Equals` reading iff the reading is stored |
| Morphology.AddVariants | words/word.go:256-269 | the loop keeps the word's node and leaves exactly the reference union as its readings |
| WordCodec.Int32 | words/word.go:286-290 | `int32(x)`: in the int32 range, congruent to `x` modulo 2^32, and `x` itself when `x` fits |
| WordCodec.LittleEndianRoundTrip | words/word.go:286-291 | decoding the n-byte little-endian encoding of m < 256^n gives m |
| WordCodec.Int32RoundTrip | words/word.go:306-322 | an int32 written and read back is unchanged |
| WordCodec.DecodeVariant | words/word.go:323-358 | the eight bytes of a reading decode to the reading they encode |
| WordCodec.VariantRoundTrip | words/word.go:292-300 | a written reading reads back unchanged, field by field in the written order |
| WordCodec.RecordSize | words/word.go:282-303 | a record is 8 + len(spelling) + 8·count bytes |
| WordCodec.ReadField | words/word.go:305-360 | a field read succeeds iff the bytes are there and returns them; it reports EOF iff the stream is already exhausted |
| WordCodec.ReadVariants | words/word.go:323-358 | reading the readings stays inside the stream; its only failure is a short stream |
| WordCodec.ReadRecord | words/word.go:305-360 | a record that reads ends at least 8 bytes later, inside the stream |
| WordCodec.ReadEncodedVariants | words/word.go:323-358 | the encoded readings read back in order and end after 8·count bytes |
| WordCodec.RecordRoundTrip | words/word.go:282-360 | a written record, wherever it sits in a stream, reads back with the same spelling and readings and ends right after itself |
| WordCodec.ReadAtEnd | words/word.go:306-310 | reading at the end of the stream reports `io.EOF` |
| WordCodec.TruncatedAfterCount | words/word.go:318-358 | a record cut right after its variant count reads as `io.EOF` |
| WordCodec.Write | words/word.go:282-303 | the bytes written are the record of the word's spelling and readings |
| WordCodec.ReadReadings | words/word.go:323-358 | the reading loop returns what the reference reader returns |
| WordCodec.Read | words/word.go:305-360 | the method returns what the reference reader returns, errors included |
| Utf8.DecodeRune | words/tokenizer.go:361 | empty input gives (U+FFFD, 0); otherwise the width is 1 to 4 and at most the input's length; the rune is always valid |
| Utf8.EncodeRune | words/wordletter.go:99-100 | 1 to 4 bytes |
| Utf8.DecodeEncode | words/wordletter.go:96-104 | decoding the encoding of a valid rune, followed by anything, gives the rune and its width |
| Utf8.RunesOfEncodeAll | words/wordletter.go:96-104 | decoding the encoding of valid runes gives the runes back |
| Utf8.EncodeAllAppend | words/wordletter.go:101 | encoding distributes over concatenation |
| Utf8.RunesValid | words/wordletter.go:20 | every decoded rune is valid |
| Utf8.RunesAppend | words/wordletter.go:15-40 | decoding an encoding followed by more bytes gives the runes and then the rest's runes |
| Utf8.RunesLength | words/wordletter.go:47-55 | a string has no more runes than bytes |
| Utf8.RunesFrom | words/wordletter.go:47-48 | the runes from offset i are the rune decoded there followed by the runes after its width |
| WordLetter.EmptyValid | words/wordletter.go:8-13 | a fresh root is a well-formed trie |
| WordLetter.AddWordAtEffect | words/wordletter.go:15-40 | the recursion from a node yields a valid trie. It adds exactly the missing prefixes of the path and installs or merges the word at the path's end only |
| WordLetter.AddWordEffect | words/wordletter.go:15-40 | inserting a non-empty spelling keeps the trie valid, adds exactly the prefixes of its rune path, and changes only the word at that path |
| WordLetter.AddEmptyEffect | words/wordletter.go:20-36 | the empty spelling lands on the root's existing U+FFFD child |
| WordLetter.AddThenFind | words/wordletter.go:15-57 | after `AddWord(s, w)` with non-empty s, `FindWord(s)` gives (w, or the old word with w's readings merged, true). Every other spelling's word is as before |
| WordLetter.FindWord | words/wordletter.go:42-57 | the path flag holds iff the rune path exists; the word is the one at its end, if any |
| WordLetter.FindPath | words/wordletter.go:59-74 | a node is returned iff the spelling is non-empty and its path exists, and it is that path |
| WordLetter.LongestPrefixWordMeaning | words/wordletter.go:76-94 | the reference longest-prefix word is none iff no prefix of length ≥ 1 holds a word. Otherwise it is the word at the longest such prefix |
| WordLetter.NoLongerWord | words/wordletter.go:88-90 | once a rune has no child, no longer prefix is a node, so stopping there loses nothing |
| WordLetter.FindLonguestWord | words/wordletter.go:76-94 | the loop returns the word at the longest prefix of the spelling that holds one |
| WordLetter.GetWord | words/wordletter.go:96-104 | the parent walk builds the spelling of the node's path, stopping at a U+0000 letter |
| WordLetter.SpellingIsEncoding | words/wordletter.go:96-104 | without U+0000 runes the spelling is the UTF-8 encoding of the path |
| WordLetter.SpellingRoundTrip | words/wordletter.go:96-104 | the spelling of a node decodes back to its path |
| WordLetter.FindThenGetWord | words/wordletter.go:96-104 | a word found for valid UTF-8 `s` (no U+0000) points at the node of `s`, and `GetWord` on it gives `s` back |
| WordLetter.WalkUnfold | words/wordletter.go:106-122 | the walk set satisfies the source's recursion: the node's own word plus the walks of its children |
| WordLetter.WalkOfSizeUnfold | words/wordletter.go:124-141 | the depth-n walk satisfies the recursion: nothing for n < 0, the node's word for n = 0, the children's depth n−1 walks for n > 0 |
| WordLetter.WalkIsAllSizes | words/wordletter.go:106-141 | a word is in the whole walk iff it is in the walk of some depth |
| Strings.Mismatches | words/strings.go:27-35 | the reference count of differing bytes among the first n is at most n |
| Strings.CountError | words/strings.go:27-35 | the loop counts exactly the positions below len(correct) where the bytes differ |
| Strings.MismatchesZero | words/strings.go:27-35 | no errors iff the compared prefixes are equal |
| Strings.NoErrorAgainstItself | words/strings.go:27-35 | `CountError(s, s) = 0` |
| Strings.MismatchesInWindow | words/strings.go:27-35 | when two strings differ only inside a window, the errors are bounded by the window's width |
| Strings.RuneBuffer | words/strings.go:16-18 | the 4-byte buffer begins with the rune's UTF-8 encoding |
| Strings.ReplaceAtPos | words/strings.go:7-25 | defined exactly within Go's slice bounds. The bytes before a positive `pos` survive, and the result is at most `w` bytes longer than the word |
| Strings.ReplaceInside | words/strings.go:7-25 | the length is preserved. Bytes before pos and after pos+w are unchanged, and the middle is the buffer's first w bytes |
| Strings.ReplaceCostsAtMostWidth | words/strings.go:7-35 | a replacement of width w costs at most w errors |
| Strings.ReplaceWithSame | words/strings.go:7-25 | replacing an ASCII byte by itself changes nothing |
| Strings.ReplaceExamples | words/strings_test.go:9-22 | "tast", "tess" and "aest" all become "test" |
| Lexicon.CountSpaces | words/dictionary.go:106 | the space count is at most the length |
| Lexicon.AddToStateValid | words/dictionary.go:103-107 | insertion keeps the dictionary valid, never lowers `MaxWordLen` or `MaxTokens`, and makes them bound the new spelling's byte length and space count |
| Lexicon.AddToStateBounded | words/dictionary.go:103-107 | every node stays at most `MaxWordLen` runes deep |
| Lexicon.BuiltinsTable | words/dictionary.go:87-100 | the builtin list is the fourteen (spelling, tag) pairs of `AddBuiltin` |
| Lexicon.BuiltinsDistinct | words/dictionary.go:87-100 | the fourteen builtin spellings have distinct rune paths |
| Lexicon.AddTaggedEffect | words/dictionary.go:75-101 | the `AddWordWithTag` calls from position k add exactly those spellings, each with its single tag reading merged in, and change no other word |
| Lexicon.TaggedFound | words/dictionary.go:75-101 | after tagging, each spelling is found with the reading that carries only its tag. A spelling that had no word before becomes a punctuation word |
| Lexicon.BuiltinsAdded | words/dictionary.go:85-101 | `AddBuiltin` keeps the dictionary valid. Every builtin spelling is found with its tag, a newly added one is a punctuation word, and every other word is unchanged |
| Lexicon.CompletionsMeaning | words/dictionary.go:144-182 | a word is a completion iff the prefix is non-empty, the word passes the filter, and it is stored at a node extending the prefix's runes |
| Lexicon.WalkedWordsPlaced | words/dictionary.go:131 | every walked word knows its node, so its spelling can be rebuilt |
| Lexicon.BinaryRoundTrip | words/dictionary.go:184-232 | loading a dump, written in any walk order, into an empty dictionary ends cleanly and rebuilds exactly the same words at the same nodes |
| Lexicon.BinaryRoundTripFinds | words/dictionary.go:184-232 | after the round trip every dumped spelling is found with its word |
| Lexicon.LoadRecords | words/dictionary.go:216-230 | loading the records of distinct, not yet loaded words of a lexicon ends cleanly and adds exactly those words |
| Lexicon.LoadValid | words/dictionary.go:216-230 | loading keeps the dictionary valid |
| Lexicon.Dictionary.constructor | words/dictionary.go:12-16 | a zero dictionary: empty trie, both aggregates 0 |
| Lexicon.Dictionary.AddWord | words/dictionary.go:103-107 | the trie gets the insertion, `MaxWordLen` becomes max(old, byte length) and `MaxTokens` becomes max(old, number of spaces); validity is kept |
| Lexicon.Dictionary.AddWordWithTag | words/dictionary.go:75-83 | inserts the spelling with one reading whose only non-zero field is the tag |
| Lexicon.Dictionary.AddBuiltin | words/dictionary.go:85-101 | the state is that of the fourteen `AddWordWithTag` calls in order |
| Lexicon.Dictionary.FindWord | words/dictionary.go:109-111 | what the root's `FindWord` returns |
| Lexicon.Dictionary.FindLonguestWord | words/dictionary.go:113-115 | the word at the longest prefix of the spelling that holds one |
| Lexicon.Dictionary.FindPath | words/dictionary.go:117-119 | the spelling's node iff the spelling is non-empty and its path exists |
| Lexicon.Dictionary.Walk | words/dictionary.go:163-167 | exactly the stored words |
| Lexicon.Dictionary.WalkOfSize | words/dictionary.go:169-173 | exactly the stored words whose spelling has `size` runes |
| Lexicon.Dictionary.WalkFromPath | words/dictionary.go:175-182 | the words under the spelling's node, none when `FindPath` finds none |
| Lexicon.Dictionary.AutoComplete | words/dictionary.go:144-161 | the completions: the words under the node that pass the filter, if one is given |
| Lexicon.Dictionary.FindAlternatives | words/dictionary.go:121-142 | it panics iff a candidate with as many runes is shorter in bytes. Otherwise the result is exactly the candidates within `maxerror` byte errors with a reading in `lang` |
| Lexicon.Dictionary.WriteBinary | words/dictionary.go:184-207 | the output is one record per stored word, each once, in the order the walk delivers them |
| Lexicon.Dictionary.ReadBinary | words/dictionary.go:209-232 | the new state and the error are those of the reference loader. It inserts records until a clean `io.EOF`, and stops on any other error keeping what was inserted |
| Dela.TagCode | words/dela.go:74-181 | a known tag name maps to a tag in the enumeration; the code is 0 exactly for "" |
| Dela.TagName | words/dela.go:74-181 | the inverse table: "" exactly for tag 0 |
| Dela.TagCodeInjective | words/dela.go:74-181 | each known tag name maps to a code that maps back to that name, so distinct names get distinct codes |
| Dela.Or | words/dela.go:187 | the OR of two flag bytes has every bit of both |
| Dela.Apply | words/dela.go:182-304 | a feature effect leaves tag and language alone. A flag effect only ORs its bit in; an assignment sets its field and leaves every other field alone |
| Dela.EntryEffect | words/dela.go:182-250 | entry features only OR a flag bit or set the subcategory. An unknown name fails with that name, an unknown value with that value |
| Dela.InflEffect | words/dela.go:251-304 | inflection features set gender (male/female), number (singular/plural), person (1–3) or tense (ind…inf). Unknown names or values fail with the name or value |
| Dela.ApplyFeats | words/dela.go:182-304 | the feature loop succeeds iff every feature decodes, then keeps tag and language. On failure it reports the first failing feature's name or value |
| Dela.ApplyEach | words/dela.go:182-304 | the loop returns what the reference fold returns |
| Dela.GetVariant | words/dela.go:70-306 | the method returns the reference reading, including the error cases |
| Dela.LastWins | words/dela.go:251-304 | a field no feature sets keeps its start value. A field some feature sets holds the value of the last feature that sets it |
| Dela.FlagsAccumulate | words/dela.go:182-250 | flag bits are never cleared; every flag feature's bit ends up set; with no flag feature the flags are unchanged |
| Dela.VariantMeaning | words/dela.go:70-306 | the reading fails iff the tag name or some feature is unknown. Otherwise it has the tag's code and `lang`, and each field is the last value set for it (NOGENDER by default) |
| Dela.VariantFlags | words/dela.go:182-250 | every flag an entry feature names is set; with no flag feature the flags are 0 |
| Dela.Unescape | words/dela.go:51 | replacing `\-` never lengthens the form |
| Dela.UnescapeEscape | words/dela.go:51 | unescaping an escaped form gives the form back |
| Dela.UnescapePlain | words/dela.go:51 | a form without backslashes is unchanged |
| Dela.ReadItemsMeaning | words/dela.go:45-58 | the reference loop makes at most one call per inflection. Each call is the unescaped form with a word of exactly one reading. It stops at the first failing call |
| Dela.ReadItemsExplained | words/dela.go:45-58 | the calls match the inflections in order, every call but a last failing one succeeds, and the end is explained by the first failure, if any |
| Dela.Pairs | words/dela.go:46 | one (entry, inflection) pair per inflection of the entry, in order |
| Dela.ReadEntry | words/dela.go:46-56 | the inner loop over one entry's inflections advances the reference loop by exactly the calls it made, or ends it |
| Dela.Read | words/dela.go:45-58 | the calls made and how the loop ends are those of the reference loop over all inflections in order |
| Tokens.MatchOnly | words/tokenizer.go:203-213 | true iff the pattern finds exactly one match, and it spans the whole string |
| Tokens.IsURL | words/tokenizer.go:227-234 | true for any string starting with '@'; otherwise true iff the URL pattern matches the whole string |
| Tokens.IsWord | words/tokenizer.go:236-248 | true iff every rune is a letter or '-' and no rune is upper case |
| Tokens.IsProperNoun | words/tokenizer.go:250-268 | true iff the first rune is an upper-case letter, every rune is a letter or '-', and some rune is neither upper case nor '-' |
| Tokens.FindWord | words/tokenizer.go:146-157 | the exact lookup, unless it finds no word and the first rune is upper case, in which case the lookup of the lower-cased string |
| Tokens.FirstAcceptingCases | words/tokenizer.go:288-301 | a class is chosen iff its classifier accepts and every earlier class in the order number, time, date, temperature, URL rejects |
| Tokens.BuildToken | words/tokenizer.go:270-311 | the token spans [start, end). The lexicon is consulted only while searching, and the search flag is cleared iff the path is absent. `IsUpper` is the first rune's case. A flag is set iff no word was found and its classifier is the first to accept |
| Tokens.FlagsExclusive | words/tokenizer.go:270-311 | at most one classification flag is set, and none when a word was found |
| Tokens.AddToken | words/tokenizer.go:313-322 | an empty span adds nothing; any other span appends its built token |
| Tokenizer.Steps | words/tokenizer.go:360-361 | the decoding steps tile the text from i to its end |
| Tokenizer.CutShape | words/tokenizer.go:358-373 | the spans emitted lie inside the text, are adjacent, and start at the pending run's start |
| Tokenizer.Split | words/tokenizer.go:358-373 | the spans of the primary pass lie inside the text and are adjacent and increasing |
| Tokenizer.SeparatorKept | words/tokenizer.go:362-368 | every punctuation or space rune other than '&' is a one-rune span of its own |
| Tokenizer.SeparatorsNotInside | words/tokenizer.go:362-368 | no span straddles a separator rune |
| Tokenizer.SeparatorsAlone | words/tokenizer.go:362-368 | a span starting at a separator is exactly that rune |
| Tokenizer.CutCovers | words/tokenizer.go:370-372 | when the last byte begins a step, the spans cover the rest of the text without gaps |
| Tokenizer.AsciiEndCovered | words/tokenizer.go:358-373 | a text ending in a one-byte rune is covered from 0 to its end |
| Tokenizer.TrailingRunDropped | words/tokenizer.go:370 | "aé" without separators gives no span: a final run whose last rune is multi-byte is not flushed |
| Tokenizer.ContiguousOrdered | words/tokenizer.go:358-373 | adjacent spans are ordered: each ends before any later one starts |
| Tokenizer.BuildJoined | words/tokenizer.go:313-322 | the tokens built from adjacent spans are adjacent |
| Tokenizer.Tokenized | words/tokenizer.go:358-373 | the primary pass gives one token per span of the split. Each token starts inside the text, and each ends where the next one starts |
| Tokenizer.Emit | words/tokenizer.go:313-322 | an empty span adds nothing; a non-empty one appends its token |
| Tokenizer.EmitSeparator | words/tokenizer.go:363-369 | emitting the pending run and the separator keeps the tokens equal to the spans, whose pending cut matches the reference |
| Tokenizer.Visit | words/tokenizer.go:361-372 | one turn of the loop advances by the decoded width and keeps the emitted spans plus the reference cut from the new cursors unchanged |
| Tokenizer.Advance | words/tokenizer.go:360-373 | one turn keeps the loop invariant and advances the cursor |
| Tokenizer.DecodeLoop | words/tokenizer.go:360-373 | the loop returns the tokens of exactly the reference spans |
| Tokenizer.Tokenize | words/tokenizer.go:358-378 | the primary pass's tokens, then compounded when asked |
| Compound.Longest | words/tokenizer.go:335-343 | the window's best is a valid merge of tokens i..e, and never shorter than the best before it |
| Compound.Found | words/tokenizer.go:330-343 | a merge found at i joins tokens i..e into a valid token spanning them. It is found only when token i's first byte is neither a space nor a digit |
| Compound.Finding | words/tokenizer.go:324-356 | the merge found at every position, each pointing ahead |
| Compound.MergeShrinks | words/tokenizer.go:324-356 | merging never makes the list longer |
| Compound.CompoundShrinks | words/tokenizer.go:324-356 | compounding never makes the list longer |
| Compound.MergeOrigin | words/tokenizer.go:344-353 | every output token is an input token or a merge found at some position |
| Compound.CompoundMerges | words/tokenizer.go:330-353 | every output token is an input token or a valid merge of inputs a..e starting a compound |
| Compound.MergeNothing | words/tokenizer.go:344-347 | with no merge anywhere the tokens pass through unchanged |
| Compound.NoMergeWithoutRoom | words/tokenizer.go:336 | with `MaxTokens` < 1 compounding changes nothing |
| Compound.MergeCovers | words/tokenizer.go:324-356 | the output tokens are adjacent and cover exactly the inputs' bytes, from the first start to the last end |
| Compound.CompoundCovers | words/tokenizer.go:324-356 | the compounded tokens are adjacent and cover exactly the same bytes as the input tokens, in order |
| Compound.Probe | words/tokenizer.go:336-342 | one turn of the window loop keeps the search invariant |
| Compound.LongestCompound | words/tokenizer.go:330-343 | the window loop finds the reference longest merge, or none |
| Compound.CompoundToken | words/tokenizer.go:324-356 | the loop returns exactly the reference compounding |
| Sentences.FirstNonSpace | words/tokenizer.go:407-414 | the first non-space token from k, or the end, with only spaces before it |
| Sentences.LastEndParenthesis | words/tokenizer.go:426-431 | the last ')' from k on, or the cursor when there is none |
| Sentences.Step | words/tokenizer.go:393-448 | one turn moves `i` forward and keeps `j` ≤ `i` |
| Sentences.StepShape | words/tokenizer.go:393-448 | a turn emits at most one group. The group is non-empty, lies at or after `j`, ends before the next pending group unless the loop ends, and has the shape its type says |
| Sentences.ScanShape | words/tokenizer.go:387-450 | every group is non-empty, inside the tokens, and in left-to-right order without overlap. A sentence ends at '.', '!' or '?' and does not open with '('. A separator ends in a space followed by a non-space or the end. An aside or trailing fragment has at least two tokens at the end of the list; an aside runs from '(' to ')'. Another fragment stops before a tab or ')' |
| Sentences.SkipSpaces | words/tokenizer.go:407-414 | the inner loop stops at the first non-space token |
| Sentences.LastClose | words/tokenizer.go:426-431 | the inner loop ends on the last ')' |
| Sentences.Segment | words/tokenizer.go:393-448 | the loop emits exactly the reference groups |
| Sentences.TokenizeSentence | words/tokenizer.go:387-450 | the groups of the compounded tokens of the text |
| Phrases.NonSpace | words/grammar.go:46-49 | the non-space tokens before n, none of them a space |
| Phrases.Run | words/grammar.go:46-66 | the reference loop: no match gives the empty construct and 0. A match ending at token tok gives the definition's name, tokens[0:tok] and tok+1 |
| Phrases.NonSpaceGrows | words/grammar.go:46-49 | the non-space tokens of a longer prefix extend those of a shorter one |
| Phrases.RunSound | words/grammar.go:46-66 | a match ending at n means the non-space tokens before n carry the definition's tags in order, with token n carrying the last |
| Phrases.RunComplete | words/grammar.go:46-66 | tokens that fit the definition up to n are matched, ending at n |
| Phrases.MatchedFits | words/grammar.go:38-67 | `MatchDef` reports next = 0 with the empty construct, or a fit of the tags in order with spaces skipped and the construct of the tokens before the last matched one. A match also implies that no tag of the definition is SPACE and every non-space token up to the end of the match has a word |
| Phrases.FitsMatched | words/grammar.go:38-67 | conversely, tokens that fit up to n are matched with construct tokens[0:n] and next n+1 |
| Phrases.MatchAll | words/grammar.go:69-77 | one construct per definition, in definition order, whether matched or not |
| Phrases.Grammar.constructor | words/grammar.go:32-36 | a new grammar has no definitions |
| Phrases.Grammar.MatchDef | words/grammar.go:38-67 | the loop returns exactly the reference result |
| Phrases.Grammar.Match | words/grammar.go:69-77 | the loop returns one construct per definition, in order |
| Phrases.NewGrammarMatchesNothing | words/grammar.go:32-36 | `Match` on a new grammar returns nothing |
| Html.FirstSpace | words/html.go:16-21 | the first space from i, or the end, with no space before it |
| Html.TagName | words/html.go:10-24 | the name has no space |
| Html.TagNameOfPlain | words/html.go:10-24 | `<name>` gives the name, closing iff it ends with '/' |
| Html.TagNameOfAttributed | words/html.go:10-24 | `<name attrs>` gives the name, closing iff the attributes end with '/' |
| Html.TagNameOfClosing | words/html.go:10-24 | `</name>` gives the name, closing |
| Html.GetTagName | words/html.go:10-24 | the loop returns the reference name and closing flag |
| Html.IndexFrom | words/html.go:29-31 | `strings.Index`: the first occurrence from i, or −1 when there is none |
| Html.LinkOf | words/html.go:26-39 | the text between the first `href="` and the next quote is returned |
| Html.NoHrefNoLink | words/html.go:26-39 | without `href="` the link is empty |
| Html.UnescapeString | words/html.go:41-51 | "&nbsp;" gives " ", "\n" and "\r" give "", anything else goes to the library |
| Html.ReplaceAllSame | words/html.go:56 | replacing matches by the identity leaves the text unchanged |
| Html.Tag | words/html.go:73 | every tag the finder locates has a tag's shape |
| Html.Close | words/html.go:89-95 | the first later closing tag with that name, or the last index, with no such closing tag in between |
| Html.LinksFromAnchors | words/html.go:77-81 | every link comes from the `href` of an "a" tag |
| Html.LinksInOrder | words/html.go:71-81 | when no script or object hides anything, the links are the non-empty links of the "a" tags, in tag order, the last tag excluded |
| Html.ScriptHidesLinks | words/html.go:86-96 | an opening script or object skips every link up to its closing tag |
| Html.LastTagUnread | words/html.go:71 | the end of the last tag is never read |
| Html.ScanSame | words/html.go:62-104 | the result depends only on the tags' text and the gaps between them |
| Html.SkipTo | words/html.go:89-95 | the skip loop stops at the reference closing tag |
| Html.ProcessTag | words/html.go:53-60 | the buffer gets exactly the unescaped gap after tag i |
| Html.Visit | words/html.go:73-100 | one turn appends the reference text and links and moves to the reference next tag |
| Html.ProcessTags | words/html.go:62-104 | the loop's text and links are the reference scan's |

## Left out

- Goroutines, channels and `sync.WaitGroup` in the walks: `Walk`, `WalkOfSize` and the `Dictionary` loops that drain them are set comprehensions with no order. Result lists built from a walk (`FindAlternatives`, `AutoComplete`) are sets, because the source's order is not determined.
- File I/O in `WriteBinary`/`ReadBinary` (`os.Create`, `os.Open`, `bufio`, the unclosed file). Only the byte stream and the record loops are modelled.
- `ReadXML`, `ReadLanguage`, `ioutil.ReadFile`, `xml.Unmarshal` and `WordList.Write` in the DELA reader. The reader's input is the already unmarshalled entries.
- The regular-expression engine, Unicode category tables, `strings.ToLower` and `html.UnescapeString`. They are context parameters whose results the model uses but does not define. The patterns compiled in `TokenizeNewContext` are not hand-coded.
- `TokenizeNewContext`, which compiles the patterns and loads `lm/lm.bin`.
- `HTMLParse`, which only runs the tag regular expression. `ProcessTags` takes the tag ranges it would find.
- Formatting and debug output: `Token.String`, `TokenSentence.Content`, `Word.Description`, `Word.String`'s formatting, `TokenizePrintTokens`, and the `fmt.Printf` in `MatchDef`.
- The `lm`, `webcache` and `richard` programs.
- Node identity and aliasing. A word and its node share one path, so two nodes cannot hold the same `*Word`, and the later mutation of a shared `*Word` through `AddVariants` is not modelled.
- Lexicon.Dictionary.AddWord: `math.Max` on `float64` is an integer maximum. Lengths stay far below 2^53, where the two agree.
- Tokenizer.Tokenize: the Go loop is one function. The model runs it as `DecodeLoop`, which calls `Advance` and `Visit` for one turn each.
- WordLetter.GetWord and the binary round trip require spellings without U+0000. `GetWord` stops at a U+0000 letter because the root's letter is 0.
- Lexicon.BinaryRoundTrip and Lexicon.BinaryRoundTripFinds require every spelling and reading count to fit an int32.
- Compound.CompoundToken: every token span must lie inside the text and start with a byte (`Mergeable`). That is what the primary pass produces, and it makes `content[intoks[i].Pos[0]]` safe.
- Lexicon.Dictionary.AddWord and WordLetter.AddWordEffect: the empty spelling is accepted only when the root already has a U+FFFD child. Otherwise the source dereferences a nil node.
