/** The DELA dictionary decoder (words/dela.go): an XML entry names a part of
    speech and carries features; each of its inflected forms becomes one
    `WordVariant` through a closed vocabulary of names and values. A name or
    value outside that vocabulary makes the Go code panic; here it is an
    `Err` carrying the panic's message. */
module Dela {
  import opened Wrappers
  import opened Utf8
  import opened Morphology

  datatype Feat = Feat(name: string, value: string)

  datatype Inflected = Inflected(form: string, feats: seq<Feat>)

  datatype Entry = Entry(base: string, tag: string, feats: seq<Feat>, inflections: seq<Inflected>)

  /** The part-of-speech names of an entry's `pos` element and their tags;
      the empty name is tag 0, every other name is unknown. */
  function TagCode(name: string): (r: Option<byte>)
    ensures r.Some? ==> (r.value == 0 <==> name == "")
    ensures r.Some? ==> r.value <= CR
  {
    match name
    case "noun" => Some(NOUN)
    case "prep" => Some(PREP)
    case "adverb" => Some(ADVERB)
    case "verb" => Some(VERB)
    case "adj" => Some(ADJ)
    case "nominaldet" => Some(NOMINALDET)
    case "prefix" => Some(PREFIX)
    case "GNP" => Some(GNP)
    case "GNPX" => Some(GNPX)
    case "conjs" => Some(CONJS)
    case "X" => Some(X)
    case "PCDN3" => Some(PCDN3)
    case "intj" => Some(INTJ)
    case "GN" => Some(GN)
    case "conjc" => Some(CONJC)
    case "det" => Some(DET)
    case "pronoun" => Some(PRONOUN)
    case "prepadj" => Some(PREPADJ)
    case "prepdet" => Some(PREPDET)
    case "preppro" => Some(PREPPRO)
    case "PRON" => Some(PRON)
    case "XI" => Some(XI)
    case "PART" => Some(PART)
    case "PRED" => Some(PRED)
    case "conj" => Some(CONJ)
    case " Clark.N" => Some(CLARKN)
    case "VA" => Some(VA)
    case "NA" => Some(NA)
    case " Ghery.N" => Some(GHERYN)
    case " G\\. Wells.N" => Some(GWELLSN)
    case " Mayer.N" => Some(MAYERN)
    case "NES" => Some(NES)
    case " Maugham.N" => Some(MAUGHAMN)
    case "ADVA" => Some(ADVA)
    case " C\\. Fields.N" => Some(CFIELDSN)
    case " Hart.N" => Some(HARTN)
    case "abbr" => Some(ABBR)
    case "space" => Some(SPACE)
    case "comma" => Some(COMMA)
    case "dot" => Some(DOT)
    case "colon" => Some(COLON)
    case "questionmark" => Some(QUESTIONMARK)
    case "exclamationmark" => Some(EXCLAMATIONMARK)
    case "beginparenthesis" => Some(BEGINPARENTHESIS)
    case "endparenthesis" => Some(ENDPARENTHESIS)
    case "apos" => Some(APOS)
    case "quotationmark" => Some(QUOTATIONMARK)
    case "beginquotation" => Some(BEGINQUOTATION)
    case "endquotation" => Some(ENDQUOTATION)
    case "dash" => Some(DASH)
    case "tab" => Some(TAB)
    case "" => Some(0)
    case _ => None
  }

  /** The inverse table: the name that decodes to each tag, if any. */
  function TagName(t: byte): (r: Option<string>)
    ensures r.Some? ==> (r.value == "" <==> t == 0)
  {
    match t
    case 1 => Some("noun")
    case 2 => Some("prep")
    case 3 => Some("adverb")
    case 4 => Some("verb")
    case 5 => Some("adj")
    case 6 => Some("nominaldet")
    case 7 => Some("prefix")
    case 8 => Some("GNP")
    case 9 => Some("GNPX")
    case 10 => Some("conjs")
    case 31 => Some("X")
    case 32 => Some("PCDN3")
    case 18 => Some("intj")
    case 12 => Some("GN")
    case 13 => Some("conjc")
    case 19 => Some("det")
    case 14 => Some("pronoun")
    case 15 => Some("prepadj")
    case 16 => Some("prepdet")
    case 17 => Some("preppro")
    case 20 => Some("PRON")
    case 33 => Some("XI")
    case 34 => Some("PART")
    case 35 => Some("PRED")
    case 11 => Some("conj")
    case 23 => Some(" Clark.N")
    case 21 => Some("VA")
    case 22 => Some("NA")
    case 24 => Some(" Ghery.N")
    case 25 => Some(" G\\. Wells.N")
    case 26 => Some(" Mayer.N")
    case 27 => Some("NES")
    case 28 => Some(" Maugham.N")
    case 29 => Some("ADVA")
    case 30 => Some(" C\\. Fields.N")
    case 36 => Some(" Hart.N")
    case 37 => Some("abbr")
    case 47 => Some("space")
    case 48 => Some("comma")
    case 50 => Some("dot")
    case 51 => Some("colon")
    case 53 => Some("questionmark")
    case 52 => Some("exclamationmark")
    case 54 => Some("beginparenthesis")
    case 55 => Some("endparenthesis")
    case 42 => Some("apos")
    case 39 => Some("quotationmark")
    case 40 => Some("beginquotation")
    case 41 => Some("endquotation")
    case 44 => Some("dash")
    case 38 => Some("tab")
    case 0 => Some("")
    case _ => None
  }

  /** No two names of the vocabulary decode to the same tag: a decoded tag
      has exactly one name, the one the inverse table gives. */
  lemma TagCodeInjective(name: string)
    requires TagCode(name).Some?
    ensures TagName(TagCode(name).value) == Some(name)
  {
    match name
    case "noun" =>
    case "prep" =>
    case "adverb" =>
    case "verb" =>
    case "adj" =>
    case "nominaldet" =>
    case "prefix" =>
    case "GNP" =>
    case "GNPX" =>
    case "conjs" =>
    case "X" =>
    case "PCDN3" =>
    case "intj" =>
    case "GN" =>
    case "conjc" =>
    case "det" =>
    case "pronoun" =>
    case "prepadj" =>
    case "prepdet" =>
    case "preppro" =>
    case "PRON" =>
    case "XI" =>
    case "PART" =>
    case "PRED" =>
    case "conj" =>
    case " Clark.N" =>
    case "VA" =>
    case "NA" =>
    case " Ghery.N" =>
    case " G\\. Wells.N" =>
    case " Mayer.N" =>
    case "NES" =>
    case " Maugham.N" =>
    case "ADVA" =>
    case " C\\. Fields.N" =>
    case " Hart.N" =>
    case "abbr" =>
    case "space" =>
    case "comma" =>
    case "dot" =>
    case "colon" =>
    case "questionmark" =>
    case "exclamationmark" =>
    case "beginparenthesis" =>
    case "endparenthesis" =>
    case "apos" =>
    case "quotationmark" =>
    case "beginquotation" =>
    case "endquotation" =>
    case "dash" =>
    case "tab" =>
    case "" =>
  }

  lemma Bv8RoundTrip(x: bv8)
    ensures (x as int) as bv8 == x
  {
  }

  /** Bitwise OR of two flag bytes. */
  function Or(a: byte, b: byte): (r: byte)
    ensures Has(r, a) && Has(r, b)
  {
    var x := (a as bv8) | (b as bv8);
    Bv8RoundTrip(x);
    x as int
  }

  /** Every bit of `bit` is set in `flags`. */
  predicate Has(flags: byte, bit: byte)
  {
    (flags as bv8) & (bit as bv8) == bit as bv8
  }

  lemma HasOr(a: byte, b: byte, c: byte)
    requires Has(a, c)
    ensures Has(Or(a, b), c)
  {
  }

  /** The fields of a variant a feature may set. */
  datatype Field = Subcat | Gender | Number | Person | Tense

  /** What one known feature does to the variant under construction: OR a
      bit into `Flags`, or overwrite one field. */
  datatype Effect = SetFlag(bit: byte) | Assign(field: Field, value: byte)

  function FieldOf(v: WordVariant, f: Field): byte
  {
    match f
    case Subcat => v.subcat
    case Gender => v.gender
    case Number => v.number
    case Person => v.person
    case Tense => v.tense
  }

  function Apply(v: WordVariant, e: Effect): (w: WordVariant)
    ensures w.tag == v.tag && w.language == v.language
    ensures e.SetFlag? ==> w == v.(flags := Or(v.flags, e.bit))
    ensures e.Assign? ==> w.flags == v.flags && FieldOf(w, e.field) == e.value
    ensures e.Assign? ==> forall f :: f != e.field ==> FieldOf(w, f) == FieldOf(v, f)
  {
    match e
    case SetFlag(bit) => v.(flags := Or(v.flags, bit))
    case Assign(Subcat, x) => v.(subcat := x)
    case Assign(Gender, x) => v.(gender := x)
    case Assign(Number, x) => v.(number := x)
    case Assign(Person, x) => v.(person := x)
    case Assign(Tense, x) => v.(tense := x)
  }

  /** The feature names an entry may carry. */
  predicate EntryName(name: string)
  {
    name in {"proper", "subcat", "compound", "coll", "postpos", "collective", "procat"}
  }

  /** Decoding one feature of an entry: a flag bit or a subcategory. An
      unknown name fails with the name, a known name with an unknown value
      fails with the value. */
  function EntryEffect(f: Feat): (r: Result<Effect, string>)
    ensures r.Ok? ==> r.value.SetFlag? || r.value.field == Subcat
    ensures r.Ok? ==> EntryName(f.name)
    ensures r.Err? ==> r.error == if EntryName(f.name) then f.value else f.name
  {
    match f.name
    case "proper" => if f.value == "true" then Ok(SetFlag(PROPER)) else Err(f.value)
    case "subcat" =>
      (match f.value
       case "human" => Ok(Assign(Subcat, HUMAN))
       case "animal" => Ok(Assign(Subcat, ANIMAL))
       case "concret" => Ok(Assign(Subcat, CONCRET))
       case "abstract" => Ok(Assign(Subcat, ABSTRACT))
       case "unit" => Ok(Assign(Subcat, UNIT))
       case "indefinite" => Ok(Assign(Subcat, INDEFINITE))
       case "temporal" => Ok(Assign(Subcat, TEMPORAL))
       case "demonstrative" => Ok(Assign(Subcat, DEMONSTRATIVE))
       case _ => Err(f.value))
    case "compound" => if f.value == "comp" then Ok(SetFlag(COMPOUND)) else Err(f.value)
    case "coll" => if f.value == "true" then Ok(SetFlag(COLL)) else Err(f.value)
    case "postpos" => if f.value == "true" then Ok(SetFlag(POSTPOS)) else Err(f.value)
    case "collective" => if f.value == "true" then Ok(SetFlag(COLLECTIVE)) else Err(f.value)
    case "procat" => if f.value == "demonstrative" then Ok(SetFlag(PROCATDEMONSTRATIVE)) else Err(f.value)
    case _ => Err(f.name)
  }

  predicate InflName(name: string)
  {
    name in {"gender", "number", "person", "tense"}
  }

  /** Decoding one feature of an inflected form: gender, number, person or
      tense, each within its closed set of values. */
  function InflEffect(f: Feat): (r: Result<Effect, string>)
    ensures r.Ok? ==> r.value.Assign? && r.value.field != Subcat
    ensures r.Ok? && r.value.field == Gender ==> r.value.value in {MALE, FEMALE}
    ensures r.Ok? && r.value.field == Number ==> r.value.value in {SINGULAR, PLURAL}
    ensures r.Ok? && r.value.field == Person ==> 1 <= r.value.value <= 3
    ensures r.Ok? && r.value.field == Tense ==> IND <= r.value.value <= INF
    ensures r.Ok? ==> InflName(f.name)
    ensures r.Err? ==> r.error == if InflName(f.name) then f.value else f.name
  {
    match f.name
    case "gender" =>
      (match f.value
       case "masculine" => Ok(Assign(Gender, MALE))
       case "feminine" => Ok(Assign(Gender, FEMALE))
       case _ => Err(f.value))
    case "number" =>
      (match f.value
       case "singular" => Ok(Assign(Number, SINGULAR))
       case "plural" => Ok(Assign(Number, PLURAL))
       case _ => Err(f.value))
    case "person" =>
      (match f.value
       case "1" => Ok(Assign(Person, 1))
       case "2" => Ok(Assign(Person, 2))
       case "3" => Ok(Assign(Person, 3))
       case _ => Err(f.value))
    case "tense" =>
      (match f.value
       case "ind" => Ok(Assign(Tense, IND))
       case "gerondif" => Ok(Assign(Tense, GERONDIF))
       case "subj" => Ok(Assign(Tense, SUBJ))
       case "ppast" => Ok(Assign(Tense, PPAST))
       case "imp" => Ok(Assign(Tense, IMP))
       case "cond" => Ok(Assign(Tense, COND))
       case "inf" => Ok(Assign(Tense, INF))
       case _ => Err(f.value))
    case _ => Err(f.name)
  }

  /** Entry features and inflection features go through different
      vocabularies. */
  datatype Kind = OfEntry | OfInflection

  function Decode(kind: Kind, f: Feat): Result<Effect, string>
  {
    match kind
    case OfEntry => EntryEffect(f)
    case OfInflection => InflEffect(f)
  }

  /** Feature `i` is the first that does not decode, and fails with `msg`. */
  predicate FirstFailure(kind: Kind, feats: seq<Feat>, i: int, msg: string)
  {
    && 0 <= i < |feats|
    && Decode(kind, feats[i]) == Err(msg)
    && forall j :: 0 <= j < i ==> Decode(kind, feats[j]).Ok?
  }

  /** Applying the features in order; the first one that does not decode
      stops everything. */
  function ApplyFeats(v: WordVariant, kind: Kind, feats: seq<Feat>): (r: Result<WordVariant, string>)
    ensures r.Ok? <==> forall i :: 0 <= i < |feats| ==> Decode(kind, feats[i]).Ok?
    ensures r.Ok? ==> r.value.tag == v.tag && r.value.language == v.language
    ensures r.Err? ==> exists i :: FirstFailure(kind, feats, i, r.error)
    decreases |feats|
  {
    if feats == [] then Ok(v)
    else match Decode(kind, feats[0])
      case Err(msg) =>
        assert FirstFailure(kind, feats, 0, msg);
        Err(msg)
      case Ok(e) =>
        var r := ApplyFeats(Apply(v, e), kind, feats[1..]);
        assert r.Err? ==> exists i :: FirstFailure(kind, feats, i, r.error) by {
          if r.Err? {
            var i :| FirstFailure(kind, feats[1..], i, r.error);
            assert FirstFailure(kind, feats, i + 1, r.error);
          }
        }
        r
  }

  /** `Inflected.GetVariant` as a value: the tag, then the entry's
      features, then the inflection's features, starting from a variant
      whose only set fields are the language and `Gender = NOGENDER`. */
  function Variant(inf: Inflected, entry: Entry, lang: byte): Result<WordVariant, string>
  {
    match TagCode(entry.tag)
    case None => Err("'" + entry.tag + "'")
    case Some(t) =>
      match ApplyFeats(WordVariant(t, lang, 0, 0, NOGENDER, 0, 0, 0), OfEntry, entry.feats)
      case Err(msg) => Err(msg)
      case Ok(v) => ApplyFeats(v, OfInflection, inf.feats)
  }

  /** The loop over one list of features, as `GetVariant` runs it for the
      entry's and then for the inflection's features. */
  method ApplyEach(v0: WordVariant, kind: Kind, feats: seq<Feat>) returns (r: Result<WordVariant, string>)
    ensures r == ApplyFeats(v0, kind, feats)
  {
    var v := v0;
    var i := 0;
    while i < |feats|
      invariant 0 <= i <= |feats|
      invariant ApplyFeats(v0, kind, feats) == ApplyFeats(v, kind, feats[i..])
    {
      assert feats[i..][1..] == feats[i + 1..];
      var d := Decode(kind, feats[i]);
      if d.Err? {
        return Err(d.error);
      }
      v := Apply(v, d.value);
      i := i + 1;
    }
    return Ok(v);
  }

  /** `Inflected.GetVariant`, with the panic as an `Err` holding its message. */
  method GetVariant(inf: Inflected, entry: Entry, lang: byte) returns (r: Result<WordVariant, string>)
    ensures r == Variant(inf, entry, lang)
  {
    var tag := TagCode(entry.tag);
    if tag.None? {
      return Err("'" + entry.tag + "'");
    }
    var v := WordVariant(tag.value, lang, 0, 0, NOGENDER, 0, 0, 0);
    var fromEntry := ApplyEach(v, OfEntry, entry.feats);
    if fromEntry.Err? {
      return Err(fromEntry.error);
    }
    r := ApplyEach(fromEntry.value, OfInflection, inf.feats);
  }

  predicate SetsField(kind: Kind, ft: Feat, f: Field)
  {
    var d := Decode(kind, ft);
    d.Ok? && d.value.Assign? && d.value.field == f
  }

  /** Feature `i` assigns `x` to field `f` and no later feature assigns `f`. */
  predicate LastAssigns(kind: Kind, feats: seq<Feat>, f: Field, i: int, x: byte)
  {
    && 0 <= i < |feats|
    && Decode(kind, feats[i]) == Ok(Assign(f, x))
    && forall j :: i < j < |feats| ==> !SetsField(kind, feats[j], f)
  }

  /** The last feature that sets a field wins; a field no feature sets keeps
      the value it had. */
  lemma {:induction false} LastWins(v: WordVariant, kind: Kind, feats: seq<Feat>, f: Field)
    requires ApplyFeats(v, kind, feats).Ok?
    ensures var w := ApplyFeats(v, kind, feats).value;
      (forall i :: 0 <= i < |feats| ==> !SetsField(kind, feats[i], f)) ==> FieldOf(w, f) == FieldOf(v, f)
    ensures var w := ApplyFeats(v, kind, feats).value;
      (exists i :: 0 <= i < |feats| && SetsField(kind, feats[i], f)) ==>
        exists i :: LastAssigns(kind, feats, f, i, FieldOf(w, f))
    decreases |feats|
  {
    if feats != [] {
      var e := Decode(kind, feats[0]).value;
      var rest := feats[1..];
      var w := ApplyFeats(v, kind, feats).value;
      assert ApplyFeats(Apply(v, e), kind, rest) == Ok(w);
      LastWins(Apply(v, e), kind, rest, f);
      if forall i :: 0 <= i < |rest| ==> !SetsField(kind, rest[i], f) {
        if SetsField(kind, feats[0], f) {
          assert LastAssigns(kind, feats, f, 0, FieldOf(w, f));
        }
      } else {
        var i :| LastAssigns(kind, rest, f, i, FieldOf(w, f));
        assert LastAssigns(kind, feats, f, i + 1, FieldOf(w, f));
      }
    }
  }

  /** Flag features only OR bits in: the bits already set stay set, and the
      bit of every flag feature ends up set. */
  lemma {:induction false} FlagsAccumulate(v: WordVariant, kind: Kind, feats: seq<Feat>)
    requires ApplyFeats(v, kind, feats).Ok?
    ensures var w := ApplyFeats(v, kind, feats).value;
      forall c :: Has(v.flags, c) ==> Has(w.flags, c)
    ensures var w := ApplyFeats(v, kind, feats).value;
      forall i, b :: 0 <= i < |feats| && Decode(kind, feats[i]) == Ok(SetFlag(b)) ==> Has(w.flags, b)
    ensures var w := ApplyFeats(v, kind, feats).value;
      (forall i :: 0 <= i < |feats| ==> !Decode(kind, feats[i]).value.SetFlag?) ==> w.flags == v.flags
    decreases |feats|
  {
    if feats != [] {
      var e := Decode(kind, feats[0]).value;
      var v1 := Apply(v, e);
      var rest := feats[1..];
      var w := ApplyFeats(v, kind, feats).value;
      assert ApplyFeats(v1, kind, rest) == Ok(w);
      FlagsAccumulate(v1, kind, rest);
      forall c | Has(v.flags, c) ensures Has(w.flags, c) {
        if e.SetFlag? {
          HasOr(v.flags, e.bit, c);
        }
      }
      forall i, b | 0 <= i < |feats| && Decode(kind, feats[i]) == Ok(SetFlag(b)) ensures Has(w.flags, b) {
        if i > 0 {
          assert rest[i - 1] == feats[i];
        }
      }
    }
  }

  /** What the decoded variant of an inflected form is: the entry's tag and
      the given language; the last subcategory feature of the entry; the last
      gender, number, person and tense features of the inflection, with
      `NOGENDER` and 0 where there is none; and it is an error exactly when
      the tag name or some feature is outside the vocabulary. */
  lemma VariantMeaning(inf: Inflected, entry: Entry, lang: byte, f: Field)
    ensures Variant(inf, entry, lang).Err? <==>
      || TagCode(entry.tag).None?
      || (exists i :: 0 <= i < |entry.feats| && EntryEffect(entry.feats[i]).Err?)
      || (exists i :: 0 <= i < |inf.feats| && InflEffect(inf.feats[i]).Err?)
    ensures Variant(inf, entry, lang).Ok? ==>
      var w := Variant(inf, entry, lang).value;
      w.language == lang && TagCode(entry.tag) == Some(w.tag)
    ensures Variant(inf, entry, lang).Ok? && f == Subcat ==>
      var w := Variant(inf, entry, lang).value;
      && ((forall i :: 0 <= i < |entry.feats| ==> !SetsField(OfEntry, entry.feats[i], f)) ==> w.subcat == 0)
      && ((exists i :: 0 <= i < |entry.feats| && SetsField(OfEntry, entry.feats[i], f)) ==>
           exists i :: LastAssigns(OfEntry, entry.feats, f, i, w.subcat))
    ensures Variant(inf, entry, lang).Ok? && f != Subcat ==>
      var w := Variant(inf, entry, lang).value;
      && ((forall i :: 0 <= i < |inf.feats| ==> !SetsField(OfInflection, inf.feats[i], f)) ==>
           FieldOf(w, f) == if f == Gender then NOGENDER else 0)
      && ((exists i :: 0 <= i < |inf.feats| && SetsField(OfInflection, inf.feats[i], f)) ==>
           exists i :: LastAssigns(OfInflection, inf.feats, f, i, FieldOf(w, f)))
  {
    if Variant(inf, entry, lang).Ok? {
      var v0 := WordVariant(TagCode(entry.tag).value, lang, 0, 0, NOGENDER, 0, 0, 0);
      var v1 := ApplyFeats(v0, OfEntry, entry.feats).value;
      LastWins(v0, OfEntry, entry.feats, f);
      LastWins(v1, OfInflection, inf.feats, f);
      if f == Subcat {
        assert forall i :: 0 <= i < |inf.feats| ==> !SetsField(OfInflection, inf.feats[i], f);
      } else {
        assert forall i :: 0 <= i < |entry.feats| ==> !SetsField(OfEntry, entry.feats[i], f);
      }
    }
  }

  /** The flag byte holds the bit of every flag feature of the entry, and is
      0 when the entry has none; inflection features leave it alone. */
  lemma VariantFlags(inf: Inflected, entry: Entry, lang: byte)
    requires Variant(inf, entry, lang).Ok?
    ensures var w := Variant(inf, entry, lang).value;
      forall i, b :: 0 <= i < |entry.feats| && EntryEffect(entry.feats[i]) == Ok(SetFlag(b)) ==> Has(w.flags, b)
    ensures (forall i :: 0 <= i < |entry.feats| ==> !EntryEffect(entry.feats[i]).value.SetFlag?) ==>
      Variant(inf, entry, lang).value.flags == 0
  {
    var v0 := WordVariant(TagCode(entry.tag).value, lang, 0, 0, NOGENDER, 0, 0, 0);
    var v1 := ApplyFeats(v0, OfEntry, entry.feats).value;
    FlagsAccumulate(v0, OfEntry, entry.feats);
    FlagsAccumulate(v1, OfInflection, inf.feats);
    assert forall i :: 0 <= i < |inf.feats| ==> !Decode(OfInflection, inf.feats[i]).value.SetFlag?;
  }

  /** `strings.Replace(form, "\-", "-", -1)`: left to right, non-overlapping. */
  function Unescape(s: string): (r: string)
    ensures |r| <= |s|
    decreases |s|
  {
    if |s| >= 2 && s[0] == '\\' && s[1] == '-' then "-" + Unescape(s[2..])
    else if s == [] then []
    else [s[0]] + Unescape(s[1..])
  }

  /** Writing every dash as `\-`: the inverse `Unescape` is proved against. */
  function Escape(t: string): (r: string)
    ensures |r| >= |t|
    ensures r != [] ==> r[0] != '-'
  {
    if t == [] then []
    else (if t[0] == '-' then "\\-" else [t[0]]) + Escape(t[1..])
  }

  /** Unescaping undoes escaping, for every string. */
  lemma {:induction false} UnescapeEscape(t: string)
    ensures Unescape(Escape(t)) == t
  {
    if t != [] {
      var rest := Escape(t[1..]);
      UnescapeEscape(t[1..]);
      if t[0] == '-' {
        assert Escape(t) == "\\-" + rest;
        assert Escape(t)[2..] == rest;
      } else {
        assert Escape(t) == [t[0]] + rest;
        assert Escape(t)[1..] == rest;
      }
      assert t == [t[0]] + t[1..];
    }
  }

  /** A form without a backslash is passed on unchanged. */
  lemma {:induction false} UnescapePlain(s: string)
    requires forall i :: 0 <= i < |s| ==> s[i] != '\\'
    ensures Unescape(s) == s
    decreases |s|
  {
    if s != [] {
      UnescapePlain(s[1..]);
      assert s == [s[0]] + s[1..];
    }
  }

  /** The callback `WordList.Read` hands each decoded form to: it may fail
      with an error message. */
  type AddWord = (string, Word) -> Option<string>

  /** How the loop of `WordList.Read` ends: every form was handed over, the
      callback failed, or a `GetVariant` panicked. */
  datatype ReadEnd = Finished | Stopped(err: string) | Panicked(msg: string)

  /** Every (entry, inflected form) pair, entry by entry. */
  function Flatten(entries: seq<Entry>): (items: seq<(Entry, Inflected)>)
  {
    if entries == [] then []
    else seq(|entries[0].inflections|, k requires 0 <= k < |entries[0].inflections| =>
           (entries[0], entries[0].inflections[k])) + Flatten(entries[1..])
  }

  /** The call made for one pair: the unescaped form, and a fresh word whose
      only reading is the decoded variant. */
  function CallFor(item: (Entry, Inflected), v: WordVariant): (string, Word)
  {
    (Unescape(item.1.form), Word(None, [v]))
  }

  /** The calls the loop makes over `items`, in order, and how it ends. */
  function ReadItems(items: seq<(Entry, Inflected)>, lang: byte, addWord: AddWord): (seq<(string, Word)>, ReadEnd)
  {
    if items == [] then ([], Finished)
    else match Variant(items[0].1, items[0].0, lang)
      case Err(msg) => ([], Panicked(msg))
      case Ok(v) =>
        var call := CallFor(items[0], v);
        match addWord(call.0, call.1)
        case Some(err) => ([call], Stopped(err))
        case None =>
          var rest := ReadItems(items[1..], lang, addWord);
          ([call] + rest.0, rest.1)
  }

  /** The calls are made for a prefix of the pairs, one each, in order; every
      call but a failing last one succeeded; the loop finishes exactly when
      every pair was handed over, stops with the callback's error, or panics
      on the first pair whose variant does not decode. */
  predicate Explains(items: seq<(Entry, Inflected)>, lang: byte, addWord: AddWord, calls: seq<(string, Word)>, end: ReadEnd)
  {
    && |calls| <= |items|
    && CallsMatch(items, lang, calls)
    && CallsSucceed(addWord, calls, end)
    && (end.Finished? ==> |calls| == |items|)
    && (end.Stopped? ==> |calls| > 0 && addWord(calls[|calls| - 1].0, calls[|calls| - 1].1) == Some(end.err))
    && (end.Panicked? ==> |calls| < |items| && Variant(items[|calls|].1, items[|calls|].0, lang) == Err(end.msg))
  }

  /** Call `k` hands over pair `k`, its variant decoded. */
  predicate CallsMatch(items: seq<(Entry, Inflected)>, lang: byte, calls: seq<(string, Word)>)
    requires |calls| <= |items|
  {
    forall k :: 0 <= k < |calls| ==> Handed(items[k], lang, calls[k])
  }

  /** The call made for a pair: its variant decodes, and the call carries it. */
  predicate Handed(item: (Entry, Inflected), lang: byte, call: (string, Word))
  {
    Variant(item.1, item.0, lang).Ok? && call == CallFor(item, Variant(item.1, item.0, lang).value)
  }

  /** Every call but a failing last one succeeded. */
  predicate CallsSucceed(addWord: AddWord, calls: seq<(string, Word)>, end: ReadEnd)
  {
    forall k :: 0 <= k < |calls| && (k < |calls| - 1 || !end.Stopped?) ==>
      addWord(calls[k].0, calls[k].1).None?
  }

  lemma {:induction false} ReadItemsMeaning(items: seq<(Entry, Inflected)>, lang: byte, addWord: AddWord)
    ensures var (calls, end) := ReadItems(items, lang, addWord);
      && |calls| <= |items|
      && (forall k :: 0 <= k < |calls| ==>
            Variant(items[k].1, items[k].0, lang).Ok? &&
            calls[k] == CallFor(items[k], Variant(items[k].1, items[k].0, lang).value))
      && (forall k :: 0 <= k < |calls| && (k < |calls| - 1 || !end.Stopped?) ==>
            addWord(calls[k].0, calls[k].1).None?)
      && (end.Finished? ==> |calls| == |items|)
      && (end.Stopped? ==> |calls| > 0 && addWord(calls[|calls| - 1].0, calls[|calls| - 1].1) == Some(end.err))
      && (end.Panicked? ==> |calls| < |items| && Variant(items[|calls|].1, items[|calls|].0, lang) == Err(end.msg))
  {
    ReadItemsExplained(items, lang, addWord);
  }

  lemma {:induction false} ReadItemsExplained(items: seq<(Entry, Inflected)>, lang: byte, addWord: AddWord)
    ensures Explains(items, lang, addWord, ReadItems(items, lang, addWord).0, ReadItems(items, lang, addWord).1)
  {
    if items != [] && Variant(items[0].1, items[0].0, lang).Ok? {
      var v := Variant(items[0].1, items[0].0, lang).value;
      var call := CallFor(items[0], v);
      if addWord(call.0, call.1).None? {
        var rest := ReadItems(items[1..], lang, addWord);
        ReadItemsExplained(items[1..], lang, addWord);
        ReadNext(items, lang, addWord, v, rest);
        ExplainsCons(items, lang, addWord, v, rest.0, rest.1);
      }
    }
  }

  lemma ReadNext(items: seq<(Entry, Inflected)>, lang: byte, addWord: AddWord, v: WordVariant, rest: (seq<(string, Word)>, ReadEnd))
    requires items != [] && Variant(items[0].1, items[0].0, lang) == Ok(v)
    requires addWord(CallFor(items[0], v).0, CallFor(items[0], v).1).None?
    requires rest == ReadItems(items[1..], lang, addWord)
    ensures ReadItems(items, lang, addWord) == ([CallFor(items[0], v)] + rest.0, rest.1)
  {
  }

  lemma ExplainsCons(items: seq<(Entry, Inflected)>, lang: byte, addWord: AddWord, v: WordVariant, calls: seq<(string, Word)>, end: ReadEnd)
    requires items != [] && Variant(items[0].1, items[0].0, lang) == Ok(v)
    requires addWord(CallFor(items[0], v).0, CallFor(items[0], v).1).None?
    requires Explains(items[1..], lang, addWord, calls, end)
    ensures Explains(items, lang, addWord, [CallFor(items[0], v)] + calls, end)
  {
    MatchCons(items, lang, v, calls);
    SucceedCons(addWord, CallFor(items[0], v), calls, end);
  }

  lemma MatchCons(items: seq<(Entry, Inflected)>, lang: byte, v: WordVariant, calls: seq<(string, Word)>)
    requires items != [] && Variant(items[0].1, items[0].0, lang) == Ok(v)
    requires |calls| <= |items| - 1 && CallsMatch(items[1..], lang, calls)
    ensures CallsMatch(items, lang, [CallFor(items[0], v)] + calls)
  {
    var all := [CallFor(items[0], v)] + calls;
    forall k | 0 <= k < |all| ensures Handed(items[k], lang, all[k]) {
      if k > 0 {
        assert all[k] == calls[k - 1] && items[k] == items[1..][k - 1];
      }
    }
  }

  lemma SucceedCons(addWord: AddWord, call: (string, Word), calls: seq<(string, Word)>, end: ReadEnd)
    requires addWord(call.0, call.1).None? && CallsSucceed(addWord, calls, end)
    ensures CallsSucceed(addWord, [call] + calls, end)
  {
    var all := [call] + calls;
    forall k | 1 <= k < |all| ensures all[k] == calls[k - 1] {
    }
  }

  /** The pairs of one entry, in the order of its inflected forms. */
  function Pairs(entry: Entry): (items: seq<(Entry, Inflected)>)
    ensures |items| == |entry.inflections|
    ensures forall k :: 0 <= k < |items| ==> items[k] == (entry, entry.inflections[k])
  {
    seq(|entry.inflections|, k requires 0 <= k < |entry.inflections| => (entry, entry.inflections[k]))
  }

  function Prefixed(calls: seq<(string, Word)>, r: (seq<(string, Word)>, ReadEnd)): (seq<(string, Word)>, ReadEnd)
  {
    (calls + r.0, r.1)
  }

  lemma FlattenFrom(entries: seq<Entry>, i: nat)
    requires i < |entries|
    ensures Flatten(entries[i..]) == Pairs(entries[i]) + Flatten(entries[i + 1..])
  {
    assert entries[i..][1..] == entries[i + 1..];
  }

  /** One successful call of the loop. */
  lemma ReadOne(todo: seq<(Entry, Inflected)>, lang: byte, addWord: AddWord, v: WordVariant, calls: seq<(string, Word)>)
    requires todo != [] && Variant(todo[0].1, todo[0].0, lang) == Ok(v)
    requires addWord(CallFor(todo[0], v).0, CallFor(todo[0], v).1).None?
    ensures Prefixed(calls, ReadItems(todo, lang, addWord)) ==
      Prefixed(calls + [CallFor(todo[0], v)], ReadItems(todo[1..], lang, addWord))
  {
    var call := CallFor(todo[0], v);
    var rest := ReadItems(todo[1..], lang, addWord);
    assert ReadItems(todo, lang, addWord) == ([call] + rest.0, rest.1);
    assert calls + ([call] + rest.0) == (calls + [call]) + rest.0;
  }

  /** A call that fails, or a variant that does not decode, ends the loop. */
  lemma ReadLast(todo: seq<(Entry, Inflected)>, lang: byte, addWord: AddWord, calls: seq<(string, Word)>)
    requires todo != []
    ensures var d := Variant(todo[0].1, todo[0].0, lang);
      d.Err? ==> Prefixed(calls, ReadItems(todo, lang, addWord)) == (calls, Panicked(d.error))
    ensures var d := Variant(todo[0].1, todo[0].0, lang);
      d.Ok? && addWord(CallFor(todo[0], d.value).0, CallFor(todo[0], d.value).1).Some? ==>
        Prefixed(calls, ReadItems(todo, lang, addWord)) ==
        (calls + [CallFor(todo[0], d.value)], Stopped(addWord(CallFor(todo[0], d.value).0, CallFor(todo[0], d.value).1).value))
  {
    assert calls + [] == calls;
  }

  lemma PrefixedTwice(a: seq<(string, Word)>, b: seq<(string, Word)>, r: (seq<(string, Word)>, ReadEnd))
    ensures Prefixed(a, Prefixed(b, r)) == Prefixed(a + b, r)
  {
    assert a + (b + r.0) == (a + b) + r.0;
  }

  /** The inner loop of `WordList.Read`, over the inflected forms of one
      entry; `rest` stands for the pairs of the entries after it. `end` is
      None when every form was handed over. */
  method ReadEntry(entry: Entry, lang: byte, addWord: AddWord, ghost rest: seq<(Entry, Inflected)>)
    returns (calls: seq<(string, Word)>, end: Option<ReadEnd>)
    ensures end.None? ==> ReadItems(Pairs(entry) + rest, lang, addWord) == Prefixed(calls, ReadItems(rest, lang, addWord))
    ensures end.Some? ==> ReadItems(Pairs(entry) + rest, lang, addWord) == (calls, end.value)
  {
    calls := [];
    var j := 0;
    ghost var todo := Pairs(entry) + rest;
    assert calls + ReadItems(todo, lang, addWord).0 == ReadItems(todo, lang, addWord).0;
    while j < |entry.inflections|
      invariant 0 <= j <= |entry.inflections|
      invariant todo == Pairs(entry)[j..] + rest
      invariant ReadItems(Pairs(entry) + rest, lang, addWord) == Prefixed(calls, ReadItems(todo, lang, addWord))
    {
      assert todo[0] == (entry, entry.inflections[j]);
      ReadLast(todo, lang, addWord, calls);
      var inflection := entry.inflections[j];
      var v := GetVariant(inflection, entry, lang);
      if v.Err? {
        return calls, Some(Panicked(v.error));
      }
      var word := Word(None, [v.value]);
      var form := Unescape(inflection.form);
      var err := addWord(form, word);
      if err.Some? {
        return calls + [(form, word)], Some(Stopped(err.value));
      }
      ReadOne(todo, lang, addWord, v.value, calls);
      calls := calls + [(form, word)];
      todo := todo[1..];
      assert todo == Pairs(entry)[j + 1..] + rest;
      j := j + 1;
    }
    assert todo == rest;
    return calls, None;
  }

  /** `WordList.Read` after the XML has been unmarshalled: for every entry
      and every inflected form, decode the variant and hand the unescaped
      form with a one-reading word to `addWord`, stopping at its first
      error. */
  method Read(entries: seq<Entry>, lang: byte, addWord: AddWord) returns (calls: seq<(string, Word)>, end: ReadEnd)
    ensures (calls, end) == ReadItems(Flatten(entries), lang, addWord)
  {
    calls := [];
    var i := 0;
    assert entries[i..] == entries;
    assert calls + ReadItems(Flatten(entries), lang, addWord).0 == ReadItems(Flatten(entries), lang, addWord).0;
    while i < |entries|
      invariant 0 <= i <= |entries|
      invariant ReadItems(Flatten(entries), lang, addWord) == Prefixed(calls, ReadItems(Flatten(entries[i..]), lang, addWord))
    {
      FlattenFrom(entries, i);
      var more, stop := ReadEntry(entries[i], lang, addWord, Flatten(entries[i + 1..]));
      if stop.Some? {
        calls, end := calls + more, stop.value;
        return;
      }
      PrefixedTwice(calls, more, ReadItems(Flatten(entries[i + 1..]), lang, addWord));
      calls := calls + more;
      i := i + 1;
    }
    assert entries[i..] == [];
    assert calls + [] == calls;
    end := Finished;
  }
}
