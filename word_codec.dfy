/** The binary record of one lexicon entry, as `Word.Write` and `Word.Read`
    of words/word.go lay it out with `encoding/binary` in little-endian
    order: an int32 byte length, the spelling bytes, an int32 reading count,
    then eight one-byte fields per reading. */
module WordCodec {
  import opened Wrappers
  import opened Utf8
  import opened Morphology
  import opened WordLetter

  const TwoTo31: int := 0x8000_0000
  const TwoTo32: int := 0x1_0000_0000

  /** Go's `int32(x)`: keep the low 32 bits and read them as two's
      complement. */
  function Int32(x: int): (r: int)
    ensures -TwoTo31 <= r < TwoTo31
    ensures (x - r) % TwoTo32 == 0
    ensures -TwoTo31 <= x < TwoTo31 ==> r == x
  {
    var m := x % TwoTo32;
    if m >= TwoTo31 then m - TwoTo32 else m
  }

  /** The `n` low bytes of `m`, least significant first. */
  function LittleEndian(m: nat, n: nat): (e: Bytes)
    ensures |e| == n
  {
    if n == 0 then [] else [m % 256] + LittleEndian(m / 256, n - 1)
  }

  /** The unsigned value of little-endian bytes. */
  function FromLittleEndian(b: Bytes): (m: nat)
  {
    if b == [] then 0 else b[0] + 256 * FromLittleEndian(b[1..])
  }

  function Pow256(n: nat): (p: nat)
    ensures p >= 1
  {
    if n == 0 then 1 else 256 * Pow256(n - 1)
  }

  lemma {:induction false} LittleEndianRoundTrip(m: nat, n: nat)
    requires m < Pow256(n)
    ensures FromLittleEndian(LittleEndian(m, n)) == m
  {
    if n > 0 {
      var e := LittleEndian(m, n);
      assert m / 256 < Pow256(n - 1);
      LittleEndianRoundTrip(m / 256, n - 1);
      assert e[1..] == LittleEndian(m / 256, n - 1);
    }
  }

  /** The four little-endian bytes `binary.Write` emits for an int32: its
      two's complement pattern. */
  function EncodeInt32(v: int): (e: Bytes)
    ensures |e| == 4
  {
    LittleEndian(v % TwoTo32, 4)
  }

  /** The int32 `binary.Read` takes from four little-endian bytes. */
  function DecodeInt32(b: Bytes): (r: int)
    requires |b| == 4
    ensures -TwoTo31 <= r < TwoTo31
  {
    var m := FromLittleEndian(b);
    FromLittleEndianBound(b);
    if m >= TwoTo31 then m - TwoTo32 else m
  }

  lemma {:induction false} FromLittleEndianBound(b: Bytes)
    ensures FromLittleEndian(b) < Pow256(|b|)
  {
    if b != [] {
      FromLittleEndianBound(b[1..]);
    }
  }

  lemma Int32RoundTrip(v: int)
    requires -TwoTo31 <= v < TwoTo31
    ensures DecodeInt32(EncodeInt32(v)) == v
  {
    assert Pow256(4) == TwoTo32;
    LittleEndianRoundTrip(v % TwoTo32, 4);
  }

  /** The eight bytes of one reading, in the order `Write` emits them:
      tag, language, flags, subcat, person, gender, number, tense. */
  function EncodeVariant(v: WordVariant): (e: Bytes)
    ensures |e| == 8
  {
    [v.tag, v.language, v.flags, v.subcat, v.person, v.gender, v.number, v.tense]
  }

  /** The reading `Read` fills from eight bytes, field by field in the same
      order. */
  function DecodeVariant(b: Bytes): (v: WordVariant)
    requires |b| == 8
    ensures EncodeVariant(v) == b
  {
    WordVariant(tag := b[0], language := b[1], flags := b[2], subcat := b[3],
                person := b[4], gender := b[5], number := b[6], tense := b[7])
  }

  lemma VariantRoundTrip(v: WordVariant)
    ensures DecodeVariant(EncodeVariant(v)) == v
  {
  }

  function EncodeVariants(vs: seq<WordVariant>): (e: Bytes)
    ensures |e| == 8 * |vs|
  {
    if vs == [] then [] else EncodeVariant(vs[0]) + EncodeVariants(vs[1..])
  }

  /** The record `Word.Write` emits for a word whose node spells `letters`:
      the lengths are converted to int32 but every byte and every reading is
      written. */
  function EncodeRecord(letters: Bytes, vs: seq<WordVariant>): Bytes
  {
    EncodeInt32(Int32(|letters|)) + letters + EncodeInt32(Int32(|vs|)) + EncodeVariants(vs)
  }

  lemma RecordSize(letters: Bytes, vs: seq<WordVariant>)
    ensures |EncodeRecord(letters, vs)| == 8 + |letters| + 8 * |vs|
  {
  }

  /** How a read fails: `io.EOF` when a field read finds the stream already
      exhausted, `io.ErrUnexpectedEOF` when it finds some but not all of its
      bytes, and the run-time panic of `make([]byte, l)` for a negative
      length. */
  datatype ReadError = EndOfFile | UnexpectedEndOfFile | NegativeLength

  /** One `binary.Read` of an `n`-byte field at `pos`: `io.ReadFull`
      semantics, where a zero-length read always succeeds. */
  function ReadField(s: Bytes, pos: nat, n: nat): (r: Result<Bytes, ReadError>)
    requires pos <= |s|
    ensures r.Ok? <==> pos + n <= |s|
    ensures r.Ok? ==> r.value == s[pos..pos + n]
    ensures r == Err(EndOfFile) <==> n > 0 && pos == |s|
  {
    if n == 0 then Ok([])
    else if pos == |s| then Err(EndOfFile)
    else if |s| - pos < n then Err(UnexpectedEndOfFile)
    else Ok(s[pos..pos + n])
  }

  datatype Record = Record(letters: Bytes, variants: seq<WordVariant>)

  /** The reading loop of `Read`, `count` readings still to go, `acc` read
      so far. Each field is a single byte, so running out of stream anywhere
      in a reading is a plain end of file. */
  function ReadVariants(s: Bytes, pos: nat, count: int, acc: seq<WordVariant>): (r: Result<(seq<WordVariant>, nat), ReadError>)
    requires pos <= |s|
    ensures r.Ok? ==> pos <= r.value.1 <= |s|
    ensures r.Err? ==> r.error == EndOfFile
    decreases if count < 0 then 0 else count
  {
    if count <= 0 then Ok((acc, pos))
    else if |s| - pos < 8 then Err(EndOfFile)
    else ReadVariants(s, pos + 8, count - 1, acc + [DecodeVariant(s[pos..pos + 8])])
  }

  /** `Word.Read` on the stream `s` positioned at `pos`: the record and the
      position after it. */
  function ReadRecord(s: Bytes, pos: nat): (r: Result<(Record, nat), ReadError>)
    requires pos <= |s|
    ensures r.Ok? ==> pos + 8 <= r.value.1 <= |s|
  {
    var lf := ReadField(s, pos, 4);
    if lf.Err? then Err(lf.error)
    else
      var l := DecodeInt32(lf.value);
      if l < 0 then Err(NegativeLength)
      else
        var letters := ReadField(s, pos + 4, l);
        if letters.Err? then Err(letters.error)
        else
          var vf := ReadField(s, pos + 4 + l, 4);
          if vf.Err? then Err(vf.error)
          else
            var rv := ReadVariants(s, pos + 8 + l, DecodeInt32(vf.value), []);
            if rv.Err? then Err(rv.error)
            else Ok((Record(letters.value, rv.value.0), rv.value.1))
  }

  lemma {:induction false} ReadEncodedVariants(vs: seq<WordVariant>, acc: seq<WordVariant>, pre: Bytes, post: Bytes)
    ensures var s := pre + EncodeVariants(vs) + post;
      ReadVariants(s, |pre|, |vs|, acc) == Ok((acc + vs, |pre| + 8 * |vs|))
    decreases |vs|
  {
    var s := pre + EncodeVariants(vs) + post;
    if vs == [] {
      assert acc + vs == acc;
    } else {
      var pre' := pre + EncodeVariant(vs[0]);
      assert s == pre' + EncodeVariants(vs[1..]) + post;
      assert s[|pre|..|pre| + 8] == EncodeVariant(vs[0]);
      ReadEncodedVariants(vs[1..], acc + [vs[0]], pre', post);
      assert acc + [vs[0]] + vs[1..] == acc + vs;
    }
  }

  lemma ReadRecordOk(s: Bytes, p: nat, lb: Bytes, letters: Bytes, vb: Bytes, vs: seq<WordVariant>, q: nat)
    requires p <= |s| && |lb| == 4 && |vb| == 4 && DecodeInt32(lb) == |letters|
    requires ReadField(s, p, |lb|) == Ok(lb)
    requires ReadField(s, p + |lb|, |letters|) == Ok(letters)
    requires ReadField(s, p + |lb| + |letters|, |vb|) == Ok(vb)
    requires ReadVariants(s, p + |lb| + |letters| + |vb|, DecodeInt32(vb), []) == Ok((vs, q))
    ensures ReadRecord(s, p) == Ok((Record(letters, vs), q))
  {
  }

  lemma Slices(pre: Bytes, a: Bytes, b: Bytes, c: Bytes, d: Bytes, post: Bytes)
    ensures var s, p := pre + (a + b + c + d) + post, |pre|;
      && s[p..p + |a|] == a
      && s[p + |a|..p + |a| + |b|] == b
      && s[p + |a| + |b|..p + |a| + |b| + |c|] == c
      && s == (pre + a + b + c) + d + post
  {
    var s, p := pre + (a + b + c + d) + post, |pre|;
    assert s == pre + a + b + c + d + post;
    assert s[p..p + |a|] == a;
    assert s[p + |a|..p + |a| + |b|] == b;
    assert s[p + |a| + |b|..p + |a| + |b| + |c|] == c;
  }

  lemma FieldsRead(s: Bytes, pre: Bytes, a: Bytes, b: Bytes, c: Bytes, d: Bytes, post: Bytes)
    requires s == pre + (a + b + c + d) + post
    ensures ReadField(s, |pre|, |a|) == Ok(a)
    ensures ReadField(s, |pre| + |a|, |b|) == Ok(b)
    ensures ReadField(s, |pre| + |a| + |b|, |c|) == Ok(c)
    ensures s == (pre + a + b + c) + d + post
  {
    Slices(pre, a, b, c, d, post);
  }

  /** Reading back what `Write` emitted gives the same spelling and the same
      readings in order, and stops right after the record, whatever precedes
      or follows it in the stream (lengths must fit an int32). */
  lemma RecordRoundTrip(s: Bytes, pre: Bytes, letters: Bytes, vs: seq<WordVariant>, post: Bytes)
    requires |letters| < TwoTo31 && |vs| < TwoTo31
    requires s == pre + EncodeRecord(letters, vs) + post
    ensures ReadRecord(s, |pre|) == Ok((Record(letters, vs), |pre| + |EncodeRecord(letters, vs)|))
  {
    var n, c := |letters|, |vs|;
    assert Int32(n) == n && Int32(c) == c;
    var lb, vb := EncodeInt32(n), EncodeInt32(c);
    var ev := EncodeVariants(vs);
    assert EncodeRecord(letters, vs) == lb + letters + vb + ev;
    RecordSize(letters, vs);
    FieldsRead(s, pre, lb, letters, vb, ev, post);
    Int32RoundTrip(n);
    Int32RoundTrip(c);
    var start := |pre| + 4 + n + 4;
    assert |pre + lb + letters + vb| == start;
    ReadEncodedVariants(vs, [], pre + lb + letters + vb, post);
    assert [] + vs == vs;
    assert ReadVariants(s, start, c, []) == Ok((vs, start + 8 * c));
    ReadRecordOk(s, |pre|, lb, letters, vb, vs, start + 8 * c);
    assert |pre| + |EncodeRecord(letters, vs)| == start + 8 * c;
  }

  /** An exhausted stream yields `io.EOF` before any record. */
  lemma ReadAtEnd(s: Bytes)
    ensures ReadRecord(s, |s|) == Err(EndOfFile)
  {
  }

  /** A record cut off right after its reading count (with a non-zero
      count) also reads as a plain end of file, because every reading field
      is a single byte: such a truncation is indistinguishable from a clean
      end of stream. */
  lemma TruncatedAfterCount(letters: Bytes, count: int)
    requires |letters| < TwoTo31 && 0 < count < TwoTo31
    ensures var s := EncodeInt32(|letters|) + letters + EncodeInt32(count);
      ReadRecord(s, 0) == Err(EndOfFile)
  {
    var s := EncodeInt32(|letters|) + letters + EncodeInt32(count);
    var l := |letters|;
    Int32RoundTrip(l);
    Int32RoundTrip(count);
    assert s[0..4] == EncodeInt32(l);
    assert s[4..4 + l] == letters;
    assert s[4 + l..8 + l] == EncodeInt32(count);
  }

  /** `Word.Write`, buffer by buffer: header, spelling, count, then one
      reading per iteration. The spelling is `GetWord` of the word's node;
      `word` must be attached to the trie, since the source dereferences
      `LastLetter`. */
  method Write(word: Word) returns (out: Bytes)
    requires word.lastLetter.Some?
    ensures out == EncodeRecord(Spelling(word.lastLetter.value), word.variants)
  {
    var letters := GetWord(word.lastLetter.value);
    out := EncodeInt32(Int32(|letters|));
    out := out + letters;
    out := out + EncodeInt32(Int32(|word.variants|));
    var k := 0;
    while k < |word.variants|
      invariant 0 <= k <= |word.variants|
      invariant out + EncodeVariants(word.variants[k..]) == EncodeRecord(letters, word.variants)
    {
      assert EncodeVariants(word.variants[k..]) == EncodeVariant(word.variants[k]) + EncodeVariants(word.variants[k + 1..]);
      out := out + EncodeVariant(word.variants[k]);
      k := k + 1;
    }
    assert word.variants[k..] == [];
  }

  /** The readings loop of `Word.Read`: `v` readings of eight one-byte
      fields each, stopping at the first failed field. */
  method ReadReadings(s: Bytes, start: nat, v: int) returns (r: Result<(seq<WordVariant>, nat), ReadError>)
    requires start <= |s|
    ensures r == ReadVariants(s, start, v, [])
  {
    var p: nat := start;
    var variants: seq<WordVariant> := [];
    var i := 0;
    while i < v
      invariant p <= |s|
      invariant 0 <= i && (i <= v || v <= 0)
      invariant ReadVariants(s, start, v, []) == ReadVariants(s, p, v - i, variants)
      decreases v - i
    {
      var fields: Bytes := [];
      var k := 0;
      while k < 8
        invariant 0 <= k <= 8 && p + k <= |s|
        invariant fields == s[p..p + k]
      {
        var f := ReadField(s, p + k, 1);
        if f.Err? {
          return Err(f.error);
        }
        fields := fields + f.value;
        k := k + 1;
      }
      variants := variants + [DecodeVariant(fields)];
      p := p + 8;
      i := i + 1;
    }
    return Ok((variants, p));
  }

  lemma ReadRecordTail(s: Bytes, pos: nat, l: nat, letters: Bytes, v: int)
    requires pos + 8 + l <= |s|
    requires ReadField(s, pos, 4).Ok? && DecodeInt32(ReadField(s, pos, 4).value) == l
    requires ReadField(s, pos + 4, l) == Ok(letters)
    requires ReadField(s, pos + 4 + l, 4).Ok? && DecodeInt32(ReadField(s, pos + 4 + l, 4).value) == v
    ensures var rv := ReadVariants(s, pos + 8 + l, v, []);
      ReadRecord(s, pos) == if rv.Err? then Err(rv.error) else Ok((Record(letters, rv.value.0), rv.value.1))
  {
  }

  /** `Word.Read`, field by field with the source's early returns, starting
      at `pos` of the stream `s`. */
  method Read(s: Bytes, pos: nat) returns (r: Result<(Record, nat), ReadError>)
    requires pos <= |s|
    ensures r == ReadRecord(s, pos)
  {
    var lf := ReadField(s, pos, 4);
    if lf.Err? {
      return Err(lf.error);
    }
    var l := DecodeInt32(lf.value);
    if l < 0 {
      return Err(NegativeLength);
    }
    var letters := ReadField(s, pos + 4, l);
    if letters.Err? {
      return Err(letters.error);
    }
    var vf := ReadField(s, pos + 4 + l, 4);
    if vf.Err? {
      return Err(vf.error);
    }
    var v := DecodeInt32(vf.value);
    var rv := ReadReadings(s, pos + 8 + l, v);
    ReadRecordTail(s, pos, l, letters.value, v);
    if rv.Err? {
      return Err(rv.error);
    }
    return Ok((Record(letters.value, rv.value.0), rv.value.1));
  }
}
