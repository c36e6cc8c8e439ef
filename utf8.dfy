/** UTF-8 (RFC 3629) as Go's unicode/utf8 package implements it: bytes are
    integers 0..255, runes are integers. `DecodeRune` follows
    `utf8.DecodeRuneInString` (an invalid or truncated sequence decodes as
    U+FFFD of width 1, the empty string as U+FFFD of width 0) and
    `EncodeRune` follows `utf8.EncodeRune` (a surrogate or out-of-range rune
    is written as U+FFFD). */
module Utf8 {

  type byte = b: int | 0 <= b < 256

  type Bytes = seq<byte>

  type Rune = int

  const RuneError: Rune := 0xFFFD

  const MaxRune: Rune := 0x10FFFF

  /** A Unicode scalar value: what the decoder can produce. */
  predicate ValidRune(r: Rune)
  {
    0 <= r <= MaxRune && !(0xD800 <= r <= 0xDFFF)
  }

  predicate IsCont(b: byte)
  {
    0x80 <= b <= 0xBF
  }

  function EncodeRune(r: Rune): (e: Bytes)
    ensures 1 <= |e| <= 4
  {
    if 0 <= r <= 0x7F then [r]
    else if 0 <= r <= 0x7FF then [0xC0 + r / 64, 0x80 + r % 64]
    else if !ValidRune(r) then [0xEF, 0xBF, 0xBD]
    else if r <= 0xFFFF then [0xE0 + r / 4096, 0x80 + (r / 64) % 64, 0x80 + r % 64]
    else [0xF0 + r / 262144, 0x80 + (r / 4096) % 64, 0x80 + (r / 64) % 64, 0x80 + r % 64]
  }

  function DecodeRune(s: Bytes): (d: (Rune, nat))
    ensures s == [] ==> d == (RuneError, 0)
    ensures s != [] ==> 1 <= d.1 <= |s| && d.1 <= 4
    ensures ValidRune(d.0)
  {
    if s == [] then (RuneError, 0)
    else if s[0] < 0x80 then (s[0], 1)
    else if 0xC2 <= s[0] <= 0xDF then
      if |s| >= 2 && IsCont(s[1]) then ((s[0] as int - 0xC0) * 64 + (s[1] as int - 0x80), 2)
      else (RuneError, 1)
    else if 0xE0 <= s[0] <= 0xEF then
      var lo := if s[0] == 0xE0 then 0xA0 else 0x80;
      var hi := if s[0] == 0xED then 0x9F else 0xBF;
      if |s| >= 3 && lo <= s[1] <= hi && IsCont(s[2]) then
        ((s[0] as int - 0xE0) * 4096 + (s[1] as int - 0x80) * 64 + (s[2] as int - 0x80), 3)
      else (RuneError, 1)
    else if 0xF0 <= s[0] <= 0xF4 then
      var lo := if s[0] == 0xF0 then 0x90 else 0x80;
      var hi := if s[0] == 0xF4 then 0x8F else 0xBF;
      if |s| >= 4 && lo <= s[1] <= hi && IsCont(s[2]) && IsCont(s[3]) then
        ((s[0] as int - 0xF0) * 262144 + (s[1] as int - 0x80) * 4096 + (s[2] as int - 0x80) * 64 + (s[3] as int - 0x80), 4)
      else (RuneError, 1)
    else (RuneError, 1)
  }

  /** The runes a Go `for i, w := 0, 0; i < len(s); i += w` decoding loop visits. */
  function Runes(s: Bytes): seq<Rune>
    decreases |s|
  {
    if s == [] then [] else [DecodeRune(s).0] + Runes(s[DecodeRune(s).1..])
  }

  function EncodeAll(rs: seq<Rune>): Bytes
  {
    if rs == [] then [] else EncodeRune(rs[0]) + EncodeAll(rs[1..])
  }

  predicate AllValid(rs: seq<Rune>)
  {
    forall k :: 0 <= k < |rs| ==> ValidRune(rs[k])
  }

  /** Well-formed UTF-8: re-encoding the decoded runes gives the bytes back. */
  predicate ValidUtf8(s: Bytes)
  {
    EncodeAll(Runes(s)) == s
  }

  lemma DivMod64(r: int)
    requires 0 <= r
    ensures r == (r / 64) * 64 + r % 64
    ensures r / 4096 == (r / 64) / 64
    ensures r / 262144 == (r / 4096) / 64
  {
  }

  lemma DecodeEncode2(r: Rune, rest: Bytes)
    requires 0x80 <= r <= 0x7FF
    ensures DecodeRune(EncodeRune(r) + rest) == (r, 2)
  {
    var s := EncodeRune(r) + rest;
    var a, c := r / 64, r % 64;
    DivMod64(r);
    assert s[0] == 0xC0 + a && s[1] == 0x80 + c;
    assert 2 <= a <= 31;
  }

  lemma DecodeEncode3(r: Rune, rest: Bytes)
    requires 0x800 <= r <= 0xFFFF && !(0xD800 <= r <= 0xDFFF)
    ensures DecodeRune(EncodeRune(r) + rest) == (r, 3)
  {
    var s := EncodeRune(r) + rest;
    DivMod64(r);
    DivMod64(r / 64);
    var a, b, c := r / 4096, (r / 64) % 64, r % 64;
    assert r == a * 4096 + b * 64 + c;
    assert s[0] == 0xE0 + a && s[1] == 0x80 + b && s[2] == 0x80 + c;
    assert a == 0 ==> b >= 0x20;
    assert a == 13 ==> b <= 0x1F;
  }

  lemma DecodeEncode4(r: Rune, rest: Bytes)
    requires 0x10000 <= r <= MaxRune
    ensures DecodeRune(EncodeRune(r) + rest) == (r, 4)
  {
    var s := EncodeRune(r) + rest;
    DivMod64(r);
    DivMod64(r / 64);
    DivMod64(r / 4096);
    var a, b, c, d := r / 262144, (r / 4096) % 64, (r / 64) % 64, r % 64;
    assert r == a * 262144 + b * 4096 + c * 64 + d;
    assert s[0] == 0xF0 + a && s[1] == 0x80 + b;
    assert s[2] == 0x80 + c && s[3] == 0x80 + d;
    assert a == 0 ==> b >= 0x10;
    assert a == 4 ==> b <= 0x0F;
  }

  /** Decoding the encoding of a scalar value gives it back, with the
      encoding's width, whatever follows. */
  lemma DecodeEncode(r: Rune, rest: Bytes)
    requires ValidRune(r)
    ensures DecodeRune(EncodeRune(r) + rest) == (r, |EncodeRune(r)|)
  {
    if r <= 0x7F {
      assert (EncodeRune(r) + rest)[0] == r;
    } else if r <= 0x7FF {
      DecodeEncode2(r, rest);
    } else if r <= 0xFFFF {
      DecodeEncode3(r, rest);
    } else {
      DecodeEncode4(r, rest);
    }
  }

  lemma {:induction false} EncodeAllAppend(a: seq<Rune>, b: seq<Rune>)
    ensures EncodeAll(a + b) == EncodeAll(a) + EncodeAll(b)
  {
    if a == [] {
      assert a + b == b;
    } else {
      assert (a + b)[0] == a[0];
      assert (a + b)[1..] == a[1..] + b;
      EncodeAllAppend(a[1..], b);
    }
  }

  lemma {:induction false} RunesOfEncodeAll(rs: seq<Rune>)
    requires AllValid(rs)
    ensures Runes(EncodeAll(rs)) == rs
  {
    if rs != [] {
      RunesCons(rs[0], EncodeAll(rs[1..]));
      RunesOfEncodeAll(rs[1..]);
    }
  }

  lemma {:induction false} RunesValid(s: Bytes)
    ensures AllValid(Runes(s))
    decreases |s|
  {
    if s != [] {
      RunesValid(s[DecodeRune(s).1..]);
    }
  }

  /** Every sequence of scalar values is encoded as well-formed UTF-8. */
  lemma EncodeAllValid(rs: seq<Rune>)
    requires AllValid(rs)
    ensures ValidUtf8(EncodeAll(rs))
  {
    RunesOfEncodeAll(rs);
  }

  lemma RunesCons(r: Rune, t: Bytes)
    requires ValidRune(r)
    ensures Runes(EncodeRune(r) + t) == [r] + Runes(t)
  {
    DecodeEncode(r, t);
    assert (EncodeRune(r) + t)[|EncodeRune(r)|..] == t;
  }

  lemma {:induction false} RunesAppend(a: seq<Rune>, b: Bytes)
    requires AllValid(a)
    ensures Runes(EncodeAll(a) + b) == a + Runes(b)
  {
    if a == [] {
      assert EncodeAll(a) + b == b;
    } else {
      var e := EncodeAll(a[1..]);
      assert EncodeAll(a) + b == EncodeRune(a[0]) + (e + b);
      RunesCons(a[0], e + b);
      RunesAppend(a[1..], b);
      ConsAppend(a, Runes(b));
    }
  }

  lemma ConsAppend<T>(a: seq<T>, b: seq<T>)
    requires a != []
    ensures [a[0]] + (a[1..] + b) == a + b
  {
    assert a == [a[0]] + a[1..];
  }

  lemma {:induction false} RunesLength(s: Bytes)
    ensures |Runes(s)| <= |s|
    decreases |s|
  {
    if s != [] {
      RunesLength(s[DecodeRune(s).1..]);
    }
  }

  /** One step of a decoding loop that stands at byte `i`. */
  lemma RunesFrom(s: Bytes, i: nat)
    requires i < |s|
    ensures i + DecodeRune(s[i..]).1 <= |s|
    ensures Runes(s[i..]) == [DecodeRune(s[i..]).0] + Runes(s[i + DecodeRune(s[i..]).1..])
  {
    assert s[i..][DecodeRune(s[i..]).1..] == s[i + DecodeRune(s[i..]).1..];
  }

  /** The runes a decoding loop visits from byte `i` on. */
  function RunesAt(s: Bytes, i: nat): seq<Rune>
    requires i <= |s|
    decreases |s| - i
  {
    if i == |s| then [] else [DecodeRune(s[i..]).0] + RunesAt(s, i + DecodeRune(s[i..]).1)
  }

  lemma {:induction false} RunesAtSlice(s: Bytes, i: nat)
    requires i <= |s|
    ensures RunesAt(s, i) == Runes(s[i..])
    decreases |s| - i
  {
    if i < |s| {
      RunesFrom(s, i);
      RunesAtSlice(s, i + DecodeRune(s[i..]).1);
    }
  }

  /** A decoding loop over `s` has visited the runes `done` and stands at
      byte `i`: the runes still to come are those decoded from there. */
  ghost predicate Decoded(s: Bytes, i: nat, done: seq<Rune>)
    requires i <= |s|
  {
    Runes(s) == done + RunesAt(s, i)
  }

  lemma RunesStart(s: Bytes)
    ensures Decoded(s, 0, [])
  {
    RunesAtSlice(s, 0);
    assert s[0..] == s;
  }

  /** The runes from byte `i` on: the one decoded there, then the rest. */
  lemma RunesAtNext(s: Bytes, i: nat, r: Rune, w: nat)
    requires i < |s|
    requires (r, w) == DecodeRune(s[i..])
    ensures i + w <= |s|
    ensures RunesAt(s, i) == [r] + RunesAt(s, i + w)
  {
  }

  /** A decoding loop at byte `i` visits one more rune, the one decoded
      there. */
  lemma RunesStep(s: Bytes, i: nat, done: seq<Rune>, r: Rune, w: nat)
    requires i < |s| && Decoded(s, i, done)
    requires (r, w) == DecodeRune(s[i..])
    ensures i < i + w <= |s|
    ensures Decoded(s, i + w, done + [r])
    ensures Runes(s)[..|done| + 1] == done + [r]
  {
    RunesAtNext(s, i, r, w);
    MoveFirst(Runes(s), done, RunesAt(s, i), r, RunesAt(s, i + w));
  }

  /** Moving the first element of the part still to come onto the part done. */
  lemma MoveFirst<T>(all: seq<T>, done: seq<T>, rest: seq<T>, x: T, tail: seq<T>)
    requires all == done + rest && rest == [x] + tail
    ensures all == (done + [x]) + tail
    ensures all[..|done| + 1] == done + [x]
  {
    assert all == (done + [x]) + tail;
  }

  /** A decoding loop that has reached the end has visited every rune. */
  lemma RunesDone(s: Bytes, done: seq<Rune>)
    requires Decoded(s, |s|, done)
    ensures Runes(s) == done
  {
  }
}
