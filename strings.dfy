/** The two byte-string helpers of words/strings.go. Go strings are byte
    strings, so positions and lengths here are byte offsets. */
module Strings {
  import opened Utf8

  /** The number of the first `n` positions at which `correct` and `alt`
      differ. */
  function Mismatches(correct: Bytes, alt: Bytes, n: nat): (r: nat)
    requires n <= |correct| <= |alt|
    ensures r <= n
  {
    if n == 0 then 0
    else Mismatches(correct, alt, n - 1) + (if correct[n - 1] != alt[n - 1] then 1 else 0)
  }

  /** `CountError`: the byte Hamming distance between `correct` and the
      prefix of `alt` of the same length. `alt` must be at least as long:
      the source indexes it by the positions of `correct`. */
  method CountError(correct: Bytes, alt: Bytes) returns (errors: nat)
    requires |alt| >= |correct|
    ensures errors == Mismatches(correct, alt, |correct|)
  {
    errors := 0;
    var i := 0;
    while i < |correct|
      invariant 0 <= i <= |correct|
      invariant errors == Mismatches(correct, alt, i)
    {
      if correct[i] != alt[i] {
        errors := errors + 1;
      }
      i := i + 1;
    }
  }

  /** No error exactly when `correct` is a prefix of `alt`; in particular a
      string has no error against itself. */
  lemma {:induction false} MismatchesZero(correct: Bytes, alt: Bytes, n: nat)
    requires n <= |correct| <= |alt|
    ensures Mismatches(correct, alt, n) == 0 <==> correct[..n] == alt[..n]
  {
    if n > 0 {
      MismatchesZero(correct, alt, n - 1);
      assert correct[..n] == correct[..n - 1] + [correct[n - 1]];
      assert alt[..n] == alt[..n - 1] + [alt[n - 1]];
      if correct[..n] == alt[..n] {
        assert correct[..n - 1] == correct[..n][..n - 1];
        assert alt[..n - 1] == alt[..n][..n - 1];
        assert correct[n - 1] == correct[..n][n - 1];
      }
    }
  }

  lemma NoErrorAgainstItself(s: Bytes)
    ensures Mismatches(s, s, |s|) == 0
  {
    MismatchesZero(s, s, |s|);
  }

  /** Errors only count positions where the two strings differ: if they
      agree outside `[lo, hi)`, there are at most `hi - lo` errors. */
  lemma {:induction false} MismatchesInWindow(correct: Bytes, alt: Bytes, n: nat, lo: nat, hi: nat)
    requires n <= |correct| <= |alt| && lo <= hi
    requires forall k :: 0 <= k < n && !(lo <= k < hi) ==> correct[k] == alt[k]
    ensures Mismatches(correct, alt, n) <= if n <= lo then 0 else if n <= hi then n - lo else hi - lo
  {
    if n > 0 {
      MismatchesInWindow(correct, alt, n - 1, lo, hi);
    }
  }

  /** The four bytes `utf8.EncodeRune` leaves in a zeroed 4-byte buffer. */
  function RuneBuffer(r: Rune): (b: Bytes)
    ensures |b| == 4
    ensures b[..|EncodeRune(r)|] == EncodeRune(r)
  {
    var e := EncodeRune(r);
    e + [0, 0, 0, 0][|e|..]
  }

  /** `ReplaceAtPos`: the bytes before `pos`, the first `w` bytes of the
      encoding of `r`, and the bytes from `pos + w` on. The requires are the
      source's slice bounds: beyond them it panics. */
  function ReplaceAtPos(word: Bytes, pos: int, r: Rune, w: int): (res: Bytes)
    requires pos <= |word| && 0 <= w <= 4
    requires pos + w < |word| ==> 0 <= pos + w
    ensures 0 < pos ==> pos <= |res| && res[..pos] == word[..pos]
    ensures |res| <= |word| + w
  {
    var start := if pos > 0 then word[..pos] else [];
    var middle := RuneBuffer(r)[..w];
    var end := if pos + w < |word| then word[pos + w..] else [];
    start + middle + end
  }

  /** Replacing a window inside the word keeps its length and every byte
      outside the window, and puts the first `w` encoded bytes inside it. */
  lemma ReplaceInside(word: Bytes, pos: nat, r: Rune, w: nat)
    requires pos + w <= |word| && w <= 4
    ensures var res := ReplaceAtPos(word, pos, r, w);
      && |res| == |word|
      && (forall k :: 0 <= k < |word| && !(pos <= k < pos + w) ==> res[k] == word[k])
      && res[pos..pos + w] == RuneBuffer(r)[..w]
  {
    var res := ReplaceAtPos(word, pos, r, w);
    if pos == 0 {
      assert word[..pos] == [];
    }
    if pos + w == |word| {
      assert word[pos + w..] == [];
    }
    assert res == word[..pos] + RuneBuffer(r)[..w] + word[pos + w..];
  }

  /** A replacement inside the word is at most `w` errors away from it, so
      a one-byte substitution stays within one error. */
  lemma ReplaceCostsAtMostWidth(word: Bytes, pos: nat, r: Rune, w: nat)
    requires pos + w <= |word| && w <= 4
    ensures Mismatches(word, ReplaceAtPos(word, pos, r, w), |word|) <= w
  {
    ReplaceInside(word, pos, r, w);
    MismatchesInWindow(word, ReplaceAtPos(word, pos, r, w), |word|, pos, pos + w);
  }

  /** Replacing a one-byte character by itself changes nothing. */
  lemma ReplaceWithSame(word: Bytes, pos: nat)
    requires pos < |word| && word[pos] < 0x80
    ensures ReplaceAtPos(word, pos, word[pos], 1) == word
  {
    ReplaceInside(word, pos, word[pos], 1);
  }

  /** The three substitutions the source's tests expect to give "test". */
  lemma ReplaceExamples()
    ensures ReplaceAtPos([0x74, 0x61, 0x73, 0x74], 1, 0x65, 1) == [0x74, 0x65, 0x73, 0x74]
    ensures ReplaceAtPos([0x74, 0x65, 0x73, 0x73], 3, 0x74, 1) == [0x74, 0x65, 0x73, 0x74]
    ensures ReplaceAtPos([0x61, 0x65, 0x73, 0x74], 0, 0x74, 1) == [0x74, 0x65, 0x73, 0x74]
  {
    ReplaceInside([0x74, 0x61, 0x73, 0x74], 1, 0x65, 1);
    ReplaceInside([0x74, 0x65, 0x73, 0x73], 3, 0x74, 1);
    ReplaceInside([0x61, 0x65, 0x73, 0x74], 0, 0x74, 1);
  }
}
