/**
 * The offline license-key check (`validate_license_key` in src-tauri/src/lib.rs).
 * A key is accepted when it reads `XXXXX-XXXXX-XXXXX-XXXXX-XXXXX` with every X an
 * ASCII letter or digit, and the character codes of the 25 alphanumerics add up,
 * modulo 256, to at least 100. The checksum is a filter against typing errors,
 * not a cryptographic check.
 */
module LicenseKey {
  import opened Text

  const Separator: char := '-'
  /** Length of a key in bytes: five segments and four separators. */
  const KeyLength: nat := 29
  const SegmentCount: nat := 5
  const SegmentLength: nat := 5
  /** The inclusive range a checksum must fall in. */
  const MinChecksum: nat := 100
  const MaxChecksum: nat := 255

  // ---------------------------------------------------------------------------
  // The check as the source states it: length, split, segments, checksum
  // ---------------------------------------------------------------------------

  /** A segment is five bytes long and its characters are ASCII alphanumerics. */
  predicate SegmentOk(segment: string) {
    Utf8Len(segment) == SegmentLength && AllAsciiAlphanumeric(segment)
  }

  /** The format half of the check: 29 bytes that split on `-` into five good segments. */
  predicate WellFormed(key: string) {
    && Utf8Len(key) == KeyLength
    && |Split(key, Separator)| == SegmentCount
    && forall k :: 0 <= k < SegmentCount ==> SegmentOk(Split(key, Separator)[k])
  }

  /**
   * The source's accumulator after reading `s` from left to right: each character
   * code is added and the total is reduced modulo 256 at every step. The
   * accumulator is a `u32`; it stays below 256 and a code point is at most
   * 0x10FFFF, so the addition never wraps.
   */
  function RunningChecksum(s: string): (c: nat)
    ensures c < 256
  {
    if s == [] then 0 else (RunningChecksum(s[..|s| - 1]) + s[|s| - 1] as int) % 256
  }

  /** Reading one more character adds its code to the accumulator, modulo 256. */
  lemma RunningChecksumAppend(s: string, c: char)
    ensures RunningChecksum(s + [c]) == (RunningChecksum(s) + c as int) % 256
  {
    assert (s + [c])[..|s|] == s;
  }

  /** The checksum of a key: the running checksum over its segments, in order. */
  function Checksum(key: string): nat {
    RunningChecksum(Concat(Split(key, Separator)))
  }

  /** What `validate_license_key` decides. */
  predicate IsValidKey(key: string) {
    WellFormed(key) && MinChecksum <= Checksum(key) <= MaxChecksum
  }

  // ---------------------------------------------------------------------------
  // The check stated declaratively
  // ---------------------------------------------------------------------------

  /**
   * The canonical shape: 29 characters, `-` at indices 5, 11, 17 and 23 (the
   * indices that are 5 modulo 6) and an ASCII alphanumeric everywhere else.
   */
  predicate Canonical(key: string) {
    && |key| == KeyLength
    && forall i :: 0 <= i < |key| ==>
         if i % 6 == 5 then key[i] == Separator else IsAsciiAlphanumeric(key[i])
  }

  /** The plain sum of the character codes of `s`. */
  function CodeSum(s: string): nat {
    if s == [] then 0 else CodeSum(s[..|s| - 1]) + s[|s| - 1] as int
  }

  /** Reducing modulo 256 after every addition is the same as reducing the total once. */
  lemma {:induction false} RunningChecksumIsSumMod(s: string)
    ensures RunningChecksum(s) == CodeSum(s) % 256
  {
    if s != [] {
      var init := s[..|s| - 1];
      var c := s[|s| - 1] as int;
      RunningChecksumIsSumMod(init);
      var q := CodeSum(init) / 256;
      assert CodeSum(init) == 256 * q + CodeSum(init) % 256;
      assert CodeSum(s) + 0 == 256 * q + (RunningChecksum(init) + c);
    }
  }

  /** The five segments of a canonical key, at indices 0, 6, 12, 18 and 24. */
  function Segments(key: string): (segments: seq<string>)
    requires |key| == KeyLength
    ensures |segments| == SegmentCount
    ensures forall g :: 0 <= g < SegmentCount ==> |segments[g]| == SegmentLength
  {
    seq(SegmentCount, g requires 0 <= g < SegmentCount => key[6 * g .. 6 * g + 5])
  }

  /** The format half of the check holds exactly for keys of the canonical shape. */
  lemma WellFormedIffCanonical(key: string)
    ensures WellFormed(key) <==> Canonical(key)
  {
    if WellFormed(key) {
      var segments := Split(key, Separator);
      forall k | 0 <= k < SegmentCount ensures |segments[k]| == SegmentLength {
        AlphanumericLength(segments[k]);
      }
      JoinSplit(key, Separator);
      JoinOfFives(segments, Separator);
      forall i | 0 <= i < |key|
        ensures if i % 6 == 5 then key[i] == Separator else IsAsciiAlphanumeric(key[i])
      {
        if i % 6 != 5 {
          assert key[i] == segments[i / 6][i % 6];
        }
      }
    }
    if Canonical(key) {
      var segments := Segments(key);
      CanonicalSplit(key);
      assert AllAscii(key) by {
        forall i | 0 <= i < |key| ensures IsAscii(key[i]) {
          assert i % 6 == 5 || IsAsciiAlphanumeric(key[i]);
        }
      }
      forall g | 0 <= g < SegmentCount ensures SegmentOk(segments[g]) {
        AlphanumericLength(segments[g]);
      }
    }
  }

  /** A canonical key splits on `-` into exactly its five alphanumeric segments. */
  lemma CanonicalSplit(key: string)
    requires Canonical(key)
    ensures Split(key, Separator) == Segments(key)
    ensures forall g :: 0 <= g < SegmentCount ==> AllAsciiAlphanumeric(Segments(key)[g])
  {
    var segments := Segments(key);
    forall g | 0 <= g < SegmentCount
      ensures AllAsciiAlphanumeric(segments[g]) && Separator !in segments[g]
    {
      forall j | 0 <= j < SegmentLength ensures IsAsciiAlphanumeric(segments[g][j]) {
        assert segments[g][j] == key[6 * g + j];
        assert (6 * g + j) % 6 == j;
      }
    }
    JoinOfFives(segments, Separator);
    var joined := Join(segments, Separator);
    forall i | 0 <= i < |key| ensures joined[i] == key[i] {
      if i % 6 != 5 {
        assert segments[i / 6][i % 6] == key[6 * (i / 6) + i % 6];
      }
    }
    assert joined == key;
    SplitJoin(segments, Separator);
  }

  /**
   * The whole check, declaratively: a key is accepted exactly when it has the
   * canonical shape and the codes of its characters other than `-` sum, modulo
   * 256, to at least 100. The upper bound 255 never rejects anything.
   */
  lemma ValidKeyIff(key: string)
    ensures IsValidKey(key) <==>
      Canonical(key) && CodeSum(Without(key, Separator)) % 256 >= MinChecksum
  {
    WellFormedIffCanonical(key);
    ConcatSplit(key, Separator);
    RunningChecksumIsSumMod(Without(key, Separator));
  }

  /** A string of copies of one character has code sum its length times that code. */
  lemma {:induction false} CodeSumUniform(s: string, c: char)
    requires forall i :: 0 <= i < |s| ==> s[i] == c
    ensures CodeSum(s) == |s| * (c as int)
  {
    if s != [] {
      CodeSumUniform(s[..|s| - 1], c);
    }
  }

  /** Concatenated pieces of length five, all copies of one character. */
  lemma {:induction false} ConcatUniform(pieces: seq<string>, c: char)
    requires forall g :: 0 <= g < |pieces| ==> |pieces[g]| == SegmentLength
    requires forall g, j :: 0 <= g < |pieces| && 0 <= j < |pieces[g]| ==> pieces[g][j] == c
    ensures |Concat(pieces)| == SegmentLength * |pieces|
    ensures forall i :: 0 <= i < |Concat(pieces)| ==> Concat(pieces)[i] == c
  {
    if pieces != [] {
      ConcatUniform(pieces[1..], c);
    }
  }

  /**
   * A canonical key whose 25 alphanumerics are all `c` has code sum 25 times the
   * code of `c` once the separators are dropped.
   */
  lemma UniformKeyCodeSum(key: string, c: char)
    requires Canonical(key)
    requires forall i :: 0 <= i < |key| && i % 6 != 5 ==> key[i] == c
    ensures CodeSum(Without(key, Separator)) == 25 * (c as int)
  {
    var segments := Segments(key);
    CanonicalSplit(key);
    ConcatSplit(key, Separator);
    forall g, j | 0 <= g < SegmentCount && 0 <= j < SegmentLength
      ensures segments[g][j] == c
    {
      assert segments[g][j] == key[6 * g + j];
      assert (6 * g + j) % 6 == j;
    }
    ConcatUniform(segments, c);
    CodeSumUniform(Concat(segments), c);
  }

  /** Valid keys exist: five groups of `B` sum to 1650, which is 114 modulo 256. */
  lemma AllBKeyIsValid(key: string)
    requires key == "BBBBB-BBBBB-BBBBB-BBBBB-BBBBB"
    ensures IsValidKey(key)
  {
    UniformShape(key, 'B');
    UniformKey(key, 'B');
  }

  /** Five groups of `A` sum to 1625, which is 89 modulo 256: just below the threshold. */
  lemma AllAKeyIsInvalid(key: string)
    requires key == "AAAAA-AAAAA-AAAAA-AAAAA-AAAAA"
    ensures !IsValidKey(key)
  {
    UniformShape(key, 'A');
    UniformKey(key, 'A');
  }

  /** The key of five groups of five copies of `c`, checked index by index. */
  lemma UniformShape(key: string, c: char)
    requires key == [c, c, c, c, c, Separator, c, c, c, c, c, Separator, c, c, c, c, c,
                     Separator, c, c, c, c, c, Separator, c, c, c, c, c]
    ensures forall i :: 0 <= i < |key| ==> key[i] == if i % 6 == 5 then Separator else c
  {
  }

  /** The acceptance of a key made of one repeated letter, decided by its checksum alone. */
  lemma UniformKey(key: string, c: char)
    requires |key| == KeyLength && IsAsciiAlphanumeric(c)
    requires forall i :: 0 <= i < |key| ==> key[i] == if i % 6 == 5 then Separator else c
    ensures IsValidKey(key) <==> (25 * (c as int)) % 256 >= MinChecksum
  {
    ValidKeyIff(key);
    UniformKeyCodeSum(key, c);
  }

  // ---------------------------------------------------------------------------
  // The implementation
  // ---------------------------------------------------------------------------

  /**
   * The checksum loops of `validate_license_key`: every character of every
   * segment, in order, added to an accumulator that is reduced modulo 256.
   */
  method SegmentsChecksum(segments: seq<string>) returns (checksum: nat)
    ensures checksum == RunningChecksum(Concat(segments))
  {
    checksum := 0;
    for k := 0 to |segments|
      invariant checksum == RunningChecksum(Concat(segments[..k]))
    {
      var segment := segments[k];
      ghost var done := Concat(segments[..k]);
      assert done + segment[..0] == done;
      for j := 0 to |segment|
        invariant checksum == RunningChecksum(done + segment[..j])
      {
        assert done + segment[..j + 1] == (done + segment[..j]) + [segment[j]];
        RunningChecksumAppend(done + segment[..j], segment[j]);
        checksum := (checksum + segment[j] as int) % 256;
      }
      assert segment[..|segment|] == segment;
      assert segments[..k + 1] == segments[..k] + [segment];
      ConcatAppend(segments[..k], segment);
    }
    assert segments[..|segments|] == segments;
  }

  /**
   * `validate_license_key`: early exits on the byte length, the segment count and
   * each segment in turn, then the running checksum over all segments.
   */
  method ValidateLicenseKey(key: string) returns (valid: bool)
    ensures valid == IsValidKey(key)
  {
    if Utf8Len(key) != KeyLength {
      return false;
    }
    var segments := Split(key, Separator);
    if |segments| != SegmentCount {
      return false;
    }
    for k := 0 to |segments|
      invariant forall m :: 0 <= m < k ==> SegmentOk(segments[m])
    {
      if Utf8Len(segments[k]) != SegmentLength {
        return false;
      }
      if !AllAsciiAlphanumeric(segments[k]) {
        return false;
      }
    }
    var checksum := SegmentsChecksum(segments);
    return MinChecksum <= checksum <= MaxChecksum;
  }
}
