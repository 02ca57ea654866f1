/**
 * The few operations on Rust strings (`&str`) that the license logic relies on:
 * the byte length `str::len`, `str::split` on a character, `str::trim` and
 * `str::to_uppercase`, together with `char::is_ascii_alphanumeric`.
 * A Rust string is a sequence of Unicode scalar values stored as UTF-8; here it
 * is a `string` (a sequence of `char`) and the UTF-8 length is computed from it.
 */
module Text {

  // ---------------------------------------------------------------------------
  // Characters
  // ---------------------------------------------------------------------------

  predicate IsAscii(c: char) {
    c as int < 0x80
  }

  /** `char::is_ascii_alphanumeric`: 0-9, A-Z or a-z. */
  predicate IsAsciiAlphanumeric(c: char) {
    ('0' <= c <= '9') || ('A' <= c <= 'Z') || ('a' <= c <= 'z')
  }

  /**
   * `char::is_whitespace`: the characters with the Unicode White_Space property
   * (U+0009..U+000D, U+0020, U+0085, U+00A0, U+1680, U+2000..U+200A, U+2028,
   * U+2029, U+202F, U+205F and U+3000).
   */
  predicate IsWhitespace(c: char) {
    var n := c as int;
    (0x09 <= n <= 0x0D) || n == 0x20 || n == 0x85 || n == 0xA0 || n == 0x1680
    || (0x2000 <= n <= 0x200A) || n == 0x2028 || n == 0x2029 || n == 0x202F
    || n == 0x205F || n == 0x3000
  }

  predicate IsAsciiLowercase(c: char) {
    'a' <= c <= 'z'
  }

  /** `char::to_ascii_lowercase`: maps A-Z to a-z and leaves every other character alone. */
  function AsciiLower(c: char): char {
    if 'A' <= c <= 'Z' then (c as int + 32) as char else c
  }

  /**
   * `char::to_ascii_uppercase`: the result is never an ASCII lowercase letter,
   * agrees with `c` once both are lower-cased (so a lowercase letter becomes its
   * own capital), and is `c` itself unless `c` is a lowercase letter.
   */
  function AsciiUpper(c: char): (u: char)
    ensures !IsAsciiLowercase(u)
    ensures AsciiLower(u) == AsciiLower(c)
    ensures !IsAsciiLowercase(c) ==> u == c
    ensures IsWhitespace(u) <==> IsWhitespace(c)
    ensures IsAsciiAlphanumeric(u) <==> IsAsciiAlphanumeric(c)
  {
    if IsAsciiLowercase(c) then (c as int - 32) as char else c
  }

  /** Number of bytes UTF-8 uses for `c` (`char::len_utf8`). */
  function Utf8Width(c: char): (w: nat)
    ensures 1 <= w <= 4
    ensures w == 1 <==> IsAscii(c)
  {
    var n := c as int;
    if n < 0x80 then 1 else if n < 0x800 then 2 else if n < 0x1_0000 then 3 else 4
  }

  // ---------------------------------------------------------------------------
  // Strings
  // ---------------------------------------------------------------------------

  predicate AllAscii(s: string) {
    forall i :: 0 <= i < |s| ==> IsAscii(s[i])
  }

  predicate AllAsciiAlphanumeric(s: string) {
    forall i :: 0 <= i < |s| ==> IsAsciiAlphanumeric(s[i])
  }

  predicate AllWhitespace(s: string) {
    forall i :: 0 <= i < |s| ==> IsWhitespace(s[i])
  }

  /**
   * `str::len`: the length of `s` in bytes of UTF-8. It is never less than the
   * number of characters, and equal to it exactly when every character is ASCII.
   */
  function Utf8Len(s: string): (n: nat)
    ensures n >= |s|
    ensures n == |s| <==> AllAscii(s)
  {
    if s == [] then 0 else Utf8Width(s[0]) + Utf8Len(s[1..])
  }

  /** An alphanumeric string is ASCII, so its byte length is its character count. */
  lemma AlphanumericLength(s: string)
    requires AllAsciiAlphanumeric(s)
    ensures Utf8Len(s) == |s|
  {
    assert AllAscii(s) by {
      forall i | 0 <= i < |s| ensures IsAscii(s[i]) {
        assert IsAsciiAlphanumeric(s[i]);
      }
    }
  }

  // ---------------------------------------------------------------------------
  // Splitting and joining
  // ---------------------------------------------------------------------------

  /**
   * `s.split(sep).collect::<Vec<&str>>()`: the pieces of `s` between occurrences
   * of `sep`, in order. There is always at least one piece (the empty string
   * gives one empty piece) and no piece contains `sep`.
   */
  function Split(s: string, sep: char): (r: seq<string>)
    ensures |r| >= 1
    ensures forall k :: 0 <= k < |r| ==> sep !in r[k]
  {
    if s == [] then [[]]
    else
      var rest := Split(s[1..], sep);
      if s[0] == sep then [[]] + rest
      else [[s[0]] + rest[0]] + rest[1..]
  }

  /** The pieces written back to back with `sep` between neighbours (`slice::join`). */
  function Join(pieces: seq<string>, sep: char): string {
    if pieces == [] then []
    else if |pieces| == 1 then pieces[0]
    else pieces[0] + [sep] + Join(pieces[1..], sep)
  }

  /** The pieces written back to back with nothing between them. */
  function Concat(pieces: seq<string>): string {
    if pieces == [] then [] else pieces[0] + Concat(pieces[1..])
  }

  /** `s` with every occurrence of `c` removed. */
  function Without(s: string, c: char): (r: string)
    ensures c !in r
  {
    if s == [] then [] else (if s[0] == c then [] else [s[0]]) + Without(s[1..], c)
  }

  lemma {:induction false} ConcatAppend(pieces: seq<string>, last: string)
    ensures Concat(pieces + [last]) == Concat(pieces) + last
  {
    if pieces != [] {
      assert (pieces + [last])[1..] == pieces[1..] + [last];
      ConcatAppend(pieces[1..], last);
    }
  }

  /** Joining the pieces of a split gives back the string that was split. */
  lemma {:induction false} JoinSplit(s: string, sep: char)
    ensures Join(Split(s, sep), sep) == s
  {
    if s != [] {
      var rest := Split(s[1..], sep);
      JoinSplit(s[1..], sep);
      if s[0] == sep {
        assert ([[]] + rest)[1..] == rest;
      } else if |rest| == 1 {
        assert Split(s, sep) == [[s[0]] + rest[0]];
      } else {
        var r := Split(s, sep);
        assert r[1..] == rest[1..];
        calc {
          Join(r, sep);
          r[0] + [sep] + Join(rest[1..], sep);
          [s[0]] + (rest[0] + [sep] + Join(rest[1..], sep));
          [s[0]] + Join(rest, sep);
          [s[0]] + s[1..];
          s;
        }
      }
    }
  }

  /** Splitting `a + t` where `a` holds no separator glues `a` onto the first piece of `t`. */
  lemma {:induction false} SplitPrefix(a: string, t: string, sep: char)
    requires sep !in a
    ensures Split(a + t, sep) == [a + Split(t, sep)[0]] + Split(t, sep)[1..]
  {
    if a == [] {
      var r := Split(t, sep);
      assert a + t == t && a + r[0] == r[0];
      assert r == [r[0]] + r[1..];
    } else {
      assert (a + t)[0] == a[0];
      assert (a + t)[1..] == a[1..] + t;
      SplitPrefix(a[1..], t, sep);
      assert [a[0]] + (a[1..] + Split(t, sep)[0]) == a + Split(t, sep)[0];
    }
  }

  /** Splitting the join of separator-free pieces gives back the pieces. */
  lemma {:induction false} SplitJoin(pieces: seq<string>, sep: char)
    requires |pieces| >= 1
    requires forall k :: 0 <= k < |pieces| ==> sep !in pieces[k]
    ensures Split(Join(pieces, sep), sep) == pieces
  {
    if |pieces| == 1 {
      SplitPrefix(pieces[0], [], sep);
      assert pieces[0] + [] == pieces[0];
    } else {
      var tail := Join(pieces[1..], sep);
      assert Join(pieces, sep) == pieces[0] + ([sep] + tail);
      SplitJoin(pieces[1..], sep);
      assert ([sep] + tail)[1..] == tail;
      assert Split([sep] + tail, sep) == [[]] + pieces[1..];
      SplitPrefix(pieces[0], [sep] + tail, sep);
      assert pieces[0] + [] == pieces[0];
      assert ([[]] + pieces[1..])[1..] == pieces[1..];
    }
  }

  /** Concatenating the pieces of a split is the string with the separators dropped. */
  lemma {:induction false} ConcatSplit(s: string, sep: char)
    ensures Concat(Split(s, sep)) == Without(s, sep)
  {
    if s != [] {
      var rest := Split(s[1..], sep);
      ConcatSplit(s[1..], sep);
      if s[0] == sep {
        assert ([[]] + rest)[1..] == rest;
      } else {
        var r := Split(s, sep);
        assert r[1..] == rest[1..];
        assert Concat(rest) == rest[0] + Concat(rest[1..]);
        assert Concat(r) == [s[0]] + rest[0] + Concat(rest[1..]);
      }
    }
  }

  /**
   * The join of pieces that each hold five characters: the separator sits at
   * every index that is 5 modulo 6 and every other index holds the matching
   * character of its piece.
   */
  lemma {:induction false} JoinOfFives(pieces: seq<string>, sep: char)
    requires |pieces| >= 1
    requires forall k :: 0 <= k < |pieces| ==> |pieces[k]| == 5
    ensures |Join(pieces, sep)| == 6 * |pieces| - 1
    ensures forall i :: 0 <= i < 6 * |pieces| - 1 ==>
      Join(pieces, sep)[i] == if i % 6 == 5 then sep else pieces[i / 6][i % 6]
  {
    if |pieces| > 1 {
      var tail := Join(pieces[1..], sep);
      JoinOfFives(pieces[1..], sep);
      var j := Join(pieces, sep);
      assert j == pieces[0] + [sep] + tail;
      forall i | 0 <= i < 6 * |pieces| - 1
        ensures j[i] == if i % 6 == 5 then sep else pieces[i / 6][i % 6]
      {
        if i >= 6 {
          assert j[i] == tail[i - 6];
          assert (i - 6) % 6 == i % 6 && (i - 6) / 6 == i / 6 - 1;
        }
      }
    }
  }

  // ---------------------------------------------------------------------------
  // Trimming and upper-casing
  // ---------------------------------------------------------------------------

  /** The first index at or after `from` that does not hold whitespace (or |s|). */
  function SkipWhitespace(s: string, from: nat): (i: nat)
    requires from <= |s|
    ensures from <= i <= |s|
    ensures forall k :: from <= k < i ==> IsWhitespace(s[k])
    ensures i < |s| ==> !IsWhitespace(s[i])
    decreases |s| - from
  {
    if from < |s| && IsWhitespace(s[from]) then SkipWhitespace(s, from + 1) else from
  }

  /** The end of `s[lo..to]` once its trailing whitespace is dropped. */
  function SkipWhitespaceBack(s: string, lo: nat, to: nat): (j: nat)
    requires lo <= to <= |s|
    ensures lo <= j <= to
    ensures forall k :: j <= k < to ==> IsWhitespace(s[k])
    ensures j > lo ==> !IsWhitespace(s[j - 1])
  {
    if lo < to && IsWhitespace(s[to - 1]) then SkipWhitespaceBack(s, lo, to - 1) else to
  }

  /**
   * `str::trim`: `s` without its leading and trailing whitespace. The result is
   * a piece of `s` whose surroundings in `s` are all whitespace; it is empty
   * exactly when `s` is all whitespace, and otherwise starts and ends with a
   * character that is not whitespace.
   */
  function Trim(s: string): (r: string)
    ensures exists i ::
      && 0 <= i <= |s| - |r| && s[i..i + |r|] == r
      && AllWhitespace(s[..i]) && AllWhitespace(s[i + |r|..])
    ensures r == [] <==> AllWhitespace(s)
    ensures r != [] ==> !IsWhitespace(r[0]) && !IsWhitespace(r[|r| - 1])
  {
    var i := SkipWhitespace(s, 0);
    var j := SkipWhitespaceBack(s, i, |s|);
    TrimShape(s, i, j);
    s[i..j]
  }

  /** Trim's contract for the piece between the leading and the trailing whitespace. */
  lemma TrimShape(s: string, i: nat, j: nat)
    requires i == SkipWhitespace(s, 0) && j == SkipWhitespaceBack(s, i, |s|)
    ensures var r := s[i..j];
      && (exists i' ::
           && 0 <= i' <= |s| - |r| && s[i'..i' + |r|] == r
           && AllWhitespace(s[..i']) && AllWhitespace(s[i' + |r|..]))
      && (r == [] <==> AllWhitespace(s))
      && (r != [] ==> !IsWhitespace(r[0]) && !IsWhitespace(r[|r| - 1]))
  {
    TrimSurroundings(s, i, j);
    TrimEmpty(s, i, j);
  }

  /** The piece Trim keeps sits in `s` with only whitespace on either side. */
  lemma TrimSurroundings(s: string, i: nat, j: nat)
    requires i == SkipWhitespace(s, 0) && j == SkipWhitespaceBack(s, i, |s|)
    ensures 0 <= i <= |s| - |s[i..j]| && s[i..i + |s[i..j]|] == s[i..j]
    ensures AllWhitespace(s[..i]) && AllWhitespace(s[j..])
  {
  }

  /** The piece Trim keeps is empty exactly for an all-whitespace `s`, and is trimmed. */
  lemma TrimEmpty(s: string, i: nat, j: nat)
    requires i == SkipWhitespace(s, 0) && j == SkipWhitespaceBack(s, i, |s|)
    ensures i == j <==> AllWhitespace(s)
    ensures i < j ==> !IsWhitespace(s[i]) && !IsWhitespace(s[j - 1])
  {
    if i == j {
      forall k | 0 <= k < |s| ensures IsWhitespace(s[k]) {
        assert k < i || j <= k;
      }
    }
  }

  /**
   * `str::to_uppercase`, restricted to ASCII letters (see AsciiUpper): the result
   * has the length of `s`, holds no ASCII lowercase letter, equals `s` up to ASCII
   * case, and keeps every character of `s` that is not a lowercase letter (so
   * whitespace stays where it was).
   */
  function ToUppercase(s: string): (r: string)
    ensures |r| == |s|
    ensures forall k :: 0 <= k < |r| ==> !IsAsciiLowercase(r[k])
    ensures forall k :: 0 <= k < |s| ==> AsciiLower(r[k]) == AsciiLower(s[k])
    ensures forall k :: 0 <= k < |s| && !IsAsciiLowercase(s[k]) ==> r[k] == s[k]
    ensures forall k :: 0 <= k < |s| ==> (IsWhitespace(r[k]) <==> IsWhitespace(s[k]))
  {
    seq(|s|, k requires 0 <= k < |s| => AsciiUpper(s[k]))
  }

  /** The contract of ToUppercase leaves one possible result: ASCII upper-casing is a function. */
  lemma UppercaseUnique(s: string, r: string)
    requires |r| == |s|
    requires forall k :: 0 <= k < |r| ==> !IsAsciiLowercase(r[k])
    requires forall k :: 0 <= k < |s| ==> AsciiLower(r[k]) == AsciiLower(s[k])
    ensures r == ToUppercase(s)
  {
    var u := ToUppercase(s);
    forall k | 0 <= k < |s| ensures r[k] == u[k] {
      assert AsciiLower(r[k]) == AsciiLower(u[k]);
    }
  }

  /** Trimming a string that neither starts nor ends with whitespace changes nothing. */
  lemma TrimUntrimmed(s: string)
    requires s != [] ==> !IsWhitespace(s[0]) && !IsWhitespace(s[|s| - 1])
    ensures Trim(s) == s
  {
    assert SkipWhitespace(s, 0) == 0;
    assert SkipWhitespaceBack(s, 0, |s|) == |s|;
    assert s[0..|s|] == s;
  }
}
