/**
 * String toolkit shared by the extractors and the renderers: Rust's `str::trim`,
 * `str::len` (a byte count), `starts_with`/`ends_with`, `split`, `join`,
 * `repeat` and decimal formatting of integers.
 */
module Strings {

  /** The Unicode White_Space property, which Rust's `char::is_whitespace` (and so `trim`) uses. */
  predicate IsWhitespace(c: char) {
    ('\t' <= c <= '\r') || c == ' ' || c == '\U{0085}' || c == '\U{00A0}' || c == '\U{1680}'
    || ('\U{2000}' <= c <= '\U{200A}') || c == '\U{2028}' || c == '\U{2029}' || c == '\U{202F}'
    || c == '\U{205F}' || c == '\U{3000}'
  }

  /** Every character is whitespace (Rust: `s.trim().is_empty()`). */
  predicate IsBlank(s: string) {
    forall k :: 0 <= k < |s| ==> IsWhitespace(s[k])
  }

  /** Neither the first nor the last character is whitespace. */
  predicate IsTrimmed(s: string) {
    s == [] || (!IsWhitespace(s[0]) && !IsWhitespace(s[|s| - 1]))
  }

  /** A trimmed string that is not empty, the shape of every text the extractors emit. */
  predicate IsTrimmedNonEmpty(s: string) {
    s != [] && IsTrimmed(s)
  }

  /**
   * Rust's `str::trim`: drop leading and trailing whitespace. Dropping one end
   * character at a time, leading ones first, gives the same string as
   * `trim_start` followed by `trim_end`.
   */
  function Trim(s: string): (r: string)
    ensures IsTrimmed(r)
    ensures |r| <= |s|
    decreases |s|
  {
    if |s| > 0 && IsWhitespace(s[0]) then Trim(s[1..])
    else if |s| > 0 && IsWhitespace(s[|s| - 1]) then Trim(s[..|s| - 1])
    else s
  }

  /**
   * Trimming removes only leading and trailing whitespace: what it keeps is the
   * piece `s[i..j]` of the original, and everything before and after that piece
   * is whitespace.
   */
  lemma {:induction false} TrimSlice(s: string) returns (i: nat, j: nat)
    ensures i <= j <= |s|
    ensures Trim(s) == s[i..j]
    ensures IsBlank(s[..i]) && IsBlank(s[j..])
    decreases |s|
  {
    if |s| > 0 && IsWhitespace(s[0]) {
      var i', j' := TrimSlice(s[1..]);
      i, j := i' + 1, j' + 1;
      SliceBehindBlank(s, i', j');
    } else if |s| > 0 && IsWhitespace(s[|s| - 1]) {
      i, j := TrimSlice(s[..|s| - 1]);
      SliceBeforeBlank(s, i, j);
    } else {
      i, j := 0, |s|;
      assert s[0..|s|] == s;
    }
  }

  /** A piece of `s[1..]` framed by blanks is the piece one further on in `s`, when `s[0]` is blank. */
  lemma SliceBehindBlank(s: string, i: nat, j: nat)
    requires |s| > 0 && IsWhitespace(s[0]) && i <= j <= |s| - 1
    requires IsBlank(s[1..][..i]) && IsBlank(s[1..][j..])
    ensures s[1..][i..j] == s[i + 1..j + 1]
    ensures IsBlank(s[..i + 1]) && IsBlank(s[j + 1..])
  {
    assert s[..i + 1] == [s[0]] + s[1..][..i];
    assert s[j + 1..] == s[1..][j..];
    BlankJoin([s[0]], s[1..][..i]);
  }

  /** A piece of `s` without its last character framed by blanks is framed by blanks in `s`, when that character is blank. */
  lemma SliceBeforeBlank(s: string, i: nat, j: nat)
    requires |s| > 0 && IsWhitespace(s[|s| - 1]) && i <= j <= |s| - 1
    requires IsBlank(s[..|s| - 1][..i]) && IsBlank(s[..|s| - 1][j..])
    ensures s[..|s| - 1][i..j] == s[i..j]
    ensures IsBlank(s[..i]) && IsBlank(s[j..])
  {
    var init := s[..|s| - 1];
    assert s[..i] == init[..i];
    assert s[j..] == init[j..] + [s[|s| - 1]];
    BlankJoin(init[j..], [s[|s| - 1]]);
  }

  lemma BlankJoin(a: string, b: string)
    requires IsBlank(a) && IsBlank(b)
    ensures IsBlank(a + b)
  {
    forall k | 0 <= k < |a + b| ensures IsWhitespace((a + b)[k]) {
      if k >= |a| {
        assert (a + b)[k] == b[k - |a|];
      }
    }
  }

  /** The same fact with the bounds left implicit. */
  lemma TrimKeepsMiddle(s: string)
    ensures exists i, j :: 0 <= i <= j <= |s| && Trim(s) == s[i..j] && IsBlank(s[..i]) && IsBlank(s[j..])
  {
    var i, j := TrimSlice(s);
  }

  /** Trimming leaves nothing exactly when every character is whitespace. */
  lemma {:induction false} TrimEmptyIffBlank(s: string)
    ensures Trim(s) == [] <==> IsBlank(s)
    decreases |s|
  {
    if |s| > 0 && IsWhitespace(s[0]) {
      TrimEmptyIffBlank(s[1..]);
      assert IsBlank(s) <==> IsBlank(s[1..]) by {
        if IsBlank(s[1..]) {
          forall k | 0 <= k < |s| ensures IsWhitespace(s[k]) {
            if k > 0 { assert s[k] == s[1..][k - 1]; }
          }
        }
      }
    } else if |s| > 0 && IsWhitespace(s[|s| - 1]) {
      TrimEmptyIffBlank(s[..|s| - 1]);
      assert !IsBlank(s[..|s| - 1]) && !IsBlank(s) by {
        assert s[..|s| - 1][0] == s[0];
      }
    }
  }

  lemma TrimOfTrimmed(s: string)
    requires IsTrimmed(s)
    ensures Trim(s) == s
  {
  }

  /** Trimming is idempotent: trimming an extracted text again changes nothing. */
  lemma TrimIdempotent(s: string)
    ensures Trim(Trim(s)) == Trim(s)
  {
    TrimOfTrimmed(Trim(s));
  }

  /** Bytes that UTF-8 uses for one Unicode scalar value. */
  function Utf8Width(c: char): nat {
    if c as int < 0x80 then 1
    else if c as int < 0x800 then 2
    else if c as int < 0x1_0000 then 3
    else 4
  }

  /** Rust's `str::len`: the length of the UTF-8 encoding, in bytes. */
  function Utf8Len(s: string): (n: nat)
    ensures |s| <= n <= 4 * |s|
    ensures n == 0 <==> s == []
  {
    if s == [] then 0 else Utf8Width(s[0]) + Utf8Len(s[1..])
  }

  /** `char::to_ascii_lowercase`: `A` to `Z` become `a` to `z`; every other character stays. */
  function AsciiLowerChar(c: char): char {
    if 'A' <= c <= 'Z' then (c as int - 'A' as int + 'a' as int) as char else c
  }

  /** `str::to_ascii_lowercase`, character by character. */
  function AsciiLower(s: string): (r: string)
    ensures |r| == |s|
    ensures forall k :: 0 <= k < |r| ==> !('A' <= r[k] <= 'Z')
  {
    seq(|s|, k requires 0 <= k < |s| => AsciiLowerChar(s[k]))
  }

  /** Lower-casing twice changes nothing more, so "equal ignoring ASCII case" is an equivalence. */
  lemma AsciiLowerIdempotent(s: string)
    ensures AsciiLower(AsciiLower(s)) == AsciiLower(s)
  {
    var r := AsciiLower(s);
    assert forall k :: 0 <= k < |r| ==> AsciiLowerChar(r[k]) == r[k];
  }

  /** A string with no upper-case ASCII letter is its own lower-case form. */
  lemma AsciiLowerOfLower(s: string)
    requires forall k :: 0 <= k < |s| ==> !('A' <= s[k] <= 'Z')
    ensures AsciiLower(s) == s
  {
  }

  predicate StartsWith(s: string, prefix: string) {
    |prefix| <= |s| && s[..|prefix|] == prefix
  }

  predicate EndsWith(s: string, suffix: string) {
    |suffix| <= |s| && s[|s| - |suffix|..] == suffix
  }

  /** Rust's `[String]::join(sep)`. */
  function Join(parts: seq<string>, sep: string): string {
    if |parts| == 0 then ""
    else if |parts| == 1 then parts[0]
    else parts[0] + sep + Join(parts[1..], sep)
  }

  lemma {:induction false} JoinAppend(parts: seq<string>, sep: string, last: string)
    requires |parts| > 0
    ensures Join(parts + [last], sep) == Join(parts, sep) + sep + last
    decreases |parts|
  {
    if |parts| == 1 {
      assert parts + [last] == [parts[0], last];
    } else {
      assert (parts + [last])[1..] == parts[1..] + [last];
      JoinAppend(parts[1..], sep, last);
    }
  }

  /** A character that occurs neither in the parts nor in the separator does not occur in the join. */
  lemma {:induction false} JoinAvoids(parts: seq<string>, sep: string, c: char)
    requires c !in sep
    requires forall k :: 0 <= k < |parts| ==> c !in parts[k]
    ensures c !in Join(parts, sep)
    decreases |parts|
  {
    if |parts| > 1 {
      JoinAvoids(parts[1..], sep, c);
    }
  }

  /**
   * Rust's `str::split(sep)` for a non-empty separator: the pieces between the
   * non-overlapping occurrences of `sep`, found left to right.
   */
  function Split(s: string, sep: string): (parts: seq<string>)
    requires |sep| > 0
    ensures |parts| > 0
    decreases |s|
  {
    if |s| < |sep| then [s]
    else if s[..|sep|] == sep then [""] + Split(s[|sep|..], sep)
    else
      var rest := Split(s[1..], sep);
      [[s[0]] + rest[0]] + rest[1..]
  }

  /** Splitting loses nothing: joining the pieces with the separator gives the text back. */
  lemma {:induction false} JoinSplit(s: string, sep: string)
    requires |sep| > 0
    ensures Join(Split(s, sep), sep) == s
    decreases |s|
  {
    if |s| < |sep| {
    } else if s[..|sep|] == sep {
      var rest := Split(s[|sep|..], sep);
      JoinSplit(s[|sep|..], sep);
      assert Split(s, sep) == [""] + rest;
      JoinCons("", rest, sep);
      assert s == sep + s[|sep|..];
    } else {
      var rest := Split(s[1..], sep);
      JoinSplit(s[1..], sep);
      assert Split(s, sep) == [[s[0]] + rest[0]] + rest[1..];
      JoinExtendFirst(s[0], rest, sep);
      assert s == [s[0]] + s[1..];
    }
  }

  /** `sep` occurs in `s` starting at position `i`. */
  predicate OccursAt(s: string, sep: string, i: nat) {
    i + |sep| <= |s| && s[i..i + |sep|] == sep
  }

  /** `sep` occurs nowhere in `p`. */
  predicate Avoids(p: string, sep: string) {
    forall i: nat :: i < |p| ==> !OccursAt(p, sep, i)
  }

  /** An occurrence one character in, behind `c`, is an occurrence in the rest. */
  lemma OccursBehind(c: char, t: string, sep: string, i: nat)
    ensures OccursAt([c] + t, sep, i + 1) <==> OccursAt(t, sep, i)
  {
    if i + 1 + |sep| <= |[c] + t| {
      assert ([c] + t)[i + 1..i + 1 + |sep|] == t[i..i + |sep|];
    }
  }

  /**
   * `parts` were cut at the leftmost occurrences of `sep`: no occurrence starts
   * inside a piece and the separator that follows it, and the last piece holds
   * no occurrence at all.
   */
  predicate CutAtLeftmost(parts: seq<string>, sep: string) {
    && (forall k: nat, i: nat :: k < |parts| - 1 && i < |parts[k]| ==> !OccursAt(parts[k] + sep, sep, i))
    && (parts != [] ==> Avoids(parts[|parts| - 1], sep))
  }

  /** `str::split` cuts at the leftmost occurrences; with `JoinSplit` this pins the pieces down. */
  lemma {:induction false} SplitLeftmost(s: string, sep: string)
    requires |sep| > 0
    ensures CutAtLeftmost(Split(s, sep), sep)
    decreases |s|
  {
    if |s| < |sep| {
      assert Split(s, sep) == [s];
    } else if s[..|sep|] == sep {
      var rest := Split(s[|sep|..], sep);
      SplitLeftmost(s[|sep|..], sep);
      CutPrepend(rest, sep);
    } else {
      var rest := Split(s[1..], sep);
      SplitLeftmost(s[1..], sep);
      JoinSplit(s[1..], sep);
      assert s == [s[0]] + Join(rest, sep);
      CutExtendFirst(s[0], rest, sep);
    }
  }

  lemma CutPrepend(rest: seq<string>, sep: string)
    requires |rest| > 0 && CutAtLeftmost(rest, sep)
    ensures CutAtLeftmost([""] + rest, sep)
  {
    var parts := [""] + rest;
    forall k: nat, i: nat | k < |parts| - 1 && i < |parts[k]| ensures !OccursAt(parts[k] + sep, sep, i) {
      assert parts[k] == rest[k - 1];
    }
    assert parts[|parts| - 1] == rest[|rest| - 1];
  }

  lemma CutExtendFirst(c: char, rest: seq<string>, sep: string)
    requires |sep| > 0 && |rest| > 0 && CutAtLeftmost(rest, sep)
    requires !OccursAt([c] + Join(rest, sep), sep, 0)
    ensures CutAtLeftmost([[c] + rest[0]] + rest[1..], sep)
  {
    if |rest| > 1 {
      CutExtendFirstOfMany(c, rest, sep);
    } else {
      var first := [c] + rest[0];
      assert [[c] + rest[0]] + rest[1..] == [first] && Join(rest, sep) == rest[0];
      forall i: nat | i < |first| ensures !OccursAt(first, sep, i) {
        if i > 0 {
          OccursBehind(c, rest[0], sep, i - 1);
        }
      }
    }
  }

  lemma CutExtendFirstOfMany(c: char, rest: seq<string>, sep: string)
    requires |sep| > 0 && |rest| > 1 && CutAtLeftmost(rest, sep)
    requires !OccursAt([c] + Join(rest, sep), sep, 0)
    ensures CutAtLeftmost([[c] + rest[0]] + rest[1..], sep)
  {
    var first := [c] + rest[0];
    var parts := [first] + rest[1..];
    assert [c] + Join(rest, sep) == first + sep + Join(rest[1..], sep);
    assert !OccursAt(first + sep, sep, 0) by {
      assert (first + sep)[..|sep|] == ([c] + Join(rest, sep))[..|sep|];
    }
    FirstPieceAvoids(c, rest[0], sep);
    forall k: nat, i: nat | k < |parts| - 1 && i < |parts[k]| ensures !OccursAt(parts[k] + sep, sep, i) {
      if k > 0 {
        assert parts[k] == rest[k];
      }
    }
    assert parts[|parts| - 1] == rest[|rest| - 1];
  }

  /** The piece `[c] + p`, followed by `sep`, has no early occurrence when `p + sep` has none and none starts at 0. */
  lemma FirstPieceAvoids(c: char, p: string, sep: string)
    requires forall i: nat :: i < |p| ==> !OccursAt(p + sep, sep, i)
    requires !OccursAt([c] + p + sep, sep, 0)
    ensures forall i: nat :: i < |[c] + p| ==> !OccursAt([c] + p + sep, sep, i)
  {
    forall i: nat | 0 < i < |[c] + p| ensures !OccursAt([c] + p + sep, sep, i) {
      assert [c] + p + sep == [c] + (p + sep);
      OccursBehind(c, p + sep, sep, i - 1);
    }
  }

  lemma JoinCons(first: string, rest: seq<string>, sep: string)
    requires |rest| > 0
    ensures Join([first] + rest, sep) == first + sep + Join(rest, sep)
  {
    assert ([first] + rest)[1..] == rest;
  }

  lemma JoinExtendFirst(c: char, parts: seq<string>, sep: string)
    requires |parts| > 0
    ensures Join([[c] + parts[0]] + parts[1..], sep) == [c] + Join(parts, sep)
  {
    var ext := [[c] + parts[0]] + parts[1..];
    if |parts| > 1 {
      assert ext[1..] == parts[1..];
    }
  }

  lemma {:induction false} SplitWithout(p: string, c: char)
    requires c !in p
    ensures Split(p, [c]) == [p]
    decreases |p|
  {
    if |p| >= 1 {
      assert p[..1] == [p[0]];
      SplitWithout(p[1..], c);
      assert [p[0]] + p[1..] == p;
    }
  }

  lemma {:induction false} SplitAtFirst(p: string, c: char, t: string)
    requires c !in p
    ensures Split(p + [c] + t, [c]) == [p] + Split(t, [c])
    decreases |p|
  {
    var s := p + [c] + t;
    if |p| == 0 {
      assert s[..1] == [c];
      assert s[1..] == t;
    } else {
      assert s[..1] == [p[0]];
      assert s[1..] == p[1..] + [c] + t;
      SplitAtFirst(p[1..], c, t);
      assert [p[0]] + p[1..] == p;
    }
  }

  /** Joining newline-free lines with a newline and splitting again gives the same lines. */
  lemma {:induction false} SplitJoin(parts: seq<string>, c: char)
    requires |parts| > 0
    requires forall k :: 0 <= k < |parts| ==> c !in parts[k]
    ensures Split(Join(parts, [c]), [c]) == parts
    decreases |parts|
  {
    if |parts| == 1 {
      SplitWithout(parts[0], c);
    } else {
      SplitJoin(parts[1..], c);
      SplitAtFirst(parts[0], c, Join(parts[1..], [c]));
      assert parts[0] + [c] + Join(parts[1..], [c]) == Join(parts, [c]);
      assert [parts[0]] + parts[1..] == parts;
    }
  }

  /** Rust's `str::repeat(n)`. */
  function Repeat(s: string, n: nat): (r: string)
    ensures |r| == n * |s|
  {
    if n == 0 then "" else s + Repeat(s, n - 1)
  }

  /** Repeating `m + n` times is repeating `m` times followed by repeating `n` times. */
  lemma {:induction false} RepeatAdd(s: string, m: nat, n: nat)
    ensures Repeat(s, m + n) == Repeat(s, m) + Repeat(s, n)
    decreases m
  {
    if m > 0 {
      var k := m - 1;
      RepeatAdd(s, k, n);
      assert Repeat(s, m + n) == s + Repeat(s, k + n);
      assert Repeat(s, m) == s + Repeat(s, k);
    }
  }

  /** Repeating once gives the string itself. */
  lemma RepeatOnce(s: string)
    ensures Repeat(s, 1) == s
  {
    assert Repeat(s, 0) == "";
  }

  lemma {:induction false} RepeatChar(c: char, n: nat)
    ensures forall k :: 0 <= k < n ==> Repeat([c], n)[k] == c
  {
    if n > 0 {
      RepeatChar(c, n - 1);
    }
  }

  function DigitChar(d: nat): (c: char)
    requires d < 10
    ensures '0' <= c <= '9'
  {
    ('0' as int + d) as char
  }

  /** Decimal rendering of a natural number, as Rust's `Display` for integers. */
  function NatToString(n: nat): (s: string)
    ensures |s| > 0
    ensures forall k :: 0 <= k < |s| ==> '0' <= s[k] <= '9'
    ensures (n < 10) <==> (|s| == 1)
  {
    if n < 10 then [DigitChar(n)] else NatToString(n / 10) + [DigitChar(n % 10)]
  }

  /** Different numbers have different decimal renderings. */
  lemma {:induction false} NatToStringInjective(m: nat, n: nat)
    requires NatToString(m) == NatToString(n)
    ensures m == n
    decreases m
  {
    if m >= 10 && n >= 10 {
      var sm, sn := NatToString(m), NatToString(n);
      assert sm[|sm| - 1] == DigitChar(m % 10) && sn[|sn| - 1] == DigitChar(n % 10);
      assert sm[..|sm| - 1] == NatToString(m / 10);
      assert sn[..|sn| - 1] == NatToString(n / 10);
      NatToStringInjective(m / 10, n / 10);
    }
  }
}
