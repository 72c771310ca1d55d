/**
 * The string operations of the .NET runtime that the converter's core relies on,
 * each written out over `string`. A `char` here is a Unicode scalar value, not a
 * UTF-16 code unit: a character outside the Basic Multilingual Plane (such as
 * the icons) is one `char` here and two code units in .NET. The only index the
 * core computes is that of "time=" in an ffmpeg output line, and it is only
 * compared with 0, which comes out the same in code units and in scalar values.
 *   - `ToLowerInvariant` and `OrdinalIgnoreCase` comparison, as ASCII case folding;
 *   - `string.Contains(string)`, an ordinal substring search, and
 *     `string.IndexOf(string)`, a culture-sensitive search in .NET, modelled
 *     here as the same ordinal search;
 *   - `string.TrimStart(char)`, `string.Trim()` and `string.Split(char)`.
 */
module Text {

  /** Lower-cases one ASCII letter and leaves every other character alone. */
  function LowerChar(c: char): (r: char)
    ensures 'A' <= c <= 'Z' ==> r as int == c as int + 32
    ensures !('A' <= c <= 'Z') ==> r == c
    ensures !('A' <= r <= 'Z')
  {
    if 'A' <= c <= 'Z' then (c as int + 32) as char else c
  }

  /** `ToLowerInvariant`, restricted to ASCII case folding. */
  function Lower(s: string): (r: string)
    ensures |r| == |s|
    ensures forall i :: 0 <= i < |s| ==> r[i] == LowerChar(s[i])
  {
    seq(|s|, i requires 0 <= i < |s| => LowerChar(s[i]))
  }

  /** A string with no upper-case ASCII letter: what `Lower` produces. */
  predicate IsLowerCase(s: string)
  {
    forall i :: 0 <= i < |s| ==> !('A' <= s[i] <= 'Z')
  }

  lemma LowerIsLowerCase(s: string)
    ensures IsLowerCase(Lower(s))
    ensures IsLowerCase(s) <==> Lower(s) == s
  {
    if IsLowerCase(s) {
      assert Lower(s) == s;
    }
    if Lower(s) == s {
      forall i | 0 <= i < |s| ensures !('A' <= s[i] <= 'Z') {
        assert s[i] == Lower(s)[i];
      }
    }
  }

  /** `a.Equals(b, StringComparison.OrdinalIgnoreCase)` over ASCII case folding. */
  predicate EqualsIgnoreCase(a: string, b: string)
  {
    Lower(a) == Lower(b)
  }

  lemma EqualsIgnoreCaseOfLowerCase(a: string, b: string)
    requires IsLowerCase(a) && IsLowerCase(b)
    ensures EqualsIgnoreCase(a, b) <==> a == b
  {
    LowerIsLowerCase(a);
    LowerIsLowerCase(b);
  }

  /** `pattern` occurs in `s` starting at index `i`. */
  predicate OccursAt(s: string, pattern: string, i: nat)
  {
    i + |pattern| <= |s| && s[i..i + |pattern|] == pattern
  }

  /**
   * `s.IndexOf(pattern)` as an ordinal search: the first occurrence, or None.
   * .NET compares with the current culture here; the two agree on text without
   * ignorable characters or combining marks next to the match.
   */
  function IndexOf(s: string, pattern: string, from: nat := 0): (r: Option<nat>)
    requires from <= |s|
    decreases |s| - from
    ensures r.Some? ==> from <= r.value && OccursAt(s, pattern, r.value)
    ensures r.Some? ==> forall j :: from <= j < r.value ==> !OccursAt(s, pattern, j)
    ensures r.None? ==> forall j :: from <= j <= |s| ==> !OccursAt(s, pattern, j)
  {
    if OccursAt(s, pattern, from) then Some(from)
    else if from == |s| then None
    else IndexOf(s, pattern, from + 1)
  }

  /** `s.Contains(pattern)` with ordinal comparison. */
  predicate Contains(s: string, pattern: string)
  {
    exists i: nat :: i <= |s| && OccursAt(s, pattern, i)
  }

  lemma IndexOfFindsContains(s: string, pattern: string)
    ensures IndexOf(s, pattern).Some? <==> Contains(s, pattern)
  {
    if IndexOf(s, pattern).Some? {
      var i := IndexOf(s, pattern).value;
      assert i <= |s| && OccursAt(s, pattern, i);
    }
  }

  /** `s.TrimStart(c)`: drops every leading occurrence of `c`. */
  function TrimStart(s: string, c: char): (r: string)
    ensures |r| <= |s| && r == s[|s| - |r|..]
    ensures r == [] || r[0] != c
    ensures forall i :: 0 <= i < |s| - |r| ==> s[i] == c
  {
    if s != [] && s[0] == c then TrimStart(s[1..], c) else s
  }

  /**
   * `char.IsWhiteSpace`: the Unicode space separators, the line and paragraph
   * separators, and the control characters U+0009-U+000D, U+0085.
   */
  predicate IsWhiteSpace(c: char)
  {
    c == ' ' || ('\t' <= c <= '\r') || c == '\U{85}' || c == '\U{A0}' || c == '\U{1680}'
    || ('\U{2000}' <= c <= '\U{200A}') || c == '\U{2028}' || c == '\U{2029}' || c == '\U{202F}'
    || c == '\U{205F}' || c == '\U{3000}'
  }

  /** `s.TrimStart()`: drops the leading white space. */
  function TrimLeft(s: string): string
  {
    if s != [] && IsWhiteSpace(s[0]) then TrimLeft(s[1..]) else s
  }

  /** `s.TrimEnd()`: drops the trailing white space. */
  function TrimRight(s: string): string
  {
    if s != [] && IsWhiteSpace(s[|s| - 1]) then TrimRight(s[..|s| - 1]) else s
  }

  /** `s.Trim()`: drops leading and trailing white space. */
  function Trim(s: string): (r: string)
  {
    TrimRight(TrimLeft(s))
  }

  /** `TrimLeft` removes exactly the maximal run of leading white space. */
  lemma {:induction false} TrimLeftDropsLeadingWhiteSpace(s: string)
    ensures var r := TrimLeft(s);
      && |r| <= |s| && r == s[|s| - |r|..]
      && (r == [] || !IsWhiteSpace(r[0]))
      && forall i :: 0 <= i < |s| - |r| ==> IsWhiteSpace(s[i])
    decreases |s|
  {
    if s != [] && IsWhiteSpace(s[0]) {
      TrimLeftDropsLeadingWhiteSpace(s[1..]);
    }
  }

  /** `TrimRight` removes exactly the maximal run of trailing white space. */
  lemma {:induction false} TrimRightDropsTrailingWhiteSpace(s: string)
    ensures var r := TrimRight(s);
      && |r| <= |s| && r == s[..|r|]
      && (r == [] || !IsWhiteSpace(r[|r| - 1]))
      && forall i :: |r| <= i < |s| ==> IsWhiteSpace(s[i])
    decreases |s|
  {
    if s != [] && IsWhiteSpace(s[|s| - 1]) {
      TrimRightDropsTrailingWhiteSpace(s[..|s| - 1]);
    }
  }

  /** `Trim` keeps a contiguous middle part, with only white space before and after it. */
  lemma TrimKeepsMiddle(s: string)
    ensures var k, r := |s| - |TrimLeft(s)|, Trim(s);
      && 0 <= k && k + |r| <= |s| && s[k..k + |r|] == r
      && (forall i :: 0 <= i < k ==> IsWhiteSpace(s[i]))
      && (forall i :: k + |r| <= i < |s| ==> IsWhiteSpace(s[i]))
  {
    var l := TrimLeft(s);
    TrimLeftDropsLeadingWhiteSpace(s);
    TrimRightDropsTrailingWhiteSpace(l);
    var r := TrimRight(l);
    var k := |s| - |l|;
    assert l == s[k..] && r == l[..|r|];
    forall i | 0 <= i < |r| ensures s[k + i] == r[i] {
      assert r[i] == l[i];
    }
    assert s[k..k + |r|] == r;
    forall i | k + |r| <= i < |s| ensures IsWhiteSpace(s[i]) {
      assert s[i] == l[i - k];
    }
  }

  /** What `Trim` keeps neither starts nor ends with white space. */
  lemma TrimmedHasNoOuterWhiteSpace(s: string)
    ensures Trim(s) == [] || (!IsWhiteSpace(Trim(s)[0]) && !IsWhiteSpace(Trim(s)[|Trim(s)| - 1]))
  {
    var l := TrimLeft(s);
    TrimLeftDropsLeadingWhiteSpace(s);
    TrimRightDropsTrailingWhiteSpace(l);
    var r := TrimRight(l);
    if r != [] {
      assert r[0] == l[0];
    }
  }

  /**
   * `s.Split(sep)`: the pieces between the separators, in order; empty pieces are
   * kept, so a string with n separators yields n + 1 pieces.
   */
  function Split(s: string, sep: char): (r: seq<string>)
    ensures |r| >= 1
    ensures forall i :: 0 <= i < |r| ==> sep !in r[i]
    decreases |s|
  {
    if sep !in s then [s]
    else
      var i := FirstIndex(s, sep);
      [s[..i]] + Split(s[i + 1..], sep)
  }

  /** The index of the first `c` in `s`. */
  function FirstIndex(s: string, c: char): (i: nat)
    requires c in s
    ensures i < |s| && s[i] == c && c !in s[..i]
  {
    if s[0] == c then 0 else 1 + FirstIndex(s[1..], c)
  }

  /** `string.Join(sep, pieces)`: the inverse of `Split`. */
  function Join(pieces: seq<string>, sep: char): string
    requires |pieces| >= 1
  {
    if |pieces| == 1 then pieces[0] else pieces[0] + [sep] + Join(pieces[1..], sep)
  }

  /** Splitting loses nothing: joining the pieces with the separator gives back the string. */
  lemma {:induction false} JoinSplit(s: string, sep: char)
    ensures Join(Split(s, sep), sep) == s
    decreases |s|
  {
    if sep in s {
      var i := FirstIndex(s, sep);
      var rest := Split(s[i + 1..], sep);
      assert Split(s, sep) == [s[..i]] + rest;
      assert Join([s[..i]] + rest, sep) == s[..i] + [sep] + Join(rest, sep);
      JoinSplit(s[i + 1..], sep);
      assert s == s[..i] + [sep] + s[i + 1..];
    }
  }

  /**
   * Rendering of a non-negative `int` in decimal, as string interpolation does:
   * digits only, with no leading zero except for zero itself.
   */
  function DecimalString(n: nat): (r: string)
    ensures |r| >= 1
    ensures forall i :: 0 <= i < |r| ==> '0' <= r[i] <= '9'
    ensures r[0] == '0' <==> n == 0
  {
    if n < 10 then [DigitChar(n)] else DecimalString(n / 10) + [DigitChar(n % 10)]
  }

  function DigitChar(d: nat): (c: char)
    requires d < 10
    ensures '0' <= c <= '9' && c as int - '0' as int == d
  {
    ('0' as int + d) as char
  }

  /** Reads back a string of decimal digits. */
  function DecimalValue(s: string): nat
    requires forall i :: 0 <= i < |s| ==> '0' <= s[i] <= '9'
  {
    if s == [] then 0 else 10 * DecimalValue(s[..|s| - 1]) + (s[|s| - 1] as int - '0' as int)
  }

  lemma {:induction false} DecimalRoundTrip(n: nat)
    ensures DecimalValue(DecimalString(n)) == n
  {
    var r := DecimalString(n);
    if n >= 10 {
      DecimalRoundTrip(n / 10);
      assert r[..|r| - 1] == DecimalString(n / 10);
    }
  }

  datatype Option<+T> = None | Some(value: T)
}
