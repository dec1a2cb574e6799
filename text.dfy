/**
  The JavaScript string facilities the message validator relies on, over
  strings taken as sequences of Unicode code points: the `\s` white-space
  class, the line terminators `.` does not match, UTF-16 length, `trim`,
  `slice(0, n)`, and the Unicode general categories its character classes
  name. The category of a non-ASCII character is data the model is given;
  the ASCII range is spelled out.
 */
module Text {

  /** The general categories the validator's classes distinguish; all others are `OtherCategory`. */
  datatype Category =
    | Letter            // \p{L}
    | Number            // \p{N}
    | Punctuation       // \p{P}
    | SpaceSeparator    // \p{Zs}
    | OtherSymbol       // \p{So}
    | NonspacingMark    // \p{Mn}
    | SpacingMark       // \p{Mc}
    | EnclosingMark     // \p{Me}
    | OtherCategory

  /**
    The Unicode data the validator needs beyond ASCII: the general category
    of a character and the full lower-casing of a string.
   */
  datatype Unicode = Unicode(category: char -> Category, lower: string -> string)

  /** The general category of an ASCII character. */
  function AsciiCategory(c: char): Category
    requires c < '\U{80}'
  {
    if 'A' <= c <= 'Z' || 'a' <= c <= 'z' then Letter
    else if '0' <= c <= '9' then Number
    else if c == ' ' then SpaceSeparator
    else if c in "!\"#%&'()*,-./:;?@[\\]_{}" then Punctuation
    else OtherCategory   // controls, and the symbols $ + < = > ^ ` | ~ (Sc, Sm, Sk)
  }

  function CategoryOf(u: Unicode, c: char): Category
  {
    if c < '\U{80}' then AsciiCategory(c) else u.category(c)
  }

  /** The class `[\p{L}\p{N}\p{P}\p{Zs}\p{So}\p{Mn}\p{Mc}]`. */
  predicate Allowed(u: Unicode, c: char)
  {
    CategoryOf(u, c) in {Letter, Number, Punctuation, SpaceSeparator, OtherSymbol, NonspacingMark, SpacingMark}
  }

  /** The class `\p{M}`. */
  predicate IsMark(u: Unicode, c: char)
  {
    CategoryOf(u, c) in {NonspacingMark, SpacingMark, EnclosingMark}
  }

  /** The line terminators, which `.` does not match. */
  predicate IsLineTerminator(c: char)
  {
    c == '\n' || c == '\r' || c == '\U{2028}' || c == '\U{2029}'
  }

  /** The class `\s`, which is also what `trim` strips: white space and line terminators. */
  predicate IsSpace(c: char)
  {
    || c == '\t' || c == '\U{B}' || c == '\U{C}' || c == ' ' || c == '\U{A0}' || c == '\U{1680}'
    || ('\U{2000}' <= c <= '\U{200A}') || c == '\U{202F}' || c == '\U{205F}' || c == '\U{3000}' || c == '\U{FEFF}'
    || IsLineTerminator(c)
  }

  /** The number of UTF-16 code units of a code point. */
  function Units(c: char): nat
  {
    if c as int > 0xFFFF then 2 else 1
  }

  /** The string's `length`: its UTF-16 code units. */
  function Utf16Length(s: string): (n: nat)
    ensures |s| <= n <= 2 * |s|
  {
    if s == [] then 0 else Utf16Length(s[..|s| - 1]) + Units(s[|s| - 1])
  }

  /** `slice(0, n)`: the longest prefix whose UTF-16 length is at most `n`. */
  function Truncate(s: string, n: nat): (r: string)
    ensures |r| <= |s| && r == s[..|r|]
    ensures Utf16Length(r) <= n
    ensures |r| < |s| ==> Utf16Length(s[..|r| + 1]) > n
    decreases |s|
  {
    if Utf16Length(s) <= n then s
    else
      var r := Truncate(s[..|s| - 1], n);
      if |r| + 1 < |s| then
        assert s[..|s| - 1][..|r| + 1] == s[..|r| + 1];
        r
      else
        assert s[..|r| + 1] == s;
        r
  }

  /** A string no longer than the limit is not cut. */
  lemma TruncateShort(s: string, n: nat)
    requires Utf16Length(s) <= n
    ensures Truncate(s, n) == s
  {
  }

  /** The white-space prefix `trim` removes, as a count. */
  function LeadingSpace(s: string): (k: nat)
    ensures k <= |s| && (forall i :: 0 <= i < k ==> IsSpace(s[i])) && (k < |s| ==> !IsSpace(s[k]))
  {
    if s == [] || !IsSpace(s[0]) then 0 else 1 + LeadingSpace(s[1..])
  }

  /** The white-space suffix `trim` removes, as a count. */
  function TrailingSpace(s: string): (k: nat)
    ensures k <= |s| && (forall i :: |s| - k <= i < |s| ==> IsSpace(s[i]))
    ensures k < |s| ==> !IsSpace(s[|s| - 1 - k])
  {
    if s == [] || !IsSpace(s[|s| - 1]) then 0 else 1 + TrailingSpace(s[..|s| - 1])
  }

  /** `trim`: the string without leading and trailing white space. */
  function Trim(s: string): (r: string)
    ensures r == [] <==> forall i :: 0 <= i < |s| ==> IsSpace(s[i])
    ensures r != [] ==> !IsSpace(r[0]) && !IsSpace(r[|r| - 1])
    ensures LeadingSpace(s) + |r| <= |s| && r == s[LeadingSpace(s)..LeadingSpace(s) + |r|]
    ensures forall i :: LeadingSpace(s) + |r| <= i < |s| ==> IsSpace(s[i])
  {
    var a := LeadingSpace(s);
    var b := TrailingSpace(s[a..]);
    SpaceShift(s, a, s[a..], b);
    s[a..|s| - b]
  }

  /** Facts about a suffix count of `rest == s[a..]`, moved to positions of `s`. */
  lemma SpaceShift(s: string, a: nat, rest: string, b: nat)
    requires a <= |s| && rest == s[a..] && (a < |s| ==> !IsSpace(s[a]))
    requires b <= |rest| && (forall i :: |rest| - b <= i < |rest| ==> IsSpace(rest[i]))
    requires b < |rest| ==> !IsSpace(rest[|rest| - 1 - b])
    ensures a + b <= |s| && (a < |s| ==> a + b < |s| && !IsSpace(s[|s| - 1 - b]))
    ensures forall i :: |s| - b <= i < |s| ==> IsSpace(s[i])
  {
    if a < |s| {
      assert !IsSpace(rest[0]);
      assert s[|s| - 1 - b] == rest[|rest| - 1 - b];
    }
    forall i | |s| - b <= i < |s|
      ensures IsSpace(s[i])
    {
      assert s[i] == rest[i - a];
    }
  }
}
