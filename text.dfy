/** Python's `str.isspace` and `str.strip()` (no argument), as the routes apply them to form and JSON input. */
module Text {

  /** The characters for which Python 3's `str.isspace` is true. */
  predicate IsSpace(c: char) {
    var n := c as int;
    || (9 <= n <= 13)           // \t \n \v \f \r
    || (28 <= n <= 32)          // the four separators \x1c-\x1f and ' '
    || n == 0x85 || n == 0xA0
    || n == 0x1680
    || (0x2000 <= n <= 0x200A)
    || n == 0x2028 || n == 0x2029 || n == 0x202F || n == 0x205F || n == 0x3000
  }

  /** True when the string neither starts nor ends with whitespace. */
  predicate Trimmed(s: string) {
    s == [] || (!IsSpace(s[0]) && !IsSpace(s[|s| - 1]))
  }

  /** Number of whitespace characters at the front of `s`. */
  function LeadingSpaces(s: string): (i: nat)
    ensures i <= |s|
    ensures forall k :: 0 <= k < i ==> IsSpace(s[k])
    ensures i < |s| ==> !IsSpace(s[i])
  {
    if s == [] || !IsSpace(s[0]) then 0 else 1 + LeadingSpaces(s[1..])
  }

  /** Number of whitespace characters at the back of `s`. */
  function TrailingSpaces(s: string): (j: nat)
    ensures j <= |s|
    ensures forall k :: |s| - j <= k < |s| ==> IsSpace(s[k])
    ensures j < |s| ==> !IsSpace(s[|s| - 1 - j])
  {
    if s == [] || !IsSpace(s[|s| - 1]) then 0 else 1 + TrailingSpaces(s[..|s| - 1])
  }

  /** `r` is the infix of `s` at offset `i`, and everything of `s` around it is whitespace. */
  ghost predicate InfixAmidSpaces(s: string, r: string, i: int) {
    && 0 <= i <= |s| - |r|
    && r == s[i..i + |r|]
    && (forall k :: 0 <= k < i ==> IsSpace(s[k]))
    && (forall k :: i + |r| <= k < |s| ==> IsSpace(s[k]))
  }

  /** `s.strip()`: the infix of `s` left when whitespace is removed from both ends. */
  function Strip(s: string): (r: string)
    ensures Trimmed(r)
    ensures exists i :: InfixAmidSpaces(s, r, i)
  {
    var i := LeadingSpaces(s);
    var t := s[i..];
    var j := TrailingSpaces(t);
    var r := t[..|t| - j];
    assert forall k :: i + |r| <= k < |s| ==> s[k] == t[k - i];
    assert InfixAmidSpaces(s, r, i);
    r
  }

  /** Whitespace in front of a string does not survive the strip. */
  lemma StripLeadingSpace(c: char, t: string)
    requires IsSpace(c)
    ensures Strip([c] + t) == Strip(t)
  {
    assert ([c] + t)[1..] == t;
    var i := LeadingSpaces(t);
    assert ([c] + t)[1 + i..] == t[i..];
  }

  /** Stripping a string with no whitespace at its ends changes nothing. */
  lemma StripTrimmed(s: string)
    requires Trimmed(s)
    ensures Strip(s) == s
  {
    var r := Strip(s);
    var i :| InfixAmidSpaces(s, r, i);
    if s != [] {
      assert !IsSpace(s[0]) && !IsSpace(s[|s| - 1]);
    }
  }

  /** `strip` is idempotent. */
  lemma StripIdempotent(s: string)
    ensures Strip(Strip(s)) == Strip(s)
  {
    StripTrimmed(Strip(s));
  }

  /** A strip that keeps the length keeps the string. */
  lemma StripSameLength(s: string)
    requires |Strip(s)| == |s|
    ensures Strip(s) == s
  {
    var i :| InfixAmidSpaces(s, Strip(s), i);
  }

  /** A string stripped to nothing held only whitespace, and conversely. */
  lemma StripEmpty(s: string)
    ensures Strip(s) == [] <==> forall k :: 0 <= k < |s| ==> IsSpace(s[k])
  {
    var r := Strip(s);
    var i :| InfixAmidSpaces(s, r, i);
    if r != [] {
      assert s[i] == r[0] && !IsSpace(r[0]);
    }
  }
}
