/**
 * The whitespace notions the validator relies on: the characters that
 * ECMAScript's `String.prototype.trim` removes and that the regular-expression
 * class `\s` matches (WhiteSpace and LineTerminator code points), and `trim`.
 */
module Text {

  /** ECMAScript LineTerminator: the characters a regular-expression `.` does not match. */
  predicate IsLineTerminator(c: char) {
    c == '\n' || c == '\r' || c == '\U{2028}' || c == '\U{2029}'
  }

  /** ECMAScript WhiteSpace or LineTerminator. */
  predicate IsWhitespace(c: char) {
    IsLineTerminator(c)
    || c == '\t' || c == '\U{000B}' || c == '\U{000C}' || c == ' '
    || c == '\U{00A0}' || c == '\U{1680}' || ('\U{2000}' <= c <= '\U{200A}')
    || c == '\U{202F}' || c == '\U{205F}' || c == '\U{3000}' || c == '\U{FEFF}'
  }

  predicate AllWhitespace(s: string) {
    forall i :: 0 <= i < |s| ==> IsWhitespace(s[i])
  }

  /** Drops the leading whitespace of `s`. */
  function TrimStart(s: string): string
    decreases |s|
  {
    if s != [] && IsWhitespace(s[0]) then TrimStart(s[1..]) else s
  }

  /** Drops the trailing whitespace of `s`. */
  function TrimEnd(s: string): string
    decreases |s|
  {
    if s != [] && IsWhitespace(s[|s| - 1]) then TrimEnd(s[..|s| - 1]) else s
  }

  /** `String.prototype.trim`: drops whitespace at both ends. */
  function Trim(s: string): string {
    TrimEnd(TrimStart(s))
  }

  /** `TrimStart(s)` is the suffix of `s` left after a run of whitespace, and does not start with whitespace. */
  lemma {:induction false} TrimStartSpec(s: string)
    ensures |TrimStart(s)| <= |s| && TrimStart(s) == s[|s| - |TrimStart(s)|..]
    ensures AllWhitespace(s[..|s| - |TrimStart(s)|])
    ensures TrimStart(s) == [] || !IsWhitespace(TrimStart(s)[0])
    decreases |s|
  {
    if s != [] && IsWhitespace(s[0]) {
      var t := s[1..];
      TrimStartSpec(t);
      var k := |t| - |TrimStart(t)|;
      assert s[..k + 1] == [s[0]] + t[..k];
    }
  }

  /** `TrimEnd(s)` is the prefix of `s` before a run of whitespace, and does not end with whitespace. */
  lemma {:induction false} TrimEndSpec(s: string)
    ensures |TrimEnd(s)| <= |s| && TrimEnd(s) == s[..|TrimEnd(s)|]
    ensures AllWhitespace(s[|TrimEnd(s)|..])
    ensures TrimEnd(s) == [] || !IsWhitespace(TrimEnd(s)[|TrimEnd(s)| - 1])
    decreases |s|
  {
    if s != [] && IsWhitespace(s[|s| - 1]) {
      var t := s[..|s| - 1];
      TrimEndSpec(t);
      var k := |TrimEnd(t)|;
      assert s[k..] == t[k..] + [s[|s| - 1]];
    }
  }

  /** `Trim(s)` is the infix of `s` between a whitespace prefix and a whitespace suffix, and starts and ends with a non-whitespace character. */
  lemma TrimIsInfix(s: string)
    ensures exists i :: (0 <= i <= |s| - |Trim(s)| && Trim(s) == s[i..i + |Trim(s)|]
                         && AllWhitespace(s[..i]) && AllWhitespace(s[i + |Trim(s)|..]))
    ensures Trim(s) == [] || (!IsWhitespace(Trim(s)[0]) && !IsWhitespace(Trim(s)[|Trim(s)| - 1]))
  {
    var t := TrimStart(s);
    TrimStartSpec(s);
    TrimEndSpec(t);
    var r := TrimEnd(t);
    var i := |s| - |t|;
    assert r == s[i..i + |r|];
    assert s[i + |r|..] == t[|r|..];
  }

  /** `s.trim().length === 0` holds exactly when every character of `s` is whitespace. */
  lemma TrimEmptyIffAllWhitespace(s: string)
    ensures |Trim(s)| == 0 <==> AllWhitespace(s)
  {
    TrimStartSpec(s);
    TrimEndSpec(TrimStart(s));
  }
}
