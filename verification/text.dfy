/** The pieces of Python's `str` and `re` behaviour the validators rely on:
    character classes, `str.strip()`, slicing `[:n]`, removal of a character
    class with `re.sub`, and the meaning of `$` under `re.match`. */
module Text {

  predicate IsAsciiDigit(c: char) {
    '0' <= c <= '9'
  }

  predicate IsAsciiLetter(c: char) {
    'A' <= c <= 'Z' || 'a' <= c <= 'z'
  }

  /** Python's `str.isspace()`. It is also what `\s` matches in a `str`
      pattern and what `str.strip()` removes: the ASCII controls TAB to CR,
      the four information separators, SPACE, NEL, NO-BREAK SPACE and the
      Unicode space separators and line/paragraph separators. */
  predicate IsSpace(c: char) {
    || '\t' <= c <= '\r'
    || '\U{1C}' <= c <= '\U{1F}'
    || c == ' '
    || c == '\U{85}'
    || c == '\U{A0}'
    || c == '\U{1680}'
    || '\U{2000}' <= c <= '\U{200A}'
    || c == '\U{2028}'
    || c == '\U{2029}'
    || c == '\U{202F}'
    || c == '\U{205F}'
    || c == '\U{3000}'
  }

  predicate AllAsciiDigits(s: string) {
    forall i :: 0 <= i < |s| ==> IsAsciiDigit(s[i])
  }

  /** The number of whitespace characters `s` starts with. */
  function LeadingSpaces(s: string): (k: nat)
    ensures k <= |s|
    ensures forall i :: 0 <= i < k ==> IsSpace(s[i])
    ensures k == |s| || !IsSpace(s[k])
  {
    if |s| > 0 && IsSpace(s[0]) then 1 + LeadingSpaces(s[1..]) else 0
  }

  /** The length of `s` without the whitespace it ends with. */
  function EndOfText(s: string): (j: nat)
    ensures j <= |s|
    ensures forall i :: j <= i < |s| ==> IsSpace(s[i])
    ensures j == 0 || !IsSpace(s[j - 1])
  {
    if |s| > 0 && IsSpace(s[|s| - 1]) then EndOfText(s[..|s| - 1]) else |s|
  }

  /** Python's `s.strip()` with no argument. */
  function Strip(s: string): (r: string)
    ensures |r| <= |s|
    ensures r == [] || (!IsSpace(r[0]) && !IsSpace(r[|r| - 1]))
    ensures LeadingSpaces(s) + |r| <= |s| && r == s[LeadingSpaces(s)..LeadingSpaces(s) + |r|]
    ensures forall k :: 0 <= k < |s| && !IsSpace(s[k]) ==>
              LeadingSpaces(s) <= k < LeadingSpaces(s) + |r|
  {
    var i := LeadingSpaces(s);
    var t := s[i..];
    var r := t[..EndOfText(t)];
    assert r == s[i..i + |r|];
    r
  }

  /** Python's `s[:n]` for `n >= 0`. */
  function Prefix(s: string, n: nat): (r: string)
    ensures |r| <= n
    ensures |r| == if |s| <= n then |s| else n
    ensures r == s[..|r|]
  {
    if |s| <= n then s else s[..n]
  }

  /** Python's `re.sub(r"[C]", "", s)` for a character class `C` that
      contains exactly the characters `drop` holds of: every character of the
      class is deleted and the others are kept in order. */
  function RemoveAll(drop: char -> bool, s: string): (r: string)
    ensures |r| <= |s|
    ensures forall i :: 0 <= i < |r| ==> !drop(r[i])
    ensures (forall i :: 0 <= i < |s| ==> !drop(s[i])) ==> r == s
    ensures forall c :: !drop(c) ==> multiset(r)[c] == multiset(s)[c]
  {
    if s == [] then []
    else
      assert s == [s[0]] + s[1..];
      if drop(s[0]) then RemoveAll(drop, s[1..])
      else [s[0]] + RemoveAll(drop, s[1..])
  }

  /** On a single character, removal deletes it when it is in the class and
      keeps it otherwise. With `RemoveAllConcat` this fixes the result on
      every text: the kept characters, in their original order. */
  lemma RemoveAllSingle(drop: char -> bool, c: char)
    ensures RemoveAll(drop, [c]) == if drop(c) then [] else [c]
  {
  }

  /** Removal works piecewise: what is removed from a concatenation is what
      is removed from each part. */
  lemma {:induction false} RemoveAllConcat(drop: char -> bool, a: string, b: string)
    ensures RemoveAll(drop, a + b) == RemoveAll(drop, a) + RemoveAll(drop, b)
  {
    if a == [] {
      assert a + b == b;
    } else {
      assert (a + b)[1..] == a[1..] + b;
      RemoveAllConcat(drop, a[1..], b);
    }
  }

  /** Python's `re.match(r"^X$", s)` for a pattern body `X` that accepts
      exactly the strings `body` holds of: without MULTILINE, `$` matches at
      the very end of `s` and also just before a newline that is the last
      character of `s`. */
  predicate MatchesToEnd(body: string -> bool, s: string)
    ensures body(s) ==> MatchesToEnd(body, s)
    ensures (s == [] || s[|s| - 1] != '\n') ==> (MatchesToEnd(body, s) <==> body(s))
  {
    || body(s)
    || (|s| > 0 && s[|s| - 1] == '\n' && body(s[..|s| - 1]))
  }

  /** Text ending in a newline matches exactly when the pattern body
      accepts it whole or accepts it without that final newline. */
  lemma MatchesToEndNewline(body: string -> bool, t: string)
    ensures MatchesToEnd(body, t + ['\n']) <==> body(t + ['\n']) || body(t)
  {
    assert (t + ['\n'])[..|t|] == t;
  }

  /** A string whose leading and trailing characters are not whitespace is
      its own strip. */
  lemma StripOfStripped(s: string)
    requires s == [] || (!IsSpace(s[0]) && !IsSpace(s[|s| - 1]))
    ensures Strip(s) == s
  {
    if s != [] {
      assert LeadingSpaces(s) == 0;
      assert EndOfText(s) == |s|;
    }
  }

  /** Stripping twice strips nothing more. */
  lemma StripIdempotent(s: string)
    ensures Strip(Strip(s)) == Strip(s)
  {
    StripOfStripped(Strip(s));
  }

  /** The strip of `s` is empty exactly when `s` is all whitespace. */
  lemma StripEmptyIffAllSpace(s: string)
    ensures Strip(s) == [] <==> forall i :: 0 <= i < |s| ==> IsSpace(s[i])
  {
    if forall i :: 0 <= i < |s| ==> IsSpace(s[i]) {
      assert LeadingSpaces(s) == |s|;
    }
  }
}
