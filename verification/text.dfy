/** The JavaScript string vocabulary the handler relies on: the character
    classes of regular expressions and `trim`, and the `startsWith`,
    `endsWith` and `includes` tests. Strings are sequences of Unicode scalar
    values, so a JavaScript string with a lone surrogate has no counterpart. */
module Text {

  /** ECMAScript LineTerminator: the characters after which `^` matches in a
      multiline regular expression. */
  predicate IsLineTerminator(c: char) {
    c == '\n' || c == '\r' || c == '\U{2028}' || c == '\U{2029}'
  }

  /** ECMAScript WhiteSpace: tab, vertical tab, form feed, space, no-break
      space, byte order mark and the space separators of category Zs. */
  predicate IsWhiteSpace(c: char) {
    || c == '\t' || c == '\U{000B}' || c == '\U{000C}' || c == ' '
    || c == '\U{00A0}' || c == '\U{FEFF}' || c == '\U{1680}'
    || ('\U{2000}' <= c <= '\U{200A}')
    || c == '\U{202F}' || c == '\U{205F}' || c == '\U{3000}'
  }

  /** The regular-expression class `\s`, which is also the set `trim` strips. */
  predicate IsSpace(c: char) {
    IsWhiteSpace(c) || IsLineTerminator(c)
  }

  /** No character of `s` is in the class `p`. */
  predicate NoneOf(s: string, p: char -> bool) {
    forall i :: 0 <= i < |s| ==> !p(s[i])
  }

  predicate NoSpace(s: string) {
    NoneOf(s, IsSpace)
  }

  predicate NoLineTerminator(s: string) {
    NoneOf(s, IsLineTerminator)
  }

  lemma NoneOfAppend(a: string, b: string, p: char -> bool)
    ensures NoneOf(a + b, p) <==> NoneOf(a, p) && NoneOf(b, p)
  {
    if NoneOf(a, p) && NoneOf(b, p) {
      forall i | 0 <= i < |a + b| ensures !p((a + b)[i]) {
        if i >= |a| { assert (a + b)[i] == b[i - |a|]; }
      }
    }
    if NoneOf(a + b, p) {
      forall i | 0 <= i < |a| ensures !p(a[i]) {
        assert (a + b)[i] == a[i];
      }
      forall i | 0 <= i < |b| ensures !p(b[i]) {
        assert (a + b)[|a| + i] == b[i];
      }
    }
  }

  /** ASCII lower case, as `toLowerCase` acts on the ASCII letters. */
  function LowerChar(c: char): char {
    if 'A' <= c <= 'Z' then (c as int + 32) as char else c
  }

  /** `s.toLowerCase()` for a string of ASCII characters. */
  function Lower(s: string): string {
    seq(|s|, i requires 0 <= i < |s| => LowerChar(s[i]))
  }

  /** `s.startsWith(prefix)` */
  predicate StartsWith(s: string, prefix: string) {
    |prefix| <= |s| && s[..|prefix|] == prefix
  }

  /** `s.endsWith(suffix)` */
  predicate EndsWith(s: string, suffix: string) {
    |suffix| <= |s| && s[|s| - |suffix|..] == suffix
  }

  predicate OccursAt(s: string, part: string, i: int) {
    0 <= i <= |s| - |part| && s[i..i + |part|] == part
  }

  /** `s.includes(part)` */
  predicate Contains(s: string, part: string) {
    exists i :: 0 <= i <= |s| - |part| && OccursAt(s, part, i)
  }

  /** `part` cannot occur in `s` when `s` lacks one of its characters. */
  lemma AbsentCharacter(s: string, part: string, j: nat)
    requires j < |part|
    requires forall i :: 0 <= i < |s| ==> s[i] != part[j]
    ensures !Contains(s, part)
  {
    forall i | 0 <= i <= |s| - |part| ensures !OccursAt(s, part, i) {
      assert s[i..i + |part|][j] == s[i + j];
    }
  }

  /** The class holding `c` alone. */
  function Just(c: char): char -> bool {
    x => x == c
  }

  predicate NoChar(s: string, c: char) {
    NoneOf(s, Just(c))
  }

  function TrimStart(s: string): (r: string)
    decreases |s|
  {
    if |s| > 0 && IsSpace(s[0]) then TrimStart(s[1..]) else s
  }

  function TrimEnd(s: string): (r: string)
    decreases |s|
  {
    if |s| > 0 && IsSpace(s[|s| - 1]) then TrimEnd(s[..|s| - 1]) else s
  }

  /** `s.trim()` */
  function Trim(s: string): string {
    TrimEnd(TrimStart(s))
  }

  lemma {:induction false} TrimStartEmptyIffBlank(s: string)
    ensures TrimStart(s) == "" <==> forall i :: 0 <= i < |s| ==> IsSpace(s[i])
    decreases |s|
  {
    if |s| > 0 && IsSpace(s[0]) {
      TrimStartEmptyIffBlank(s[1..]);
      assert forall i :: 1 <= i < |s| ==> s[i] == s[1..][i - 1];
    }
  }

  lemma {:induction false} TrimEndOfNonBlank(s: string)
    requires |s| > 0 && !IsSpace(s[0])
    ensures TrimEnd(s) != ""
    decreases |s|
  {
    if IsSpace(s[|s| - 1]) {
      TrimEndOfNonBlank(s[..|s| - 1]);
    }
  }

  /** `!s.trim()` holds exactly when every character of `s` is white space or
      a line terminator (the empty string included). */
  lemma TrimEmptyIffBlank(s: string)
    ensures Trim(s) == "" <==> forall i :: 0 <= i < |s| ==> IsSpace(s[i])
  {
    TrimStartEmptyIffBlank(s);
    var t := TrimStart(s);
    if t != "" {
      TrimStartNonEmpty(s);
      TrimEndOfNonBlank(t);
    }
  }

  lemma {:induction false} TrimStartNonEmpty(s: string)
    requires TrimStart(s) != ""
    ensures !IsSpace(TrimStart(s)[0])
    decreases |s|
  {
    if |s| > 0 && IsSpace(s[0]) {
      TrimStartNonEmpty(s[1..]);
    }
  }
}
