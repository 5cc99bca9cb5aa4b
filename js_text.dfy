/**
 * Building blocks shared by the regular expressions of the mention code:
 * JavaScript's character classes (`.` and `\s`), literal prefixes, and the
 * full-match semantics of a character class under `{n}` and `+`.
 */
module JsText {

  /** The characters that `.` does not match in a JavaScript regular expression (without the `s` flag). */
  predicate IsLineTerminator(c: char) {
    c == '\n' || c == '\r' || c == '\U{2028}' || c == '\U{2029}'
  }

  /** The characters in JavaScript's `\s` class (WhiteSpace and LineTerminator of ECMAScript). */
  predicate IsWhitespace(c: char) {
    || c == '\t' || c == '\n' || c == '\U{000B}' || c == '\U{000C}' || c == '\r' || c == ' '
    || c == '\U{00A0}' || c == '\U{1680}' || ('\U{2000}' <= c <= '\U{200A}')
    || c == '\U{2028}' || c == '\U{2029}' || c == '\U{202F}' || c == '\U{205F}'
    || c == '\U{3000}' || c == '\U{FEFF}'
  }

  /** `s` begins with the literal `lit`. */
  predicate StartsWith(s: string, lit: string) {
    |lit| <= |s| && s[..|lit|] == lit
  }

  /** A text that starts with `lit` followed by `c` has `c` right after `lit`. */
  lemma StartsWithThen(t: string, lit: string, c: char)
    requires StartsWith(t, lit + [c])
    ensures |lit| < |t| && t[|lit|] == c
  {
    assert t[..|lit| + 1][|lit|] == c;
  }

  /** A text made of `a`, one character `c` and `x`, taken apart again. */
  lemma SplitAfter(s: string, a: string, c: char, x: string)
    requires s == a + [c] + x
    ensures StartsWith(s, a) && |s| > |a| && s[|a|] == c && s[|a| + 1..] == x
  {
    assert s[..|a|] == a;
    assert s[|a| + 1..] == x;
  }

  /** `s.includes(lit)`: the literal occurs somewhere in `s`. */
  predicate Includes(s: string, lit: string)
    decreases |s|
  {
    StartsWith(s, lit) || (s != [] && Includes(s[1..], lit))
  }

  lemma {:induction false} IncludesAt(s: string, lit: string)
    ensures Includes(s, lit) <==> exists i :: 0 <= i <= |s| && StartsWith(s[i..], lit)
    decreases |s|
  {
    if StartsWith(s, lit) {
      assert s[0..] == s;
    }
    if s != [] {
      IncludesAt(s[1..], lit);
      if Includes(s[1..], lit) {
        var i :| 0 <= i <= |s[1..]| && StartsWith(s[1..][i..], lit);
        assert s[1..][i..] == s[i + 1..];
      }
      if i :| 0 < i <= |s| && StartsWith(s[i..], lit) {
        assert s[1..][i - 1..] == s[i..];
      }
    } else {
      if i :| 0 <= i <= |s| && StartsWith(s[i..], lit) {
        assert s[i..] == s;
      }
    }
  }

  /** A text lacking one of the characters of `lit` does not include `lit`. */
  lemma IncludesWithout(s: string, lit: string, c: char)
    requires c in lit && c !in s
    ensures !Includes(s, lit)
  {
    IncludesAt(s, lit);
  }

  /** The strings that the regular expression `[C]{n}` matches in full. */
  predicate RepeatExactly(C: char -> bool, n: nat, s: string)
    decreases n
  {
    if n == 0 then s == [] else s != [] && C(s[0]) && RepeatExactly(C, n - 1, s[1..])
  }

  /** The strings that the regular expression `[C]+` matches in full. */
  predicate RepeatOneOrMore(C: char -> bool, s: string)
    decreases |s|
  {
    s != [] && C(s[0]) && (|s| == 1 || RepeatOneOrMore(C, s[1..]))
  }

  /** `^[C]{n}$` accepts exactly the strings of length `n` over the class. */
  lemma {:induction false} RepeatExactlyIff(C: char -> bool, n: nat, s: string)
    ensures RepeatExactly(C, n, s) <==> |s| == n && forall i :: 0 <= i < |s| ==> C(s[i])
    decreases n
  {
    if n > 0 && s != [] {
      RepeatExactlyIff(C, n - 1, s[1..]);
      assert forall i :: 0 < i < |s| ==> s[i] == s[1..][i - 1];
    }
  }

  /** `^[C]+$` accepts exactly the non-empty strings over the class; in particular not "". */
  lemma {:induction false} RepeatOneOrMoreIff(C: char -> bool, s: string)
    ensures RepeatOneOrMore(C, s) <==> |s| >= 1 && forall i :: 0 <= i < |s| ==> C(s[i])
    decreases |s|
  {
    if |s| > 1 {
      RepeatOneOrMoreIff(C, s[1..]);
      assert forall i :: 0 < i < |s| ==> s[i] == s[1..][i - 1];
    }
  }

  /** `s.replace(/[C]/g, '')`: every character of the class is removed. */
  function RemoveAll(C: char -> bool, s: string): (r: string)
    ensures |r| <= |s|
    ensures forall i :: 0 <= i < |r| ==> !C(r[i])
    decreases |s|
  {
    if s == [] then []
    else if C(s[0]) then RemoveAll(C, s[1..])
    else [s[0]] + RemoveAll(C, s[1..])
  }

  /** Something is left after removing the class iff some character lies outside it. */
  lemma {:induction false} RemoveAllEmptyIff(C: char -> bool, s: string)
    ensures |RemoveAll(C, s)| > 0 <==> exists i :: 0 <= i < |s| && !C(s[i])
    decreases |s|
  {
    if s != [] {
      RemoveAllEmptyIff(C, s[1..]);
      if exists i :: 0 <= i < |s| && !C(s[i]) {
        var i :| 0 <= i < |s| && !C(s[i]);
        if i > 0 { assert s[1..][i - 1] == s[i]; }
      }
      if j :| 0 <= j < |s[1..]| && !C(s[1..][j]) {
        assert s[j + 1] == s[1..][j];
      }
    }
  }
}
