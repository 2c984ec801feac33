/** The few JavaScript `String` operations the QR form relies on:
    `trim`, `startsWith`, a first-occurrence `replace`, ASCII case folding
    as a non-Unicode `/i` regular expression applies it, and scanning for a
    character or a line terminator. */
module JsString {

  /** ECMAScript LineTerminator code points: LF, CR, LS and PS. These are
      also the characters a regular expression's `.` does not match and
      where a multiline `^` or `$` may sit. */
  predicate IsLineTerminator(c: char) {
    c == '\n' || c == '\r' || c == '\U{2028}' || c == '\U{2029}'
  }

  /** ECMAScript WhiteSpace (TAB, VT, FF, ZWNBSP and every space separator)
      or LineTerminator: exactly what `String.prototype.trim` strips. */
  predicate IsWhitespace(c: char) {
    || IsLineTerminator(c)
    || c == '\t' || c == '\U{000B}' || c == '\U{000C}' || c == '\U{FEFF}'
    || c == ' ' || c == '\U{00A0}' || c == '\U{1680}'
    || ('\U{2000}' <= c <= '\U{200A}')
    || c == '\U{202F}' || c == '\U{205F}' || c == '\U{3000}'
  }

  predicate AllWhitespace(s: string) {
    forall i :: 0 <= i < |s| ==> IsWhitespace(s[i])
  }

  /** A string `trim` leaves alone: empty, or neither end is whitespace. */
  predicate IsTrimmed(s: string) {
    s == [] || (!IsWhitespace(s[0]) && !IsWhitespace(s[|s| - 1]))
  }

  /** Number of whitespace characters at the start of `s`. */
  function LeadingWhitespace(s: string): (n: nat)
    ensures n <= |s|
    ensures AllWhitespace(s[..n])
    ensures n < |s| ==> !IsWhitespace(s[n])
  {
    if s != [] && IsWhitespace(s[0]) then 1 + LeadingWhitespace(s[1..]) else 0
  }

  /** Index where the whitespace at the end of `s` begins. */
  function TrailingWhitespaceStart(s: string): (n: nat)
    ensures n <= |s|
    ensures AllWhitespace(s[n..])
    ensures 0 < n ==> !IsWhitespace(s[n - 1])
  {
    if s != [] && IsWhitespace(s[|s| - 1]) then TrailingWhitespaceStart(s[..|s| - 1]) else |s|
  }

  /** `s.trim()`. */
  function Trim(s: string): (r: string)
    ensures IsTrimmed(r)
    ensures r == [] <==> AllWhitespace(s)
    ensures exists i, j :: 0 <= i <= j <= |s| && r == s[i..j] && AllWhitespace(s[..i]) && AllWhitespace(s[j..])
  {
    var i := LeadingWhitespace(s);
    var t := s[i..];
    var j := TrailingWhitespaceStart(t);
    assert s[i..][..j] == s[i..i + j];
    assert s[i + j..] == t[j..];
    AllWhitespaceJoin(s, i);
    t[..j]
  }

  /** When both the first `i` characters and the rest of `s` are
      whitespace, all of `s` is. */
  lemma AllWhitespaceJoin(s: string, i: nat)
    requires i <= |s|
    ensures AllWhitespace(s[..i]) && AllWhitespace(s[i..]) ==> AllWhitespace(s)
  {
    if AllWhitespace(s[..i]) && AllWhitespace(s[i..]) {
      forall k | 0 <= k < |s| ensures IsWhitespace(s[k]) {
        if k < i { assert s[k] == s[..i][k]; } else { assert s[k] == s[i..][k - i]; }
      }
    }
  }

  /** `!s.trim()`: the string is empty once trimmed. */
  predicate IsBlank(s: string) {
    AllWhitespace(s)
  }

  /** Whatever surrounds a trimmed core with whitespace, `trim` returns
      that core: the result of `trim` is determined by this description. */
  lemma {:induction false} TrimOfPadded(w1: string, core: string, w2: string)
    requires AllWhitespace(w1) && AllWhitespace(w2) && IsTrimmed(core)
    ensures Trim(w1 + core + w2) == core
  {
    var s := w1 + core + w2;
    LeadingOfPadded(w1, core + w2);
    assert s == w1 + (core + w2);
    var t := s[|w1|..];
    assert t == core + w2;
    if core == [] {
      assert AllWhitespace(s) by {
        forall k | 0 <= k < |s| ensures IsWhitespace(s[k]) {
          if k < |w1| { assert s[k] == w1[k]; } else { assert s[k] == w2[k - |w1|]; }
        }
      }
    } else {
      TrailingOfPadded(core, w2);
    }
  }

  lemma {:induction false} LeadingOfPadded(w: string, rest: string)
    requires AllWhitespace(w)
    requires rest == [] || !IsWhitespace(rest[0]) || AllWhitespace(rest)
    ensures rest == [] || !IsWhitespace(rest[0]) ==> LeadingWhitespace(w + rest) == |w|
    decreases |w|
  {
    if w != [] {
      assert (w + rest)[1..] == w[1..] + rest;
      LeadingOfPadded(w[1..], rest);
    } else {
      assert w + rest == rest;
    }
  }

  lemma {:induction false} TrailingOfPadded(core: string, w: string)
    requires AllWhitespace(w) && core != [] && !IsWhitespace(core[|core| - 1])
    ensures TrailingWhitespaceStart(core + w) == |core|
    decreases |w|
  {
    if w != [] {
      assert (core + w)[..|core + w| - 1] == core + w[..|w| - 1];
      TrailingOfPadded(core, w[..|w| - 1]);
    } else {
      assert core + w == core;
    }
  }

  /** `s.startsWith(p)`. */
  predicate StartsWith(s: string, p: string) {
    |p| <= |s| && s[..|p|] == p
  }

  /** The ASCII upper-case letter for a lower-case one, any other character
      unchanged. Without the `u` flag a case-insensitive regular expression
      never folds a non-ASCII character onto an ASCII one, so for patterns
      made of ASCII this is its whole notion of case. */
  function UpperAscii(c: char): (u: char)
    ensures 'a' <= c <= 'z' ==> 'A' <= u <= 'Z' && u as int == c as int - 32
    ensures !('a' <= c <= 'z') ==> u == c
  {
    if 'a' <= c <= 'z' then (c as int - 32) as char else c
  }

  /** `s` starts with `p` when letters are compared regardless of case. */
  predicate StartsWithIgnoreCase(s: string, p: string) {
    |p| <= |s| && forall i :: 0 <= i < |p| ==> UpperAscii(s[i]) == UpperAscii(p[i])
  }

  /** `x` spells `p` when letters are compared regardless of case. */
  predicate EqualIgnoreCase(x: string, p: string) {
    |x| == |p| && forall i :: 0 <= i < |p| ==> UpperAscii(x[i]) == UpperAscii(p[i])
  }

  lemma EqualIgnoreCaseSame(p: string)
    ensures EqualIgnoreCase(p, p)
  {
  }

  /** A text that begins with `p` in any case starts with `p` ignoring case. */
  lemma PrefixIgnoringCase(x: string, p: string, y: string)
    requires EqualIgnoreCase(x, p)
    ensures StartsWithIgnoreCase(x + y, p)
  {
    assert forall i :: 0 <= i < |p| ==> (x + y)[i] == x[i];
  }

  /** Index of the first `c` in `s`, or `|s|` when there is none. */
  function IndexOf(s: string, c: char): (i: nat)
    ensures i <= |s|
    ensures c !in s[..i]
    ensures i < |s| ==> s[i] == c
    ensures i == |s| <==> c !in s
  {
    if s == [] then 0 else if s[0] == c then 0 else 1 + IndexOf(s[1..], c)
  }

  /** Index of the first line terminator in `s`, or `|s|`: where `.*` stops. */
  function LineEnd(s: string): (i: nat)
    ensures i <= |s|
    ensures forall k :: 0 <= k < i ==> !IsLineTerminator(s[k])
    ensures i < |s| ==> IsLineTerminator(s[i])
  {
    if s == [] || IsLineTerminator(s[0]) then 0 else 1 + LineEnd(s[1..])
  }

  predicate NoLineTerminator(s: string) {
    forall k :: 0 <= k < |s| ==> !IsLineTerminator(s[k])
  }

  /** `s.replace(c, '')` with a one-character string pattern: only the
      first occurrence, wherever it is, is removed. */
  function RemoveFirst(s: string, c: char): (r: string)
    ensures c !in s ==> r == s
    ensures c in s ==> r == s[..IndexOf(s, c)] + s[IndexOf(s, c) + 1..]
  {
    if s == [] then []
    else if s[0] == c then s[1..]
    else
      assert s[1..][..IndexOf(s[1..], c)] == s[1..IndexOf(s, c)];
      [s[0]] + RemoveFirst(s[1..], c)
  }

  /** Searching past a part without `c` adds that part's length. */
  lemma {:induction false} IndexOfSkip(x: string, y: string, c: char)
    requires c !in x
    ensures IndexOf(x + y, c) == |x| + IndexOf(y, c)
    decreases |x|
  {
    if x == [] {
      assert x + y == y;
    } else {
      assert (x + y)[1..] == x[1..] + y;
      IndexOfSkip(x[1..], y, c);
    }
  }

  /** The first `c` after a part without `c`. */
  lemma IndexOfAfter(x: string, c: char, y: string)
    requires c !in x
    ensures IndexOf(x + ([c] + y), c) == |x|
  {
    IndexOfSkip(x, [c] + y, c);
  }

  /** A search that finds `c` inside `x` never looks past it. */
  lemma {:induction false} IndexOfPrefix(x: string, y: string, c: char)
    requires c in x
    ensures IndexOf(x + y, c) == IndexOf(x, c)
    decreases |x|
  {
    if x[0] != c {
      assert (x + y)[1..] == x[1..] + y;
      IndexOfPrefix(x[1..], y, c);
    }
  }

  /** A line followed by a terminator, or by nothing, ends where it ends. */
  lemma {:induction false} LineEndAt(x: string, y: string)
    requires NoLineTerminator(x)
    requires y == [] || IsLineTerminator(y[0])
    ensures LineEnd(x + y) == |x|
    decreases |x|
  {
    if x == [] {
      assert x + y == y;
    } else {
      assert (x + y)[1..] == x[1..] + y;
      LineEndAt(x[1..], y);
    }
  }

  /** `trim` leaves a trimmed string as it is. */
  lemma TrimTrimmed(s: string)
    requires IsTrimmed(s)
    ensures Trim(s) == s
  {
    TrimOfPadded("", s, "");
    assert "" + s + "" == s;
  }

  /** Removing the first `c` from a string whose prefix `x` has none. */
  lemma RemoveFirstAfter(x: string, c: char, y: string)
    requires c !in x
    ensures RemoveFirst(x + ([c] + y), c) == x + y
  {
    var s := x + ([c] + y);
    IndexOfAfter(x, c, y);
    assert s[|x|] == c;
    assert s[..|x|] == x && s[|x| + 1..] == y;
  }
}
