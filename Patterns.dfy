/** The three regular expressions of the employee validators and JavaScript's
    `String.prototype.trim`, written as predicates and functions over strings.
    Without the `u` flag, `\w` is `[A-Za-z0-9_]` and `\d` is `[0-9]`. */
module Patterns {

  predicate IsAsciiLetter(c: char) {
    'A' <= c <= 'Z' || 'a' <= c <= 'z'
  }

  /** `\d` */
  predicate IsDigit(c: char) {
    '0' <= c <= '9'
  }

  /** `\w` */
  predicate IsWordChar(c: char) {
    IsAsciiLetter(c) || IsDigit(c) || c == '_'
  }

  /** Every character of `s[a..b]` is a word character. */
  ghost predicate WordRange(s: string, a: int, b: int) {
    forall k :: a <= k < b && 0 <= k < |s| ==> IsWordChar(s[k])
  }

  // ---------------------------------------------------------------------------
  // /^\w+@\w+\.\w+$/

  /** The matcher, read left to right from position `p` as the pattern's
      automaton: `part` counts the separators passed (0 before `@`, 1 before
      `.`, 2 after it) and `started` says whether the current `\w+` has a
      character yet. As neither `@` nor `.` is a word character, the greedy
      runs never need to backtrack. */
  predicate EmailFrom(s: string, p: nat, part: nat, started: bool)
    requires p <= |s|
    decreases |s| - p
  {
    if p == |s| then part == 2 && started
    else if IsWordChar(s[p]) then EmailFrom(s, p + 1, part, true)
    else if part == 0 && started && s[p] == '@' then EmailFrom(s, p + 1, 1, false)
    else if part == 1 && started && s[p] == '.' then EmailFrom(s, p + 1, 2, false)
    else false
  }

  /** `/^\w+@\w+\.\w+$/.test(s)` */
  predicate IsEmail(s: string) {
    EmailFrom(s, 0, 0, false)
  }

  /** From `p` on: the rest of a word (non-empty overall when not `started`),
      `.` at `j`, and a non-empty last word. */
  ghost predicate MiddleSplit(s: string, p: int, j: int, started: bool) {
    0 <= p <= j && j + 1 < |s| && s[j] == '.' && (started || j > p) &&
    WordRange(s, p, j) && WordRange(s, j + 1, |s|)
  }

  /** From `p` on: the rest of a word, `@` at `i`, a non-empty word, `.` at
      `j`, and a non-empty last word. */
  ghost predicate FirstSplit(s: string, p: int, i: int, j: int, started: bool) {
    0 <= p <= i < |s| && s[i] == '@' && (started || i > p) && WordRange(s, p, i) && MiddleSplit(s, i + 1, j, false)
  }

  /** The language of the pattern: a non-empty word, `@` at `i`, a non-empty
      word, `.` at `j`, a non-empty word, and nothing else. */
  ghost predicate EmailSplit(s: string, i: int, j: int) {
    0 < i && i + 1 < j && j + 1 < |s| && s[i] == '@' && s[j] == '.' &&
    WordRange(s, 0, i) && WordRange(s, i + 1, j) && WordRange(s, j + 1, |s|)
  }

  ghost predicate EmailShape(s: string) {
    exists i, j :: EmailSplit(s, i, j)
  }

  /** After the dot: the rest must be word characters, at least one in all. */
  lemma {:induction false} EmailFromLast(s: string, p: nat, started: bool)
    requires p <= |s|
    ensures EmailFrom(s, p, 2, started) <==> WordRange(s, p, |s|) && (started || p < |s|)
    decreases |s| - p
  {
    if p < |s| {
      EmailFromLast(s, p + 1, true);
    }
  }

  /** Between `@` and `.`. */
  lemma {:induction false} EmailFromMiddle(s: string, p: nat, started: bool)
    requires p <= |s|
    ensures EmailFrom(s, p, 1, started) <==> exists j :: MiddleSplit(s, p, j, started)
    decreases |s| - p
  {
    if p == |s| {
      return;
    }
    if IsWordChar(s[p]) {
      EmailFromMiddle(s, p + 1, true);
      if EmailFrom(s, p, 1, started) {
        var j :| MiddleSplit(s, p + 1, j, true);
        assert MiddleSplit(s, p, j, started);
      }
      if j :| MiddleSplit(s, p, j, started) {
        assert MiddleSplit(s, p + 1, j, true);
      }
    } else {
      EmailFromLast(s, p + 1, false);
      if EmailFrom(s, p, 1, started) {
        assert MiddleSplit(s, p, p, started);
      }
      if j :| MiddleSplit(s, p, j, started) {
        assert j == p;
      }
    }
  }

  /** From a position inside the first word. */
  lemma {:induction false} EmailFromFirst(s: string, p: nat, started: bool)
    requires p <= |s|
    ensures EmailFrom(s, p, 0, started) <==> exists i, j :: FirstSplit(s, p, i, j, started)
    decreases |s| - p
  {
    if p == |s| {
      return;
    }
    if IsWordChar(s[p]) {
      EmailFromFirst(s, p + 1, true);
      if EmailFrom(s, p, 0, started) {
        var i, j :| FirstSplit(s, p + 1, i, j, true);
        assert FirstSplit(s, p, i, j, started);
      }
      if i, j :| FirstSplit(s, p, i, j, started) {
        assert FirstSplit(s, p + 1, i, j, true);
      }
    } else {
      EmailFromMiddle(s, p + 1, false);
      if EmailFrom(s, p, 0, started) {
        var j :| MiddleSplit(s, p + 1, j, false);
        assert FirstSplit(s, p, p, j, started);
      }
      if i, j :| FirstSplit(s, p, i, j, started) {
        assert i == p;
      }
    }
  }

  /** The matcher accepts exactly the strings of the pattern's language. */
  lemma IsEmailIffShape(s: string)
    ensures IsEmail(s) <==> EmailShape(s)
  {
    EmailFromFirst(s, 0, false);
    if IsEmail(s) {
      var i, j :| FirstSplit(s, 0, i, j, false);
      assert EmailSplit(s, i, j);
    }
    if EmailShape(s) {
      var i, j :| EmailSplit(s, i, j);
      assert FirstSplit(s, 0, i, j, false);
    }
  }

  /** Every character of an accepted email is a word character, except one
      `@` at `i` and one `.` at `j`. */
  lemma EmailCharacters(s: string) returns (i: int, j: int)
    requires IsEmail(s)
    ensures 0 < i < j < |s| && s[i] == '@' && s[j] == '.'
    ensures forall k :: 0 <= k < |s| && k != i && k != j ==> IsWordChar(s[k])
  {
    IsEmailIffShape(s);
    i, j :| EmailSplit(s, i, j);
  }

  /** A hyphen anywhere is rejected. */
  lemma EmailRejectsHyphen(s: string, k: int)
    requires 0 <= k < |s| && s[k] == '-'
    ensures !IsEmail(s)
  {
    if IsEmail(s) {
      var i, j := EmailCharacters(s);
    }
  }

  /** Two occurrences of a separator character are rejected: no second dot
      (`a@b.c.d`, `a.b@c.d`) and no second `@`. */
  lemma EmailRejectsRepeatedSeparator(s: string, p: int, q: int)
    requires 0 <= p < q < |s| && s[p] == s[q] && (s[p] == '.' || s[p] == '@')
    ensures !IsEmail(s)
  {
    if IsEmail(s) {
      var i, j := EmailCharacters(s);
    }
  }

  // ---------------------------------------------------------------------------
  // /^\d{10}$/

  predicate IsPhoneNumber(s: string) {
    |s| == 10 && forall k :: 0 <= k < |s| ==> IsDigit(s[k])
  }

  /** Nine or eleven digits are rejected, and so is any separator. */
  lemma PhoneNumberRejects(s: string)
    ensures |s| != 10 ==> !IsPhoneNumber(s)
    ensures (exists k :: 0 <= k < |s| && !IsDigit(s[k])) ==> !IsPhoneNumber(s)
  {
  }

  // ---------------------------------------------------------------------------
  // /^[a-zA-Z0-9]{1,10}$/

  predicate IsEmployeeIdShape(s: string) {
    1 <= |s| <= 10 && forall k :: 0 <= k < |s| ==> IsAsciiLetter(s[k]) || IsDigit(s[k])
  }

  // ---------------------------------------------------------------------------
  // String.prototype.trim

  /** The characters `trim` removes: ECMAScript's WhiteSpace (tab, vertical
      tab, form feed, zero-width no-break space and every space separator of
      Unicode category Zs) and LineTerminator (line feed, carriage return,
      line and paragraph separators). */
  predicate IsJsWhitespace(c: char) {
    c == '\t' || c == '\U{000B}' || c == '\U{000C}' || c == ' ' || c == '\U{00A0}' ||
    c == '\U{FEFF}' || c == '\U{1680}' || ('\U{2000}' <= c <= '\U{200A}') ||
    c == '\U{202F}' || c == '\U{205F}' || c == '\U{3000}' ||
    c == '\n' || c == '\r' || c == '\U{2028}' || c == '\U{2029}'
  }

  predicate AllWhitespace(s: string) {
    forall k :: 0 <= k < |s| ==> IsJsWhitespace(s[k])
  }

  /** Drops the leading whitespace. */
  function TrimStart(s: string): (r: string) {
    if s != [] && IsJsWhitespace(s[0]) then TrimStart(s[1..]) else s
  }

  /** Drops the trailing whitespace. */
  function TrimEnd(s: string): (r: string) {
    if s != [] && IsJsWhitespace(s[|s| - 1]) then TrimEnd(s[..|s| - 1]) else s
  }

  /** `s.trim()` */
  function Trim(s: string): (r: string) {
    TrimEnd(TrimStart(s))
  }

  /** `TrimStart` keeps a suffix of `s`, drops only whitespace, and leaves no
      whitespace at the front. */
  lemma {:induction false} TrimStartIsSuffix(s: string)
    ensures |TrimStart(s)| <= |s| && TrimStart(s) == s[|s| - |TrimStart(s)|..]
    ensures AllWhitespace(s[..|s| - |TrimStart(s)|])
    ensures TrimStart(s) != [] ==> !IsJsWhitespace(TrimStart(s)[0])
  {
    if s != [] && IsJsWhitespace(s[0]) {
      var r := TrimStart(s[1..]);
      TrimStartIsSuffix(s[1..]);
      assert s[..|s| - |r|] == [s[0]] + s[1..][..|s| - 1 - |r|];
    }
  }

  /** `TrimEnd` keeps a prefix of `s`, drops only whitespace, and leaves no
      whitespace at the back. */
  lemma {:induction false} TrimEndIsPrefix(s: string)
    ensures |TrimEnd(s)| <= |s| && TrimEnd(s) == s[..|TrimEnd(s)|]
    ensures AllWhitespace(s[|TrimEnd(s)|..])
    ensures TrimEnd(s) != [] ==> !IsJsWhitespace(TrimEnd(s)[|TrimEnd(s)| - 1])
  {
    if s != [] && IsJsWhitespace(s[|s| - 1]) {
      var r := TrimEnd(s[..|s| - 1]);
      TrimEndIsPrefix(s[..|s| - 1]);
      assert s[|r|..] == s[..|s| - 1][|r|..] + [s[|s| - 1]];
    }
  }

  /** `!s.trim()` holds exactly for the empty string and the strings made
      only of whitespace. */
  lemma TrimEmptyIffBlank(s: string)
    ensures Trim(s) == "" <==> AllWhitespace(s)
  {
    var t := TrimStart(s);
    TrimStartIsSuffix(s);
    TrimEndIsPrefix(t);
    if Trim(s) == "" {
      assert AllWhitespace(t[0..]);
      assert s == s[..|s| - |t|] + t;
    }
  }

  /** A string that starts with a word character is never blank, so `trim`
      cannot empty it. */
  lemma WordNotBlank(s: string)
    requires s != [] && IsWordChar(s[0])
    ensures Trim(s) != ""
  {
    TrimEmptyIffBlank(s);
  }
}
