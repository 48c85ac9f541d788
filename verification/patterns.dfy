/** The four validation patterns the backend and the frontend share:

      username  ^[a-zA-Z0-9_]+$
      name      ^[a-zA-ZáéíóúÁÉÍÓÚüÜñÑ\s]+$
      email     ^[a-zA-Z0-9._%+-]+@[a-zA-Z0-9.-]+\.[a-zA-Z]{2,}$
      subject   ^[a-zA-Z0-9áéíóúÁÉÍÓÚüÜñÑ\s\-\.\(\)]+$

    The character classes are ASCII apart from the listed accented letters
    and `\s`, whose meaning depends on the regex engine (`Runtime`). A
    pattern of the form ^[class]+$ matches a non-empty string made of
    class characters; the email pattern is stated as the regex defines it,
    by the existence of a split, and decided by a scan that is proved to
    agree with it. */
module Patterns {
  import opened Wrappers
  import opened Text

  predicate UsernameChar(c: char) {
    IsAsciiLetter(c) || IsAsciiDigit(c) || c == '_'
  }

  predicate NameChar(rt: Runtime, c: char) {
    IsAsciiLetter(c) || IsSpanishAccented(c) || IsWhitespace(rt, c)
  }

  predicate SubjectChar(rt: Runtime, c: char) {
    || IsAsciiLetter(c) || IsAsciiDigit(c) || IsSpanishAccented(c) || IsWhitespace(rt, c)
    || c == '-' || c == '.' || c == '(' || c == ')'
  }

  predicate UsernamePattern(s: string) {
    |s| > 0 && forall i :: 0 <= i < |s| ==> UsernameChar(s[i])
  }

  predicate NamePattern(rt: Runtime, s: string) {
    |s| > 0 && forall i :: 0 <= i < |s| ==> NameChar(rt, s[i])
  }

  predicate SubjectPattern(rt: Runtime, s: string) {
    |s| > 0 && forall i :: 0 <= i < |s| ==> SubjectChar(rt, s[i])
  }

  /** A username is plain ASCII, so its UTF-8 and UTF-16 lengths are its
      character count. */
  lemma UsernameIsAscii(s: string)
    requires UsernamePattern(s)
    ensures Utf8Len(s) == |s| && Utf16Len(s) == |s|
  {
  }

  // ---------------------------------------------------------------------
  // Email
  // ---------------------------------------------------------------------

  predicate LocalChar(c: char) {
    IsAsciiLetter(c) || IsAsciiDigit(c) || c == '.' || c == '_' || c == '%' || c == '+' || c == '-'
  }

  predicate DomainChar(c: char) {
    IsAsciiLetter(c) || IsAsciiDigit(c) || c == '.' || c == '-'
  }

  predicate AllLocal(s: string) {
    forall i :: 0 <= i < |s| ==> LocalChar(s[i])
  }

  predicate AllDomain(s: string) {
    forall i :: 0 <= i < |s| ==> DomainChar(s[i])
  }

  predicate AllLetters(s: string) {
    forall i :: 0 <= i < |s| ==> IsAsciiLetter(s[i])
  }

  /** The regex matches `s` with its `@` at `at` and the `.` before the
      top-level domain at `dot`. */
  predicate EmailSplit(s: string, at: int, dot: int) {
    && 0 < at < dot < |s|
    && s[at] == '@' && AllLocal(s[..at])
    && at + 1 < dot && AllDomain(s[at + 1..dot])
    && s[dot] == '.' && |s| - dot - 1 >= 2 && AllLetters(s[dot + 1..])
  }

  /** The email pattern, as the regex defines it. */
  predicate EmailPattern(s: string) {
    exists at, dot | 0 < at < dot < |s| :: EmailSplit(s, at, dot)
  }

  /** The position of the last `c` in `s`, if any. */
  function LastIndexOf(s: string, c: char): (r: Option<nat>)
    ensures r.None? ==> c !in s
    ensures r.Some? ==> r.value < |s| && s[r.value] == c && c !in s[r.value + 1..]
  {
    if |s| == 0 then None
    else if s[|s| - 1] == c then Some(|s| - 1)
    else
      var r := LastIndexOf(s[..|s| - 1], c);
      if r.Some? then
        assert s[r.value + 1..] == s[..|s| - 1][r.value + 1..] + [s[|s| - 1]];
        r
      else None
  }

  /** The email check as a scan: the first `@`, then the last `.` after it. */
  function IsEmail(s: string): bool {
    var at := IndexOf(s, '@');
    if at == |s| then false
    else
      var rest := s[at + 1..];
      match LastIndexOf(rest, '.')
      case None => false
      case Some(d) =>
        && at > 0 && AllLocal(s[..at])
        && d > 0 && AllDomain(rest[..d])
        && |rest| - d - 1 >= 2 && AllLetters(rest[d + 1..])
  }

  /** The scan's split is a regex split. */
  lemma IsEmailSound(s: string)
    requires IsEmail(s)
    ensures EmailSplit(s, IndexOf(s, '@'), IndexOf(s, '@') + 1 + LastIndexOf(s[IndexOf(s, '@') + 1..], '.').value)
  {
    var at := IndexOf(s, '@');
    var rest := s[at + 1..];
    var d := LastIndexOf(rest, '.').value;
    var dot := at + 1 + d;
    assert s[at] == '@' && AllLocal(s[..at]);
    assert s[at + 1..dot] == rest[..d];
    assert s[dot + 1..] == rest[d + 1..];
    assert s[dot] == rest[d];
  }

  lemma LettersHaveNoDot(t: string)
    requires AllLetters(t)
    ensures '.' !in t
  {
  }

  /** Any regex split is the scan's: `@` is in no class before it, so it is
      the first `@`, and no letter is a `.`, so the split's `.` is the last
      one. */
  lemma IsEmailComplete(s: string, at: int, dot: int)
    requires EmailSplit(s, at, dot)
    ensures IndexOf(s, '@') == at
    ensures LastIndexOf(s[at + 1..], '.') == Some(dot - at - 1)
    ensures IsEmail(s)
  {
    assert forall j :: 0 <= j < at ==> s[..at][j] == s[j];
    var rest := s[at + 1..];
    var d := dot - at - 1;
    assert rest[d + 1..] == s[dot + 1..];
    assert rest[..d] == s[at + 1..dot];
    LettersHaveNoDot(s[dot + 1..]);
    LastIndexOfUnique(rest, '.', d);
  }

  /** A `c` followed by no other `c` is the last one. */
  lemma {:induction false} LastIndexOfUnique(s: string, c: char, k: nat)
    requires k < |s| && s[k] == c && c !in s[k + 1..]
    ensures LastIndexOf(s, c) == Some(k)
  {
    if k < |s| - 1 {
      assert s[|s| - 1] in s[k + 1..];
      assert s[..|s| - 1][k + 1..] == s[k + 1..|s| - 1];
      LastIndexOfUnique(s[..|s| - 1], c, k);
    }
  }

  /** The scan decides the regex. */
  lemma IsEmailMatchesPattern(s: string)
    ensures IsEmail(s) <==> EmailPattern(s)
  {
    if IsEmail(s) {
      IsEmailSound(s);
    }
    if EmailPattern(s) {
      var at, dot :| EmailSplit(s, at, dot);
      IsEmailComplete(s, at, dot);
    }
  }

  // ---------------------------------------------------------------------
  // Dangerous characters
  // ---------------------------------------------------------------------

  /** The characters both sanitisers strip: < > ' " ` ; \ { } [ ] | & $. */
  predicate IsDangerous(c: char) {
    || c == '<' || c == '>' || c == '\'' || c == '"' || c == '`' || c == ';' || c == '\\'
    || c == '{' || c == '}' || c == '[' || c == ']' || c == '|' || c == '&' || c == '$'
  }

  predicate NoDangerous(s: string) {
    forall i :: 0 <= i < |s| ==> !IsDangerous(s[i])
  }

  /** The input without its dangerous characters, the rest kept in order. */
  function RemoveDangerous(s: string): (r: string)
    ensures |r| <= |s|
    ensures NoDangerous(r)
    ensures forall c :: c in r <==> c in s && !IsDangerous(c)
    ensures forall c :: multiset(r)[c] == if IsDangerous(c) then 0 else multiset(s)[c]
  {
    if |s| == 0 then []
    else
      var rest := RemoveDangerous(s[1..]);
      assert s == [s[0]] + s[1..];
      assert multiset(s) == multiset{s[0]} + multiset(s[1..]);
      if IsDangerous(s[0]) then rest else [s[0]] + rest
  }

  /** No subject character is dangerous. */
  lemma SubjectCharSafe(rt: Runtime, c: char)
    requires SubjectChar(rt, c)
    ensures !IsDangerous(c)
  {
  }

  /** A string without dangerous characters passes unchanged. */
  lemma {:induction false} RemoveDangerousClean(s: string)
    requires NoDangerous(s)
    ensures RemoveDangerous(s) == s
  {
    if |s| > 0 {
      RemoveDangerousClean(s[1..]);
    }
  }

  /** A single character is dropped exactly when it is dangerous. */
  lemma RemoveDangerousChar(c: char)
    ensures RemoveDangerous([c]) == if IsDangerous(c) then [] else [c]
  {
    assert [c][1..] == [];
  }

  /** Removal distributes over concatenation. With `RemoveDangerousChar`
      this determines the result: the safe characters of the input, in
      their input order. */
  lemma {:induction false} RemoveDangerousConcat(a: string, b: string)
    ensures RemoveDangerous(a + b) == RemoveDangerous(a) + RemoveDangerous(b)
  {
    if |a| == 0 {
      assert a + b == b;
    } else {
      assert (a + b)[0] == a[0];
      assert (a + b)[1..] == a[1..] + b;
      RemoveDangerousConcat(a[1..], b);
    }
  }
}
