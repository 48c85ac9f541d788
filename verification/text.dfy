/** Strings, characters and the handful of string library routines the
    source relies on (`trim`, `split`, integer formatting, byte and UTF-16
    lengths), written out so that their behaviour is explicit. */
module Text {
  import opened Wrappers

  // ---------------------------------------------------------------------
  // Character classes
  // ---------------------------------------------------------------------

  predicate IsAsciiUpper(c: char) { 'A' <= c <= 'Z' }

  predicate IsAsciiLower(c: char) { 'a' <= c <= 'z' }

  predicate IsAsciiLetter(c: char) { IsAsciiUpper(c) || IsAsciiLower(c) }

  predicate IsAsciiDigit(c: char) { '0' <= c <= '9' }

  /** The accented letters both regex families list explicitly:
      `áéíóúÁÉÍÓÚüÜñÑ`. */
  predicate IsSpanishAccented(c: char) {
    || c == 'á' || c == 'é' || c == 'í' || c == 'ó' || c == 'ú'
    || c == 'Á' || c == 'É' || c == 'Í' || c == 'Ó' || c == 'Ú'
    || c == 'ü' || c == 'Ü' || c == 'ñ' || c == 'Ñ'
  }

  /** Rust's `char::is_uppercase`, `is_lowercase`, `is_alphabetic` and
      `is_numeric`, exactly on the Latin-1 range (U+0000 to U+00FF); the
      model treats every later character as having none of these
      properties. */
  predicate IsUppercase(c: char) {
    IsAsciiUpper(c) || ('\U{00C0}' <= c <= '\U{00D6}') || ('\U{00D8}' <= c <= '\U{00DE}')
  }

  predicate IsLowercase(c: char) {
    || IsAsciiLower(c) || c == '\U{00AA}' || c == '\U{00B5}' || c == '\U{00BA}'
    || ('\U{00DF}' <= c <= '\U{00F6}') || ('\U{00F8}' <= c <= '\U{00FF}')
  }

  predicate IsAlphabetic(c: char) {
    IsUppercase(c) || IsLowercase(c)
  }

  /** Decimal digits, superscripts one to three and the vulgar fractions. */
  predicate IsNumeric(c: char) {
    || IsAsciiDigit(c) || c == '\U{00B2}' || c == '\U{00B3}' || c == '\U{00B9}'
    || ('\U{00BC}' <= c <= '\U{00BE}')
  }

  predicate IsAlphanumeric(c: char) {
    IsAlphabetic(c) || IsNumeric(c)
  }

  /** The two string libraries the source uses; they disagree on what
      counts as whitespace. */
  datatype Runtime = Rust | JavaScript

  /** Whitespace for Rust's `char::is_whitespace`, `str::trim` and the
      regex class `\s` (the Unicode White_Space property), and for
      JavaScript's `trim` and `\s` (WhiteSpace and LineTerminator). They
      differ in two characters: NEXT LINE (U+0085) is whitespace only in
      Rust and ZERO WIDTH NO-BREAK SPACE (U+FEFF) only in JavaScript. */
  predicate IsWhitespace(rt: Runtime, c: char) {
    || ('\t' <= c <= '\r')
    || c == ' ' || c == '\U{00A0}' || c == '\U{1680}'
    || ('\U{2000}' <= c <= '\U{200A}')
    || c == '\U{2028}' || c == '\U{2029}' || c == '\U{202F}' || c == '\U{205F}' || c == '\U{3000}'
    || (rt == Rust && c == '\U{0085}')
    || (rt == JavaScript && c == '\U{FEFF}')
  }

  // ---------------------------------------------------------------------
  // Trimming
  // ---------------------------------------------------------------------

  /** Neither the first nor the last character is whitespace. */
  predicate NoEdgeWhitespace(rt: Runtime, s: string) {
    |s| == 0 || (!IsWhitespace(rt, s[0]) && !IsWhitespace(rt, s[|s| - 1]))
  }

  predicate AllWhitespace(rt: Runtime, s: string) {
    forall i :: 0 <= i < |s| ==> IsWhitespace(rt, s[i])
  }

  function TrimStart(rt: Runtime, s: string): (r: string)
    ensures |r| <= |s| && r == s[|s| - |r|..]
    ensures |r| > 0 ==> !IsWhitespace(rt, r[0])
    ensures AllWhitespace(rt, s[..|s| - |r|])
  {
    if |s| > 0 && IsWhitespace(rt, s[0]) then
      var r := TrimStart(rt, s[1..]);
      assert s[1..][..|s[1..]| - |r|] == s[1..|s| - |r|];
      r
    else s
  }

  function TrimEnd(rt: Runtime, s: string): (r: string)
    ensures |r| <= |s| && r == s[..|r|]
    ensures |r| > 0 ==> !IsWhitespace(rt, r[|r| - 1])
    ensures AllWhitespace(rt, s[|r|..])
  {
    if |s| > 0 && IsWhitespace(rt, s[|s| - 1]) then
      var r := TrimEnd(rt, s[..|s| - 1]);
      assert s[..|s| - 1][|r|..] == s[|r|..|s| - 1];
      r
    else s
  }

  /** `str::trim` / `String.prototype.trim`: drop leading and trailing
      whitespace. */
  function Trim(rt: Runtime, s: string): (r: string)
    ensures |r| <= |s|
    ensures NoEdgeWhitespace(rt, r)
  {
    TrimEnd(rt, TrimStart(rt, s))
  }

  /** Trim removes only whitespace, and only at the two ends: the result is
      the slice `s[a..b]` of the input, whose surroundings are all
      whitespace. Together with `NoEdgeWhitespace` this pins the result
      down uniquely. */
  lemma TrimBounds(rt: Runtime, s: string) returns (a: nat, b: nat)
    ensures a <= b <= |s| && Trim(rt, s) == s[a..b]
    ensures AllWhitespace(rt, s[..a]) && AllWhitespace(rt, s[b..])
  {
    var t := TrimStart(rt, s);
    a := |s| - |t|;
    b := a + |Trim(rt, s)|;
    assert t[|Trim(rt, s)|..] == s[b..];
    assert Trim(rt, s) == s[a..b];
  }

  lemma TrimIsSlice(rt: Runtime, s: string)
    ensures exists a, b | 0 <= a <= b <= |s| ::
      Trim(rt, s) == s[a..b] && AllWhitespace(rt, s[..a]) && AllWhitespace(rt, s[b..])
  {
    var a, b := TrimBounds(rt, s);
  }

  /** Every character of the input is either whitespace or kept by Trim,
      at position `j` of the result. */
  lemma TrimKeeps(rt: Runtime, s: string, i: nat) returns (j: nat)
    requires i < |s|
    ensures IsWhitespace(rt, s[i]) || (j < |Trim(rt, s)| && Trim(rt, s)[j] == s[i])
  {
    var a, b := TrimBounds(rt, s);
    j := 0;
    if i < a {
      assert s[..a][i] == s[i];
    } else if i >= b {
      assert s[b..][i - b] == s[i];
    } else {
      j := i - a;
    }
  }

  /** Every character of the result of Trim comes from the input. */
  lemma TrimFrom(rt: Runtime, s: string, j: nat) returns (i: nat)
    requires j < |Trim(rt, s)|
    ensures i < |s| && s[i] == Trim(rt, s)[j]
  {
    var a, b := TrimBounds(rt, s);
    i := a + j;
  }

  /** A string without edge whitespace is left alone by Trim. */
  lemma TrimNoEdge(rt: Runtime, s: string)
    requires NoEdgeWhitespace(rt, s)
    ensures Trim(rt, s) == s
  {
  }

  /** Trimming twice is trimming once. */
  lemma TrimIdempotent(rt: Runtime, s: string)
    ensures Trim(rt, Trim(rt, s)) == Trim(rt, s)
  {
    TrimNoEdge(rt, Trim(rt, s));
  }

  // ---------------------------------------------------------------------
  // Encoded lengths
  // ---------------------------------------------------------------------

  /** Bytes a character takes in UTF-8. */
  function Utf8Width(c: char): nat {
    if c as int < 0x80 then 1
    else if c as int < 0x800 then 2
    else if c as int < 0x10000 then 3
    else 4
  }

  /** Rust's `str::len`: the length of the UTF-8 encoding, in bytes. */
  function Utf8Len(s: string): (n: nat)
    ensures |s| <= n <= 4 * |s|
    ensures n == |s| <==> forall i :: 0 <= i < |s| ==> s[i] as int < 0x80
  {
    if |s| == 0 then 0 else Utf8Width(s[0]) + Utf8Len(s[1..])
  }

  /** JavaScript's `String.prototype.length`: UTF-16 code units. */
  function Utf16Len(s: string): (n: nat)
    ensures |s| <= n <= 2 * |s|
    ensures n == |s| <==> forall i :: 0 <= i < |s| ==> s[i] as int < 0x10000
  {
    if |s| == 0 then 0
    else (if s[0] as int < 0x10000 then 1 else 2) + Utf16Len(s[1..])
  }

  // ---------------------------------------------------------------------
  // Decimal formatting (`format!("{}", n)`, template literals)
  // ---------------------------------------------------------------------

  function DigitChar(d: nat): (c: char)
    requires d < 10
    ensures IsAsciiDigit(c) && c as int - '0' as int == d
  {
    (d + '0' as int) as char
  }

  predicate AllDigits(s: string) {
    forall i :: 0 <= i < |s| ==> IsAsciiDigit(s[i])
  }

  /** Decimal rendering of a natural number, without leading zeros. */
  function NatToString(n: nat): (r: string)
    ensures 1 <= |r|
    ensures AllDigits(r)
    ensures |r| > 1 ==> r[0] != '0'
    decreases n
  {
    if n < 10 then [DigitChar(n)] else NatToString(n / 10) + [DigitChar(n % 10)]
  }

  /** A number never has more digits than its value plus one. */
  lemma {:induction false} NatToStringLength(n: nat)
    ensures |NatToString(n)| <= n + 1
  {
    if n >= 10 {
      NatToStringLength(n / 10);
    }
  }

  /** Numbers below 100 take at most two digits. */
  lemma NatToStringTwoDigits(n: nat)
    requires n < 100
    ensures |NatToString(n)| <= 2
  {
    if n >= 10 {
      assert NatToString(n) == NatToString(n / 10) + [DigitChar(n % 10)];
    }
  }

  /** The number a string of decimal digits denotes. */
  function DigitsValue(s: string): nat
    requires AllDigits(s)
  {
    if |s| == 0 then 0
    else DigitsValue(s[..|s| - 1]) * 10 + (s[|s| - 1] as int - '0' as int)
  }

  /** Reading a rendered number back gives the number. */
  lemma {:induction false} NatToStringRoundTrip(n: nat)
    ensures DigitsValue(NatToString(n)) == n
    decreases n
  {
    if n >= 10 {
      var r := NatToString(n);
      assert r[..|r| - 1] == NatToString(n / 10);
      NatToStringRoundTrip(n / 10);
    }
  }

  /** Distinct numbers render differently. */
  lemma NatToStringInjective(m: nat, n: nat)
    requires NatToString(m) == NatToString(n)
    ensures m == n
  {
    NatToStringRoundTrip(m);
    NatToStringRoundTrip(n);
  }

  // ---------------------------------------------------------------------
  // Splitting (`str::split` on a single character)
  // ---------------------------------------------------------------------

  /** Index of the first `c` in `s`, or `|s|` when there is none. */
  function IndexOf<T(==)>(s: seq<T>, c: T): (i: nat)
    ensures i <= |s|
    ensures i < |s| ==> s[i] == c
    ensures forall j :: 0 <= j < i ==> s[j] != c
  {
    if |s| == 0 then 0
    else if s[0] == c then 0
    else 1 + IndexOf(s[1..], c)
  }

  /** Pieces glued back together with the separator between them. */
  function Join(parts: seq<string>, sep: char): string
    requires |parts| >= 1
  {
    if |parts| == 1 then parts[0] else parts[0] + [sep] + Join(parts[1..], sep)
  }

  /** `s.split(sep)`: the maximal separator-free pieces, empty pieces
      included (so `""` splits into one empty piece and `"a,"` into `"a"`
      and `""`). Joining them back gives `s`. */
  function Split(s: string, sep: char): (parts: seq<string>)
    ensures |parts| >= 1
    ensures forall i :: 0 <= i < |parts| ==> sep !in parts[i]
    ensures Join(parts, sep) == s
    decreases |s|
  {
    var i := IndexOf(s, sep);
    if i == |s| then
      [s]
    else
      var rest := Split(s[i + 1..], sep);
      assert sep !in s[..i];
      assert s[..i] + [sep] + s[i + 1..] == s;
      [s[..i]] + rest
  }

  /** A string without the separator is a single piece. */
  lemma SplitNoSeparator(s: string, sep: char)
    requires sep !in s
    ensures Split(s, sep) == [s]
  {
    assert IndexOf(s, sep) == |s|;
  }

  /** Splitting at the first separator: the piece before it, then the
      pieces of the rest. */
  lemma SplitFirst(a: string, sep: char, b: string)
    requires sep !in a
    ensures Split(a + [sep] + b, sep) == [a] + Split(b, sep)
  {
    var s := a + [sep] + b;
    assert s[|a|] == sep;
    assert IndexOf(s, sep) == |a|;
    assert s[..|a|] == a;
    assert s[|a| + 1..] == b;
  }

  /** Splitting undoes joining separator-free pieces. */
  lemma {:induction false} SplitJoin(parts: seq<string>, sep: char)
    requires |parts| >= 1
    requires forall i :: 0 <= i < |parts| ==> sep !in parts[i]
    ensures Split(Join(parts, sep), sep) == parts
  {
    if |parts| == 1 {
      SplitNoSeparator(parts[0], sep);
    } else {
      SplitJoin(parts[1..], sep);
      SplitFirst(parts[0], sep, Join(parts[1..], sep));
      assert parts == [parts[0]] + parts[1..];
    }
  }

  /** Parsing an unsigned decimal number: at least one digit, digits only. */
  function ParseNat(s: string): (r: Option<nat>)
    ensures r.Some? <==> |s| > 0 && AllDigits(s)
  {
    if |s| > 0 && AllDigits(s) then Some(DigitsValue(s)) else None
  }

  /** Rendering a number and parsing it back gives the number. */
  lemma ParseNatToString(n: nat)
    ensures ParseNat(NatToString(n)) == Some(n)
  {
    NatToStringRoundTrip(n);
  }
}
