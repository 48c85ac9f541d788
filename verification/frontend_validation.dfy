/** The frontend's form validators and sanitisers.

    Lengths are JavaScript's `String.prototype.length`, which counts UTF-16
    code units, and trimming is `String.prototype.trim`. Unlike the
    backend, the length bounds apply to the value before trimming, and the
    username pattern is tested on the untrimmed value. `!value` is the
    empty-string test. */
module FrontendValidation {
  import opened Wrappers
  import opened Text
  import opened Patterns
  import BV = BackendValidation

  /** `isValidUsername`. */
  function IsValidUsername(v: string): (r: bool)
    ensures r <==> 3 <= |v| <= 50 && UsernamePattern(v)
  {
    var ok := v != "" && 3 <= Utf16Len(v) <= 50 && UsernamePattern(v);
    if UsernamePattern(v) then UsernameIsAscii(v); ok else ok
  }

  /** `isValidName`: the bounds are on the untrimmed value. */
  function IsValidName(v: string): (r: bool)
    ensures r <==> 2 <= Utf16Len(v) <= 100 && NamePattern(JavaScript, Trim(JavaScript, v))
    ensures r ==> 2 <= |v| && |v| <= 100 && NamePattern(JavaScript, v)
  {
    if v == "" || Utf16Len(v) < 2 || Utf16Len(v) > 100 then false
    else if NamePattern(JavaScript, Trim(JavaScript, v)) then NameTrimmed(v); true
    else false
  }

  /** `isValidEmail`. */
  function IsValidEmail(v: string): (r: bool)
    ensures r <==> 0 < |v| && Utf16Len(v) <= 254 && EmailPattern(Trim(JavaScript, v))
  {
    if v == "" || Utf16Len(v) > 254 then false
    else
      IsEmailMatchesPattern(Trim(JavaScript, v));
      IsEmail(Trim(JavaScript, v))
  }

  /** `isValidSubjectName`. */
  function IsValidSubjectName(v: string): (r: bool)
    ensures r <==> 2 <= Utf16Len(v) <= 200 && SubjectPattern(JavaScript, Trim(JavaScript, v))
    ensures r ==> 2 <= |v| && |v| <= 200 && SubjectPattern(JavaScript, v) && NoDangerous(v)
  {
    if v == "" || Utf16Len(v) < 2 || Utf16Len(v) > 200 then false
    else if SubjectPattern(JavaScript, Trim(JavaScript, v)) then SubjectTrimmed(v); true
    else false
  }

  /** `isValidPassword`: only the length, 8 to 128 code units. */
  function IsValidPassword(v: string): (r: bool)
    ensures r ==> 4 <= |v| <= 128
    ensures r <==> v != "" && 8 <= Utf16Len(v) <= 128
  {
    v != "" && Utf16Len(v) >= 8 && Utf16Len(v) <= 128
  }

  /** Whitespace at the ends does not change whether a value is made of
      name characters. */
  lemma NameTrimmed(s: string)
    requires NamePattern(JavaScript, Trim(JavaScript, s))
    ensures NamePattern(JavaScript, s)
  {
    var t := Trim(JavaScript, s);
    forall i | 0 <= i < |s|
      ensures NameChar(JavaScript, s[i])
    {
      var j := TrimKeeps(JavaScript, s, i);
      if !IsWhitespace(JavaScript, s[i]) {
        assert t[j] == s[i];
      }
    }
  }

  /** Nor whether it is made of subject characters, none of which is
      dangerous. */
  lemma SubjectTrimmed(s: string)
    requires SubjectPattern(JavaScript, Trim(JavaScript, s))
    ensures SubjectPattern(JavaScript, s) && NoDangerous(s)
  {
    var t := Trim(JavaScript, s);
    forall i | 0 <= i < |s|
      ensures SubjectChar(JavaScript, s[i]) && !IsDangerous(s[i])
    {
      var j := TrimKeeps(JavaScript, s, i);
      if !IsWhitespace(JavaScript, s[i]) {
        assert t[j] == s[i];
      }
      SubjectCharSafe(JavaScript, s[i]);
    }
  }

  // ---------------------------------------------------------------------
  // HTML escaping
  // ---------------------------------------------------------------------

  /** `s.replace(/c/g, rep)`: every `c` replaced by `rep`. */
  function ReplaceAll(s: string, c: char, rep: string): string {
    if |s| == 0 then ""
    else (if s[0] == c then rep else [s[0]]) + ReplaceAll(s[1..], c, rep)
  }

  /** Replacing a character that does not occur changes nothing. */
  lemma {:induction false} ReplaceAllAbsent(s: string, c: char, rep: string)
    requires c !in s
    ensures ReplaceAll(s, c, rep) == s
  {
    if |s| > 0 {
      ReplaceAllAbsent(s[1..], c, rep);
      assert s == [s[0]] + s[1..];
    }
  }

  /** Replacing distributes over concatenation. */
  lemma {:induction false} ReplaceAllConcat(a: string, b: string, c: char, rep: string)
    ensures ReplaceAll(a + b, c, rep) == ReplaceAll(a, c, rep) + ReplaceAll(b, c, rep)
  {
    if |a| == 0 {
      assert a + b == b;
    } else {
      assert (a + b)[0] == a[0];
      assert (a + b)[1..] == a[1..] + b;
      ReplaceAllConcat(a[1..], b, c, rep);
    }
  }

  /** The six replacements of `sanitizeHtml`, in the order it applies
      them: `&` first. */
  const Replacements: seq<(char, string)> := [
    ('&', "&amp;"), ('<', "&lt;"), ('>', "&gt;"),
    ('"', "&quot;"), ('\'', "&#x27;"), ('/', "&#x2F;")
  ]

  /** The replacements from the `k`-th on, applied in order. */
  function ChainFrom(k: nat, s: string): string
    requires k <= |Replacements|
    decreases |Replacements| - k
  {
    if k == |Replacements| then s
    else ChainFrom(k + 1, ReplaceAll(s, Replacements[k].0, Replacements[k].1))
  }

  /** The characters `sanitizeHtml` escapes. */
  predicate IsHtmlSpecial(c: char) {
    c == '&' || c == '<' || c == '>' || c == '"' || c == '\'' || c == '/'
  }

  /** The entity each special character becomes. */
  function Escape(c: char): (r: string)
    ensures IsHtmlSpecial(c) ==> |r| > 1 && r[0] == '&' && r[|r| - 1] == ';'
    ensures !IsHtmlSpecial(c) ==> r == [c]
  {
    match c
    case '&' => "&amp;"
    case '<' => "&lt;"
    case '>' => "&gt;"
    case '"' => "&quot;"
    case '\'' => "&#x27;"
    case '/' => "&#x2F;"
    case _ => [c]
  }

  /** Every character escaped on its own. */
  function EscapeAll(s: string): (r: string)
    ensures |r| >= |s|
    ensures forall i :: 0 <= i < |r| ==> !IsHtmlSpecial(r[i]) || r[i] == '&'
  {
    if |s| == 0 then "" else Escape(s[0]) + EscapeAll(s[1..])
  }

  /** `sanitizeHtml`: the empty value gives the empty string; otherwise the
      chain of replacements. It escapes each character on its own, because
      `&` is replaced first and no replacement introduces a character that
      a later one replaces. */
  function SanitizeHtml(v: string): (r: string)
    ensures r == EscapeAll(v)
  {
    if v == "" then ""
    else
      ChainIsEscapeAll(v);
      ChainFrom(0, v)
  }

  /** The chain distributes over concatenation. */
  lemma {:induction false} ChainFromConcat(k: nat, a: string, b: string)
    requires k <= |Replacements|
    ensures ChainFrom(k, a + b) == ChainFrom(k, a) + ChainFrom(k, b)
    decreases |Replacements| - k
  {
    if k < |Replacements| {
      var (c, rep) := Replacements[k];
      ReplaceAllConcat(a, b, c, rep);
      ChainFromConcat(k + 1, ReplaceAll(a, c, rep), ReplaceAll(b, c, rep));
    }
  }

  /** Steps that replace none of the string's characters leave it alone. */
  lemma {:induction false} ChainFromUntouched(k: nat, s: string)
    requires k <= |Replacements|
    requires forall j :: k <= j < |Replacements| ==> Replacements[j].0 !in s
    ensures ChainFrom(k, s) == s
    decreases |Replacements| - k
  {
    if k < |Replacements| {
      ReplaceAllAbsent(s, Replacements[k].0, Replacements[k].1);
      ChainFromUntouched(k + 1, s);
    }
  }

  /** A character reaches its own step unchanged. */
  lemma {:induction false} ChainFromSkip(i: nat, k: nat, c: char)
    requires i <= k < |Replacements|
    requires forall j :: i <= j < k ==> Replacements[j].0 != c
    ensures ChainFrom(i, [c]) == ChainFrom(k, [c])
    decreases k - i
  {
    if i < k {
      ReplaceAllAbsent([c], Replacements[i].0, Replacements[i].1);
      ChainFromSkip(i + 1, k, c);
    }
  }

  /** No entity holds a character that a later step replaces. */
  lemma EntitiesUntouched(k: nat)
    requires k < |Replacements|
    ensures forall j :: k < j < |Replacements| ==> Replacements[j].0 !in Replacements[k].1
  {
  }

  /** The `k`-th step's character becomes its entity. */
  lemma ChainAtStep(k: nat, c: char)
    requires k < |Replacements| && Replacements[k].0 == c
    requires forall j :: 0 <= j < k ==> Replacements[j].0 != c
    ensures ChainFrom(0, [c]) == Replacements[k].1
  {
    var rep := Replacements[k].1;
    ChainFromSkip(0, k, c);
    assert [c][1..] == [];
    assert ReplaceAll([c], c, rep) == rep + ReplaceAll([], c, rep);
    assert rep + [] == rep;
    EntitiesUntouched(k);
    ChainFromUntouched(k + 1, rep);
  }

  /** On one character the chain is its escape. */
  lemma ChainChar(c: char)
    ensures ChainFrom(0, [c]) == Escape(c)
  {
    match c
    case '&' => ChainAtStep(0, c);
    case '<' => ChainAtStep(1, c);
    case '>' => ChainAtStep(2, c);
    case '"' => ChainAtStep(3, c);
    case '\'' => ChainAtStep(4, c);
    case '/' => ChainAtStep(5, c);
    case _ => ChainFromUntouched(0, [c]);
  }

  lemma {:induction false} ChainIsEscapeAll(s: string)
    ensures ChainFrom(0, s) == EscapeAll(s)
  {
    if |s| > 0 {
      assert s == [s[0]] + s[1..];
      ChainFromConcat(0, [s[0]], s[1..]);
      ChainChar(s[0]);
      ChainIsEscapeAll(s[1..]);
    }
  }

  /** `s` starts with `p`. */
  predicate StartsWith(s: string, p: string) {
    |p| <= |s| && s[..|p|] == p
  }

  /** The first replacement, from the `k`-th on, whose entity `s` starts
      with. */
  function EntityAt(s: string, k: nat): (r: Option<nat>)
    requires k <= |Replacements|
    ensures r.Some? ==> k <= r.value < |Replacements| && StartsWith(s, Replacements[r.value].1)
    decreases |Replacements| - k
  {
    if k == |Replacements| then None
    else if StartsWith(s, Replacements[k].1) then Some(k)
    else EntityAt(s, k + 1)
  }

  /** Decoding the six entities back to their characters. */
  function Unescape(s: string): string
    decreases |s|
  {
    if |s| == 0 then ""
    else match EntityAt(s, 0)
      case Some(k) => [Replacements[k].0] + Unescape(s[|Replacements[k].1|..])
      case None => [s[0]] + Unescape(s[1..])
  }

  /** A position where two different entities differ. */
  function DiffIndex(j: nat, k: nat): nat {
    if (j == 4 && k == 5) || (j == 5 && k == 4) then 4 else 1
  }

  /** The entities start with `&`, have at least four characters, and any
      two differ at `DiffIndex`. */
  lemma EntitiesDiffer(j: nat, k: nat)
    requires j < |Replacements| && k < |Replacements|
    ensures |Replacements[j].1| >= 4 && Replacements[j].1[0] == '&'
    ensures j != k ==> Replacements[j].1[DiffIndex(j, k)] != Replacements[k].1[DiffIndex(j, k)]
  {
  }

  /** No entity other than its own is at the start of an escaped
      character. */
  lemma {:induction false} EntityAtEscaped(k: nat, i: nat, rest: string)
    requires i <= k < |Replacements|
    ensures EntityAt(Replacements[k].1 + rest, i) == Some(k)
    decreases k - i
  {
    var e := Replacements[k].1;
    var s := e + rest;
    assert s[..|e|] == e;
    if i < k {
      EntitiesDiffer(i, k);
      var d := DiffIndex(i, k);
      assert s[d] == e[d];
      assert !StartsWith(s, Replacements[i].1) by {
        if |Replacements[i].1| <= |s| {
          assert s[..|Replacements[i].1|][d] == s[d];
        }
      }
      EntityAtEscaped(k, i + 1, rest);
    }
  }

  /** No entity is at the start of a string not starting with `&`. */
  lemma {:induction false} EntityAtPlain(s: string, i: nat)
    requires i <= |Replacements|
    requires |s| > 0 && s[0] != '&'
    ensures EntityAt(s, i) == None
    decreases |Replacements| - i
  {
    if i < |Replacements| {
      EntitiesDiffer(i, i);
      assert !StartsWith(s, Replacements[i].1) by {
        if |Replacements[i].1| <= |s| {
          assert s[..|Replacements[i].1|][0] == s[0];
        }
      }
      EntityAtPlain(s, i + 1);
    }
  }

  /** Decoding after the `k`-th entity gives its character back. */
  lemma UnescapeEntity(k: nat, rest: string)
    requires k < |Replacements|
    ensures Unescape(Replacements[k].1 + rest) == [Replacements[k].0] + Unescape(rest)
  {
    var e := Replacements[k].1;
    EntityAtEscaped(k, 0, rest);
    EntitiesDiffer(k, k);
    assert (e + rest)[|e|..] == rest;
  }

  /** Decoding after one escaped character gives the character back. */
  lemma UnescapeStep(c: char, rest: string)
    ensures Unescape(Escape(c) + rest) == [c] + Unescape(rest)
  {
    match c
    case '&' => UnescapeEntity(0, rest);
    case '<' => UnescapeEntity(1, rest);
    case '>' => UnescapeEntity(2, rest);
    case '"' => UnescapeEntity(3, rest);
    case '\'' => UnescapeEntity(4, rest);
    case '/' => UnescapeEntity(5, rest);
    case _ =>
      var s := [c] + rest;
      EntityAtPlain(s, 0);
      assert s[1..] == rest;
  }

  /** Escaping is undone by decoding: `sanitizeHtml` loses nothing. */
  lemma {:induction false} UnescapeEscapeAll(s: string)
    ensures Unescape(SanitizeHtml(s)) == s
  {
    if |s| > 0 {
      UnescapeStep(s[0], EscapeAll(s[1..]));
      UnescapeEscapeAll(s[1..]);
      assert s == [s[0]] + s[1..];
    }
  }

  /** Text without special characters is left as it is. */
  lemma {:induction false} SanitizeHtmlPlain(s: string)
    requires forall i :: 0 <= i < |s| ==> !IsHtmlSpecial(s[i])
    ensures SanitizeHtml(s) == s
  {
    if |s| > 0 {
      SanitizeHtmlPlain(s[1..]);
      assert s == [s[0]] + s[1..];
    }
  }

  // ---------------------------------------------------------------------
  // Text sanitising and field validation
  // ---------------------------------------------------------------------

  /** `sanitizeText`: drop the dangerous characters, then trim. */
  function SanitizeText(v: string): (r: string)
    ensures NoDangerous(r) && NoEdgeWhitespace(JavaScript, r)
    ensures forall c :: c in r ==> c in v
    // The result is the middle of the safe characters, in their order,
    // with only whitespace cut off at either end.
    ensures exists a, b | 0 <= a <= b <= |RemoveDangerous(v)| ::
      && r == RemoveDangerous(v)[a..b]
      && AllWhitespace(JavaScript, RemoveDangerous(v)[..a])
      && AllWhitespace(JavaScript, RemoveDangerous(v)[b..])
  {
    var kept := RemoveDangerous(v);
    TrimKeepsClean(kept);
    TrimIsSlice(JavaScript, kept);
    if v == "" then "" else Trim(JavaScript, kept)
  }

  lemma TrimKeepsClean(s: string)
    requires NoDangerous(s)
    ensures NoDangerous(Trim(JavaScript, s))
    ensures forall c :: c in Trim(JavaScript, s) ==> c in s
  {
    var t := Trim(JavaScript, s);
    forall j | 0 <= j < |t|
      ensures t[j] in s && !IsDangerous(t[j])
    {
      var i := TrimFrom(JavaScript, s, j);
    }
  }

  /** Sanitising a sanitised text changes nothing. */
  lemma SanitizeTextIdempotent(s: string)
    ensures SanitizeText(SanitizeText(s)) == SanitizeText(s)
  {
    var r := SanitizeText(s);
    RemoveDangerousClean(r);
    TrimNoEdge(JavaScript, r);
  }

  /** The `type` argument of `validateField`. */
  datatype FieldKind = Username | Name | Email | Subject | Password | Text

  /** `validateField`'s result: the validity, the value to use and the
      message for an invalid one. */
  datatype FieldResult = FieldResult(valid: bool, value: string, error: Option<string>)

  function IsValidKind(kind: FieldKind, v: string): bool {
    match kind
    case Username => IsValidUsername(v)
    case Name => IsValidName(v)
    case Email => IsValidEmail(v)
    case Subject => IsValidSubjectName(v)
    case Password => IsValidPassword(v)
    case Text => true
  }

  function Message(kind: FieldKind): string {
    match kind
    case Username => "Usuario inválido"
    case Name => "Nombre inválido"
    case Email => "Email inválido"
    case Subject => "Nombre de asignatura inválido"
    case Password => "Contraseña inválida (mínimo 8 caracteres)"
    case Text => ""
  }

  /** `validateField`: trim the value, then validate it by kind; free text
      is always valid and is sanitised. */
  function ValidateField(v: string, kind: FieldKind): (r: FieldResult)
    ensures r.valid <==> IsValidKind(kind, Trim(JavaScript, v))
    ensures r.error.None? <==> r.valid
    ensures r.error.Some? ==> r.error.value == Message(kind)
    ensures kind != Text ==> r.value == Trim(JavaScript, v)
    ensures kind == Text ==> r.value == SanitizeText(Trim(JavaScript, v))
    ensures NoEdgeWhitespace(JavaScript, r.value)
  {
    var trimmed := Trim(JavaScript, v);
    if kind == Text then FieldResult(true, SanitizeText(trimmed), None)
    else
      var ok := IsValidKind(kind, trimmed);
      FieldResult(ok, trimmed, if ok then None else Some(Message(kind)))
  }

  /** A field already validated validates again to the same result. */
  lemma ValidateFieldIdempotent(v: string, kind: FieldKind)
    ensures ValidateField(ValidateField(v, kind).value, kind) == ValidateField(v, kind)
  {
    var r := ValidateField(v, kind);
    TrimNoEdge(JavaScript, r.value);
    TrimIdempotent(JavaScript, v);
    if kind == Text {
      SanitizeTextIdempotent(Trim(JavaScript, v));
    }
  }

  // ---------------------------------------------------------------------
  // Agreement with the backend
  // ---------------------------------------------------------------------

  /** Both sides accept the same usernames. */
  lemma UsernameAgrees(s: string)
    ensures IsValidUsername(s) == BV.IsValidUsername(s)
  {
  }

  /** Below U+0080 the two runtimes agree on which characters names and
      subject names may contain. */
  lemma AsciiCharAgrees(c: char)
    requires c as int < 0x80
    ensures NameChar(Rust, c) == NameChar(JavaScript, c)
    ensures SubjectChar(Rust, c) == SubjectChar(JavaScript, c)
  {
  }

  /** An ASCII string is as long in UTF-8 bytes and in UTF-16 code units as
      it is in characters. */
  lemma AsciiLengths(s: string)
    requires BV.IsAscii(s)
    ensures Utf8Len(s) == |s| && Utf16Len(s) == |s|
  {
  }

  /** On ASCII input without edge whitespace both sides accept the same
      names. */
  lemma NameAgreesOnAscii(s: string)
    requires BV.IsAscii(s) && NoEdgeWhitespace(Rust, s) && NoEdgeWhitespace(JavaScript, s)
    ensures IsValidName(s) == BV.IsValidName(s)
  {
    TrimNoEdge(Rust, s);
    TrimNoEdge(JavaScript, s);
    AsciiLengths(s);
    forall i | 0 <= i < |s|
      ensures NameChar(Rust, s[i]) == NameChar(JavaScript, s[i])
    {
      AsciiCharAgrees(s[i]);
    }
  }

  /** On ASCII input without edge whitespace both sides accept the same
      subject names. */
  lemma SubjectAgreesOnAscii(s: string)
    requires BV.IsAscii(s) && NoEdgeWhitespace(Rust, s) && NoEdgeWhitespace(JavaScript, s)
    ensures IsValidSubjectName(s) == BV.IsValidSubjectName(s)
  {
    TrimNoEdge(Rust, s);
    TrimNoEdge(JavaScript, s);
    AsciiLengths(s);
    forall i | 0 <= i < |s|
      ensures SubjectChar(Rust, s[i]) == SubjectChar(JavaScript, s[i])
    {
      AsciiCharAgrees(s[i]);
    }
  }

  /** A password the backend accepts has at least 8 bytes and so at least
      2 code units; the frontend asks for 8 code units. A password of four
      two-byte letters is accepted by the backend's length check and
      rejected by the frontend. */
  lemma PasswordLengthsDiffer()
    ensures !IsValidPassword("ñÑñÑ") && Utf8Len("ñÑñÑ") == 8
  {
  }
}
