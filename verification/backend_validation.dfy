/** The backend's input validators and sanitiser.

    Lengths are Rust's `str::len`, which counts UTF-8 bytes, and trimming
    is Rust's `str::trim`. */
module BackendValidation {
  import opened Wrappers
  import opened Text
  import opened Patterns

  /** A string of ASCII characters only. */
  predicate IsAscii(s: string) {
    forall i :: 0 <= i < |s| ==> s[i] as int < 0x80
  }

  /** `is_valid_username`: 3 to 50 bytes of ASCII letters, digits and `_`.
      As the pattern only admits ASCII, the bound is on characters too. */
  function IsValidUsername(s: string): (r: bool)
    ensures r <==> 3 <= |s| <= 50 && UsernamePattern(s)
  {
    var ok := 3 <= Utf8Len(s) <= 50 && UsernamePattern(s);
    if UsernamePattern(s) then UsernameIsAscii(s); ok else ok
  }

  /** `is_valid_name`: the trimmed name, 2 to 100 bytes of letters, the
      Spanish accented letters and whitespace. Since the trimmed-away
      characters are whitespace, the whole input is then made of name
      characters. */
  function IsValidName(s: string): (r: bool)
    ensures r <==> 2 <= Utf8Len(Trim(Rust, s)) <= 100 && NamePattern(Rust, Trim(Rust, s))
  {
    var t := Trim(Rust, s);
    if Utf8Len(t) < 2 || Utf8Len(t) > 100 then false
    else NamePattern(Rust, t)
  }

  /** A valid name is made of name characters throughout, and on ASCII the
      byte bound is a character bound. */
  lemma ValidNameMeans(s: string)
    ensures IsValidName(s) ==> NamePattern(Rust, s) && 1 <= |Trim(Rust, s)| <= 100
    ensures IsAscii(Trim(Rust, s)) ==>
      (IsValidName(s) <==> 2 <= |Trim(Rust, s)| <= 100 && NamePattern(Rust, Trim(Rust, s)))
  {
    if IsValidName(s) {
      NameTrimmed(s);
    }
  }

  /** `is_valid_email`: the trimmed address, at most 254 bytes, matching
      the email pattern. */
  function IsValidEmail(s: string): (r: bool)
    ensures r <==> |Trim(Rust, s)| <= 254 && EmailPattern(Trim(Rust, s))
  {
    var t := Trim(Rust, s);
    IsEmailMatchesPattern(t);
    EmailIsAscii(t);
    if Utf8Len(t) > 254 then false else IsEmail(t)
  }

  /** `is_valid_subject_name`: the trimmed name, 2 to 200 bytes of letters,
      accented letters, digits, whitespace, `-`, `.`, `(` and `)`. */
  function IsValidSubjectName(s: string): (r: bool)
    ensures r <==> 2 <= Utf8Len(Trim(Rust, s)) <= 200 && SubjectPattern(Rust, Trim(Rust, s))
  {
    var t := Trim(Rust, s);
    if Utf8Len(t) < 2 || Utf8Len(t) > 200 then false
    else SubjectPattern(Rust, t)
  }

  /** A valid subject name is made of subject characters throughout, so it
      holds no dangerous character; on ASCII the byte bound is a character
      bound. */
  lemma ValidSubjectMeans(s: string)
    ensures IsValidSubjectName(s) ==> SubjectPattern(Rust, s) && NoDangerous(s) && 1 <= |Trim(Rust, s)| <= 200
    ensures IsAscii(Trim(Rust, s)) ==>
      (IsValidSubjectName(s) <==> 2 <= |Trim(Rust, s)| <= 200 && SubjectPattern(Rust, Trim(Rust, s)))
  {
    if IsValidSubjectName(s) {
      SubjectTrimmed(s);
    }
  }

  /** Whitespace at the ends does not change whether a string is made of
      name characters. */
  lemma NameTrimmed(s: string)
    requires NamePattern(Rust, Trim(Rust, s))
    ensures NamePattern(Rust, s)
  {
    var t := Trim(Rust, s);
    forall i | 0 <= i < |s|
      ensures NameChar(Rust, s[i])
    {
      var j := TrimKeeps(Rust, s, i);
      if !IsWhitespace(Rust, s[i]) {
        assert t[j] == s[i];
      }
    }
  }

  /** Nor whether it is made of subject characters, none of which is
      dangerous. */
  lemma SubjectTrimmed(s: string)
    requires SubjectPattern(Rust, Trim(Rust, s))
    ensures SubjectPattern(Rust, s) && NoDangerous(s)
  {
    var t := Trim(Rust, s);
    forall i | 0 <= i < |s|
      ensures SubjectChar(Rust, s[i]) && !IsDangerous(s[i])
    {
      var j := TrimKeeps(Rust, s, i);
      if !IsWhitespace(Rust, s[i]) {
        assert t[j] == s[i];
      }
      SubjectCharSafe(Rust, s[i]);
    }
  }

  /** An address matching the pattern is ASCII. */
  lemma EmailIsAscii(s: string)
    ensures EmailPattern(s) ==> Utf8Len(s) == |s|
  {
    if EmailPattern(s) {
      var at, dot :| 0 < at < dot < |s| && EmailSplit(s, at, dot);
      forall i | 0 <= i < |s|
        ensures s[i] as int < 0x80
      {
        if i < at {
          assert s[..at][i] == s[i];
        } else if at < i < dot {
          assert s[at + 1..dot][i - at - 1] == s[i];
        } else if i > dot {
          assert s[dot + 1..][i - dot - 1] == s[i];
        }
      }
    }
  }

  // ---------------------------------------------------------------------
  // Passwords
  // ---------------------------------------------------------------------

  predicate HasUppercase(s: string) { exists i :: 0 <= i < |s| && IsUppercase(s[i]) }

  predicate HasLowercase(s: string) { exists i :: 0 <= i < |s| && IsLowercase(s[i]) }

  predicate HasAlphanumeric(s: string) { exists i :: 0 <= i < |s| && IsAlphanumeric(s[i]) }

  predicate HasNumeric(s: string) { exists i :: 0 <= i < |s| && IsNumeric(s[i]) }

  /** At least one character that is neither a letter nor a number. */
  predicate HasSpecial(s: string) { exists i :: 0 <= i < |s| && !IsAlphanumeric(s[i]) }

  /** `is_valid_password` as written: the length guard asks for a length
      that is both at most 8 and at least 128, and the "special character"
      test looks for an alphanumeric one. */
  function IsValidPasswordAsWritten(s: string): (r: bool)
    ensures r <==> HasUppercase(s) && HasLowercase(s) && HasNumeric(s)
  {
    if Utf8Len(s) <= 8 && Utf8Len(s) >= 128 then false
    else HasLowercase(s) && HasUppercase(s) && HasAlphanumeric(s) && HasNumeric(s)
  }

  /** The length guard can never fire and the "special" test is implied by
      the uppercase one: a three-character password with no special
      character passes. */
  lemma PasswordAsWrittenAcceptsShort()
    ensures IsValidPasswordAsWritten("Ab1")
    ensures !HasSpecial("Ab1") && Utf8Len("Ab1") == 3
  {
    assert IsUppercase("Ab1"[0]) && IsLowercase("Ab1"[1]) && IsNumeric("Ab1"[2]);
  }

  /** `is_valid_password` as its comment and error message describe it: 8
      to 128 bytes, with an uppercase letter, a lowercase letter, a number
      and a special character. */
  function IsValidPassword(s: string): (r: bool)
    ensures r ==> 8 <= Utf8Len(s) <= 128
    ensures r ==> HasSpecial(s) && IsValidPasswordAsWritten(s)
    ensures 8 <= Utf8Len(s) <= 128 && HasSpecial(s) && IsValidPasswordAsWritten(s) ==> r
  {
    if Utf8Len(s) < 8 || Utf8Len(s) > 128 then false
    else HasLowercase(s) && HasUppercase(s) && HasSpecial(s) && HasNumeric(s)
  }

  /** The corrected check rejects the counterexample and accepts a password
      of the described kind. */
  lemma PasswordCorrected()
    ensures !IsValidPassword("Ab1")
    ensures IsValidPassword("Segura#2025")
  {
    var p := "Segura#2025";
    assert IsUppercase(p[0]) && IsLowercase(p[1]) && !IsAlphanumeric(p[6]) && IsNumeric(p[7]);
  }

  // ---------------------------------------------------------------------
  // Sanitising
  // ---------------------------------------------------------------------

  /** `sanitize_text`: drop the dangerous characters, then trim. */
  function SanitizeText(s: string): (r: string)
    ensures NoDangerous(r) && NoEdgeWhitespace(Rust, r)
    ensures forall c :: c in r ==> c in s
    // The result is the middle of the safe characters, in their order,
    // with only whitespace cut off at either end.
    ensures exists a, b | 0 <= a <= b <= |RemoveDangerous(s)| ::
      && r == RemoveDangerous(s)[a..b]
      && AllWhitespace(Rust, RemoveDangerous(s)[..a])
      && AllWhitespace(Rust, RemoveDangerous(s)[b..])
  {
    var kept := RemoveDangerous(s);
    TrimKeepsClean(kept);
    TrimIsSlice(Rust, kept);
    Trim(Rust, kept)
  }

  /** Trimming keeps a string free of dangerous characters and adds no
      character. */
  lemma TrimKeepsClean(s: string)
    requires NoDangerous(s)
    ensures NoDangerous(Trim(Rust, s))
    ensures forall c :: c in Trim(Rust, s) ==> c in s
  {
    var t := Trim(Rust, s);
    forall j | 0 <= j < |t|
      ensures t[j] in s && !IsDangerous(t[j])
    {
      var i := TrimFrom(Rust, s, j);
    }
  }

  /** Sanitising a sanitised text changes nothing. */
  lemma SanitizeTextIdempotent(s: string)
    ensures SanitizeText(SanitizeText(s)) == SanitizeText(s)
  {
    var r := SanitizeText(s);
    RemoveDangerousClean(r);
    TrimNoEdge(Rust, r);
  }

  /** Text that is already clean and trimmed is left as it is. */
  lemma SanitizeTextKeepsClean(s: string)
    requires NoDangerous(s) && NoEdgeWhitespace(Rust, s)
    ensures SanitizeText(s) == s
  {
    RemoveDangerousClean(s);
    TrimNoEdge(Rust, s);
  }

  // ---------------------------------------------------------------------
  // Validation results
  // ---------------------------------------------------------------------

  /** `ValidationResult`: valid, or invalid with a message. */
  datatype ValidationResult = ValidationResult(valid: bool, error: Option<string>)

  function Ok(): ValidationResult {
    ValidationResult(true, None)
  }

  function Error(msg: string): ValidationResult {
    ValidationResult(false, Some(msg))
  }

  /** The message a rejected password reports. */
  const PasswordMessage := "Contraseña inválida (mínimo 8 caracteres, mayúsculas, minúsculas y caracteres especiales)"

  /** The checks of `validate_new_user` in order, reporting the first that
      fails, with the password's verdict given as `passwordOk`. A failed
      password is reported as a `ValidationResult` like the others. */
  function CheckNewUser(username: string, name: string, email: string, passwordOk: bool): (r: ValidationResult)
    ensures r.valid <==> IsValidUsername(username) && IsValidName(name) && IsValidEmail(email) && passwordOk
    ensures r.error.Some? <==> !r.valid
    ensures !IsValidUsername(username) ==> r.error == Some("Nombre de usuario inválido")
    ensures IsValidUsername(username) && !IsValidName(name) ==> r.error == Some("Nombre inválido")
    ensures IsValidUsername(username) && IsValidName(name) && !IsValidEmail(email) ==> r.error == Some("Email inválido")
    ensures IsValidUsername(username) && IsValidName(name) && IsValidEmail(email) && !passwordOk
      ==> r.error == Some(PasswordMessage)
  {
    if !IsValidUsername(username) then Error("Nombre de usuario inválido")
    else if !IsValidName(name) then Error("Nombre inválido")
    else if !IsValidEmail(email) then Error("Email inválido")
    else if !passwordOk then Error(PasswordMessage)
    else Ok()
  }

  /** `validate_new_user` as written: it asks `is_valid_password` as
      written, so a password that is too short or has no special character
      still passes. */
  function ValidateNewUserAsWritten(username: string, name: string, email: string, password: string): (r: ValidationResult)
    ensures r.valid <==>
      && IsValidUsername(username) && IsValidName(name) && IsValidEmail(email)
      && HasUppercase(password) && HasLowercase(password) && HasNumeric(password)
    ensures r.error.Some? <==> !r.valid
    ensures !IsValidUsername(username) ==> r.error == Some("Nombre de usuario inválido")
    ensures IsValidUsername(username) && !IsValidName(name) ==> r.error == Some("Nombre inválido")
    ensures IsValidUsername(username) && IsValidName(name) && !IsValidEmail(email) ==> r.error == Some("Email inválido")
    ensures IsValidUsername(username) && IsValidName(name) && IsValidEmail(email) && !IsValidPasswordAsWritten(password)
      ==> r.error == Some(PasswordMessage)
  {
    CheckNewUser(username, name, email, IsValidPasswordAsWritten(password))
  }

  /** `validate_new_user` with the corrected password check, which the
      message it reports describes. */
  function ValidateNewUser(username: string, name: string, email: string, password: string): (r: ValidationResult)
    ensures r.valid <==> IsValidUsername(username) && IsValidName(name) && IsValidEmail(email) && IsValidPassword(password)
    ensures r.error.Some? <==> !r.valid
    ensures !IsValidUsername(username) ==> r.error == Some("Nombre de usuario inválido")
    ensures IsValidUsername(username) && !IsValidName(name) ==> r.error == Some("Nombre inválido")
    ensures IsValidUsername(username) && IsValidName(name) && !IsValidEmail(email) ==> r.error == Some("Email inválido")
    ensures IsValidUsername(username) && IsValidName(name) && IsValidEmail(email) && !IsValidPassword(password)
      ==> r.error == Some(PasswordMessage)
  {
    CheckNewUser(username, name, email, IsValidPassword(password))
  }

  /** The corrected check only ever refuses more: whatever it accepts, the
      check as written accepts too, and the two disagree on the password
      "Ab1" for any otherwise valid user. */
  lemma NewUserCorrectionRefusesMore(username: string, name: string, email: string, password: string)
    ensures ValidateNewUser(username, name, email, password).valid
      ==> ValidateNewUserAsWritten(username, name, email, password).valid
    ensures IsValidUsername(username) && IsValidName(name) && IsValidEmail(email) ==>
      ValidateNewUserAsWritten(username, name, email, "Ab1").valid && !ValidateNewUser(username, name, email, "Ab1").valid
  {
    PasswordAsWrittenAcceptsShort();
    PasswordCorrected();
  }

  /** `validate_profile`: name, then email. */
  function ValidateProfile(name: string, email: string): (r: ValidationResult)
    ensures r.valid <==> IsValidName(name) && IsValidEmail(email)
    ensures r.error.Some? <==> !r.valid
    ensures !IsValidName(name) ==> r.error == Some("Nombre inválido")
    ensures IsValidName(name) && !IsValidEmail(email) ==> r.error == Some("Email inválido")
  {
    if !IsValidName(name) then Error("Nombre inválido")
    else if !IsValidEmail(email) then Error("Email inválido")
    else Ok()
  }

  /** `validate_subject`. */
  function ValidateSubject(name: string): (r: ValidationResult)
    ensures r.valid <==> IsValidSubjectName(name)
    ensures r.error.Some? <==> !r.valid
    ensures !r.valid ==> r.error == Some("Nombre de asignatura inválido")
  {
    if !IsValidSubjectName(name) then Error("Nombre de asignatura inválido") else Ok()
  }

  /** A new user passes exactly when a profile with the same name and email
      would, and the username and password pass too, with either password
      check. */
  lemma NewUserExtendsProfile(username: string, name: string, email: string, password: string)
    ensures ValidateNewUser(username, name, email, password).valid
      <==> IsValidUsername(username) && ValidateProfile(name, email).valid && IsValidPassword(password)
    ensures ValidateNewUserAsWritten(username, name, email, password).valid
      <==> IsValidUsername(username) && ValidateProfile(name, email).valid && IsValidPasswordAsWritten(password)
  {
  }
  // ---------------------------------------------------------------------
  // The unit tests of validation.rs
  // ---------------------------------------------------------------------

  /** `test_valid_username`: two accepted usernames. */
  lemma UsernameTestPlain()
    ensures IsValidUsername("usuario123")
  {
  }

  lemma UsernameTestUnderscore()
    ensures IsValidUsername("user_name")
  {
  }

  /** Too short. */
  lemma UsernameTestTooShort()
    ensures !IsValidUsername("us")
  {
  }

  /** '@' is not a username character. */
  lemma UsernameTestAt()
    ensures !IsValidUsername("user@name")
  {
    assert !UsernameChar("user@name"[4]);
  }

  /** Nor is a space. */
  lemma UsernameTestSpace()
    ensures !IsValidUsername("user name")
  {
    assert !UsernameChar("user name"[4]);
  }

  // Each case of the tests below is its own lemma: the verifier evaluates
  // the validators on string literals eagerly, and two literals in one
  // proof cost far more than two proofs.

  /** `test_valid_name`: "Juan Pérez" is ten characters but eleven bytes. */
  lemma NameTestJuanPerez()
    ensures IsValidName("Juan Pérez")
  {
    NameAcceptedWhen("Juan Pérez");
  }

  lemma NameTestMariaGarciaLopez()
    ensures IsValidName("María García López")
  {
    NameAcceptedWhen("María García López");
  }

  /** Too short. */
  lemma NameTestTooShort()
    ensures !IsValidName("J")
  {
    TrimNoEdge(Rust, "J");
    assert Utf8Len("J") == 1;
  }

  /** Digits are not name characters. */
  lemma NameTestDigits()
    ensures !IsValidName("Juan123")
  {
    NameRefusedWhen("Juan123", 4);
  }

  /** A name without edge whitespace that has a character which is not a
      name character is refused. */
  lemma NameRefusedWhen(s: string, i: int)
    requires NoEdgeWhitespace(Rust, s) && 0 <= i < |s| && !NameChar(Rust, s[i])
    ensures !IsValidName(s)
  {
    TrimNoEdge(Rust, s);
  }

  /** A name without edge whitespace, of 2 to 25 characters, all of them
      name characters, is accepted: 25 characters take at most 100 bytes. */
  lemma {:induction false} NameAcceptedWhen(s: string)
    requires NamePattern(Rust, s) && NoEdgeWhitespace(Rust, s) && 2 <= |s| <= 25
    ensures IsValidName(s)
  {
    TrimNoEdge(Rust, s);
    var t := Trim(Rust, s);
    assert t == s;
    assert |t| <= Utf8Len(t) <= 4 * |t|;
    assert NamePattern(Rust, t);
  }

  /** `test_valid_email`. */
  lemma EmailTestPlain()
    ensures IsValidEmail("test@example.com")
  {
    var s := "test@example.com";
    assert s[..4] == "test" && s[5..12] == "example" && s[13..] == "com";
    EmailAcceptedWhen(s, 4, 12);
  }

  /** A dot in the local part. */
  lemma EmailTestDottedLocal()
    ensures IsValidEmail("user.name@domain.co")
  {
    var s := "user.name@domain.co";
    assert s[..9] == "user.name" && s[10..16] == "domain" && s[17..] == "co";
    EmailAcceptedWhen(s, 9, 16);
  }

  /** No `@` at all. */
  lemma EmailTestNoAt()
    ensures !IsValidEmail("invalid")
  {
    EmailRefusedWithoutAt("invalid");
  }

  /** An address without edge whitespace and without an `@` is refused. */
  lemma EmailRefusedWithoutAt(s: string)
    requires NoEdgeWhitespace(Rust, s) && '@' !in s
    ensures !IsValidEmail(s)
  {
    TrimNoEdge(Rust, s);
  }

  /** Nothing before the `@`. */
  lemma EmailTestEmptyLocal()
    ensures !IsValidEmail("@example.com")
  {
    EmailRefusedWithoutLocal("@example.com");
  }

  /** An address without edge whitespace whose only `@` comes first is
      refused. */
  lemma EmailRefusedWithoutLocal(s: string)
    requires NoEdgeWhitespace(Rust, s) && |s| > 0 && '@' !in s[1..]
    ensures !IsValidEmail(s)
  {
    TrimNoEdge(Rust, s);
    NoLocalNoEmail(s);
  }

  /** With no `@` after the first character the email pattern cannot
      match: the local part must not be empty. */
  lemma NoLocalNoEmail(s: string)
    requires |s| > 0 && '@' !in s[1..]
    ensures !EmailPattern(s)
  {
    forall k | 0 < k < |s|
      ensures s[k] != '@'
    {
      assert s[k] == s[1..][k - 1];
    }
  }

  /** An address without edge whitespace that splits as the pattern asks,
      and has at most 254 characters, is accepted. */
  lemma {:induction false} EmailAcceptedWhen(s: string, at: int, dot: int)
    requires EmailSplit(s, at, dot) && NoEdgeWhitespace(Rust, s) && |s| <= 254
    ensures IsValidEmail(s)
  {
    TrimNoEdge(Rust, s);
    var t := Trim(Rust, s);
    assert t == s;
    assert EmailSplit(t, at, dot);
    IsEmailComplete(t, at, dot);
    EmailIsAscii(t);
  }

  /** `test_valid_subject_name`. */
  lemma SubjectTestSpaces()
    ensures IsValidSubjectName("Programación Web I")
  {
    SubjectAcceptedWhen("Programación Web I");
  }

  /** Parentheses and digits are allowed. */
  lemma SubjectTestParentheses()
    ensures IsValidSubjectName("Matemáticas (Nivel 2)")
  {
    SubjectAcceptedWhen("Matemáticas (Nivel 2)");
  }

  /** Too short. */
  lemma SubjectTestTooShort()
    ensures !IsValidSubjectName("X")
  {
    TrimNoEdge(Rust, "X");
    assert Utf8Len("X") == 1;
  }

  /** A dangerous character. */
  lemma SubjectTestMarkup()
    ensures !IsValidSubjectName("Test<script>")
  {
    TrimNoEdge(Rust, "Test<script>");
    assert !SubjectChar(Rust, "Test<script>"[4]);
  }

  /** A subject name without edge whitespace, of 2 to 50 characters, all of
      them subject characters, is accepted. */
  lemma {:induction false} SubjectAcceptedWhen(s: string)
    requires SubjectPattern(Rust, s) && NoEdgeWhitespace(Rust, s) && 2 <= |s| <= 50
    ensures IsValidSubjectName(s)
  {
    TrimNoEdge(Rust, s);
    var t := Trim(Rust, s);
    assert t == s;
    assert |t| <= Utf8Len(t) <= 4 * |t|;
    assert SubjectPattern(Rust, t);
  }
}
