/**
 * The field validators of the signup and profile pages. Each returns the
 * reason a value is refused, or `None` (`null`) for a valid value. The two
 * pages share the name, phone and e-mail rules; they differ on the student
 * id (two spellings of one rule) and on the password (required with one
 * symbol set at signup, optional with a smaller set on the profile).
 */
module FieldRules {
  import opened Common
  import opened Text

  /** Why a field is refused; the pages show one message per kind. */
  datatype FieldError =
    | Required | HasDigit | NotThirteenDigits | NotStarting2022 | BadStudentIdFormat
    | NotTenDigits | BadEmailFormat | TooShort | NoSymbol | Mismatch | UsernameExists

  /** The message a validator result adds to a page's error list: none or one. */
  function Errs(e: Option<FieldError>): (r: seq<FieldError>)
    ensures r == [] <==> e.None?
    ensures e.Some? ==> r == [e.value]
  {
    if e.Some? then [e.value] else []
  }

  /** `validateName`: required, then no digit. */
  function ValidateName(v: string): (r: Option<FieldError>)
    ensures r.None? <==> !IsBlank(v) && !ContainsDigit(v)
    ensures r == Some(Required) <==> IsBlank(v)
  {
    if IsBlank(v) then Some(Required)
    else if ContainsDigit(v) then Some(HasDigit)
    else None
  }

  /** The signup page's `validateStudentId`: required, then `^\d{13}$`, then `startsWith('2022')`. */
  function SignupStudentId(v: string): Option<FieldError>
  {
    if IsBlank(v) then Some(Required)
    else if !(|v| == 13 && AllDigits(v)) then Some(NotThirteenDigits)
    else if !StartsWith(v, "2022") then Some(NotStarting2022)
    else None
  }

  /** The profile page's `validateStudentId`: required, then `^2022\d{9}$`. */
  function ProfileStudentId(v: string): Option<FieldError>
  {
    if IsBlank(v) then Some(Required)
    else if !StudentIdPattern(v) then Some(BadStudentIdFormat)
    else None
  }

  /** Text made of digits only is blank exactly when it is empty. */
  lemma DigitsBlankOnlyWhenEmpty(v: string)
    requires AllDigits(v) && v != []
    ensures !IsBlank(v)
  {
    assert IsDigit(v[0]);
  }

  /** The student-id pattern's text is thirteen digits. */
  lemma StudentIdPatternIsThirteenDigits(v: string)
    ensures StudentIdPattern(v) <==> |v| == 13 && AllDigits(v) && StartsWith(v, "2022")
  {
    if StudentIdPattern(v) {
      forall i | 0 <= i < |v| ensures IsDigit(v[i])
      {
        if i < 4 {
          assert v[i] == v[..4][i];
        } else {
          assert v[i] == v[4..][i - 4];
        }
      }
    }
    if |v| == 13 && AllDigits(v) && StartsWith(v, "2022") {
      forall i | 0 <= i < |v[4..]| ensures IsDigit(v[4..][i])
      {
        assert v[4..][i] == v[i + 4];
      }
    }
  }

  /**
   * The three student-id checks accept the same language: the signup page's
   * two-step rule, the profile page's expression and the server's expression.
   */
  lemma {:induction false} StudentIdRulesAgree(v: string)
    ensures SignupStudentId(v).None? <==> StudentIdPattern(v)
    ensures ProfileStudentId(v).None? <==> StudentIdPattern(v)
  {
    StudentIdPatternIsThirteenDigits(v);
    if StudentIdPattern(v) {
      DigitsBlankOnlyWhenEmpty(v);
    }
  }

  /** A ten-digit phone number is never blank, so the "required" check never hides the pattern check. */
  lemma PhonePatternNotBlank(v: string)
    ensures PhonePattern(v) ==> !IsBlank(v)
  {
    if PhonePattern(v) {
      DigitsBlankOnlyWhenEmpty(v);
    }
  }

  /** `validatePhone`: required, then `^\d{10}$`. */
  function ValidatePhone(v: string): (r: Option<FieldError>)
    ensures r.None? <==> PhonePattern(v)
  {
    PhonePatternNotBlank(v);
    if IsBlank(v) then Some(Required)
    else if !PhonePattern(v) then Some(NotTenDigits)
    else None
  }

  /** `validateEmail`: required, then the e-mail expression. */
  function ValidateEmail(v: string): (r: Option<FieldError>)
    ensures r.None? <==> EmailPattern(v)
  {
    EmailPatternNotBlank(v);
    if IsBlank(v) then Some(Required)
    else if !EmailPattern(v) then Some(BadEmailFormat)
    else None
  }

  /**
   * An e-mail address is accepted exactly when it has no white space, one
   * `@` with a non-empty local part, and a domain holding a `.` with text on
   * both sides.
   */
  lemma {:induction false} EmailAcceptedIffShape(v: string)
    ensures ValidateEmail(v).None? <==> EmailShape(v)
  {
    EmailPatternIsShape(v);
  }

  /** `validateUsername`: required only. */
  function ValidateUsername(v: string): (r: Option<FieldError>)
    ensures r.None? <==> !IsBlank(v)
    ensures r.Some? ==> r.value == Required
  {
    if IsBlank(v) then Some(Required) else None
  }

  /** The signup page's symbol class ``[!@#$%^&*()_+\-=\[\]{};':"\\|,.<>\/?~`]``. */
  predicate SignupSymbol(c: char)
  {
    || c == '!' || c == '@' || c == '#' || c == '$' || c == '%' || c == '^' || c == '&' || c == '*'
    || c == '(' || c == ')' || c == '_' || c == '+' || c == '-' || c == '=' || c == '[' || c == ']'
    || c == '{' || c == '}' || c == ';' || c == '\'' || c == ':' || c == '"' || c == '\\' || c == '|'
    || c == ',' || c == '.' || c == '<' || c == '>' || c == '/' || c == '?' || c == '~' || c == '`'
  }

  /** The profile page's symbol class `[!@#$%^&*(),.?":{}|<>]`. */
  predicate ProfileSymbol(c: char)
  {
    || c == '!' || c == '@' || c == '#' || c == '$' || c == '%' || c == '^' || c == '&' || c == '*'
    || c == '(' || c == ')' || c == ',' || c == '.' || c == '?' || c == '"' || c == ':' || c == '{'
    || c == '}' || c == '|' || c == '<' || c == '>'
  }

  predicate HasSignupSymbol(p: string)
  {
    exists i :: 0 <= i < |p| && SignupSymbol(p[i])
  }

  predicate HasProfileSymbol(p: string)
  {
    exists i :: 0 <= i < |p| && ProfileSymbol(p[i])
  }

  /** The signup page's `validatePassword`: required, at least five characters, one symbol. */
  function SignupPassword(p: string): (r: Option<FieldError>)
    ensures r.None? <==> |p| >= 5 && HasSignupSymbol(p)
  {
    if p == "" then Some(Required)
    else if |p| < 5 then Some(TooShort)
    else if !HasSignupSymbol(p) then Some(NoSymbol)
    else None
  }

  /** The profile page's `validatePassword`: an empty value is fine (optional), else five characters and one symbol. */
  function ProfilePassword(p: string): (r: Option<FieldError>)
    ensures r.None? <==> p == "" || (|p| >= 5 && HasProfileSymbol(p))
  {
    if p == "" then None
    else if |p| < 5 then Some(TooShort)
    else if !HasProfileSymbol(p) then Some(NoSymbol)
    else None
  }

  /**
   * The profile page's symbols are a strict subset of the signup page's, so
   * a new password the profile page accepts would also pass at signup, but
   * not the other way round.
   */
  lemma {:induction false} ProfilePasswordsPassSignup(p: string)
    requires p != "" && ProfilePassword(p).None?
    ensures SignupPassword(p).None?
  {
    var i :| 0 <= i < |p| && ProfileSymbol(p[i]);
    assert SignupSymbol(p[i]);
  }

  /** The underscore separates the two rules: `"abcd_"` passes at signup and fails on the profile. */
  lemma UnderscoreOnlyCountsAtSignup(p: string)
    requires p == "abcd_"
    ensures SignupPassword(p).None? && ProfilePassword(p) == Some(NoSymbol)
  {
    assert SignupSymbol(p[4]);
    assert forall i :: 0 <= i < |p| ==> p[i] in {'a', 'b', 'c', 'd', '_'};
  }

  /** A non-empty password the profile page accepts is never blank, so the server stores its hash. */
  lemma {:induction false} AcceptedProfilePasswordIsNotBlank(p: string)
    requires p != "" && ProfilePassword(p).None?
    ensures !IsBlank(p)
  {
    var i :| 0 <= i < |p| && ProfileSymbol(p[i]);
    assert !IsSpace(p[i]);
  }

  /** `validateConfirmPassword`: required, then equal to the password. */
  function ConfirmPassword(p: string, confirm: string): (r: Option<FieldError>)
    ensures r.None? <==> confirm != "" && confirm == p
  {
    if confirm == "" then Some(Required)
    else if p != confirm then Some(Mismatch)
    else None
  }
}
