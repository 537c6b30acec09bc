/**
 * `handleSignup` of the signup page: it trims the text fields, runs every
 * validator without stopping at the first failure, asks the server whether
 * the username exists only when the username is not blank, and sends the
 * signup request only when nothing failed and the terms are accepted.
 */
module SignupPage {
  import opened Common
  import opened Text
  import opened FieldRules
  import Accounts

  /** The raw values of the form's inputs and the terms checkbox. */
  datatype SignupInputs = SignupInputs(
    firstName: string, lastName: string, studentId: string, phone: string,
    email: string, username: string, password: string, confirmPassword: string,
    terms: bool)

  /** The values the page validates and sends: the text fields trimmed, the two passwords as typed. */
  function Trimmed(raw: SignupInputs): (f: Accounts.SignupForm)
    ensures f.password == raw.password && f.confirmPassword == raw.confirmPassword
  {
    Accounts.SignupForm(Trim(raw.firstName), Trim(raw.lastName), Trim(raw.studentId), Trim(raw.phone),
                        Trim(raw.email), Trim(raw.username), raw.password, raw.confirmPassword)
  }

  /**
   * The username's messages: the basic check, and only when that passes the
   * answer of the lookup (`checkUsernameExists`, false on any failure).
   */
  function UsernameErrors(username: string, usernameExists: bool): (r: seq<FieldError>)
    ensures r == [] <==> !IsBlank(username) && !usernameExists
    ensures |r| <= 1
  {
    if ValidateUsername(username).Some? then [Required]
    else if usernameExists then [UsernameExists]
    else []
  }

  /** The messages of the five contact and identity fields, in the order `handleSignup` checks them. */
  function DetailErrors(f: Accounts.SignupForm): (r: seq<FieldError>)
    ensures r == [] <==>
      ValidateName(f.firstName).None? && ValidateName(f.lastName).None? && SignupStudentId(f.studentId).None?
      && ValidatePhone(f.phone).None? && ValidateEmail(f.email).None?
  {
    Errs(ValidateName(f.firstName)) + Errs(ValidateName(f.lastName)) + Errs(SignupStudentId(f.studentId))
    + Errs(ValidatePhone(f.phone)) + Errs(ValidateEmail(f.email))
  }

  /** Every message `handleSignup` collects, in the order it checks the fields. */
  function SignupErrors(f: Accounts.SignupForm, usernameExists: bool): (r: seq<FieldError>)
    ensures r == [] <==>
      ValidateName(f.firstName).None? && ValidateName(f.lastName).None? && SignupStudentId(f.studentId).None?
      && ValidatePhone(f.phone).None? && ValidateEmail(f.email).None? && !IsBlank(f.username) && !usernameExists
      && SignupPassword(f.password).None? && ConfirmPassword(f.password, f.confirmPassword).None?
  {
    DetailErrors(f) + UsernameErrors(f.username, usernameExists)
    + Errs(SignupPassword(f.password)) + Errs(ConfirmPassword(f.password, f.confirmPassword))
  }

  /** One validation step: a failing result is pushed onto `errors` and sets `hasErrors`. */
  method Record(errors: seq<FieldError>, hasErrors: bool, e: Option<FieldError>)
    returns (errors': seq<FieldError>, hasErrors': bool)
    ensures errors' == errors + Errs(e)
    ensures hasErrors' <==> hasErrors || e.Some?
  {
    errors', hasErrors' := errors, hasErrors;
    if e.Some? {
      errors' := errors' + [e.value];
      hasErrors' := true;
    }
  }

  /** The first five steps of `handleSignup`: names, student id, phone and e-mail. */
  method CheckDetails(f: Accounts.SignupForm) returns (errors: seq<FieldError>, hasErrors: bool)
    ensures errors == DetailErrors(f)
    ensures hasErrors <==> errors != []
  {
    var e1 := ValidateName(f.firstName);
    errors, hasErrors := Errs(e1), e1.Some?;
    errors, hasErrors := Record(errors, hasErrors, ValidateName(f.lastName));
    errors, hasErrors := Record(errors, hasErrors, SignupStudentId(f.studentId));
    errors, hasErrors := Record(errors, hasErrors, ValidatePhone(f.phone));
    errors, hasErrors := Record(errors, hasErrors, ValidateEmail(f.email));
  }

  /**
   * The username step: the basic check, and when it passes the lookup,
   * whose answer is `usernameExists`. `lookedUp` is the username the lookup
   * was made for.
   */
  method CheckUsername(errors: seq<FieldError>, hasErrors: bool, username: string, usernameExists: bool)
    returns (errors': seq<FieldError>, hasErrors': bool, lookedUp: Option<string>)
    requires hasErrors <==> errors != []
    ensures errors' == errors + UsernameErrors(username, usernameExists)
    ensures hasErrors' <==> errors' != []
    ensures lookedUp == if IsBlank(username) then None else Some(username)
  {
    var u := ValidateUsername(username);
    if u.Some? {
      errors', hasErrors' := Record(errors, hasErrors, u);
      lookedUp := None;
    } else {
      lookedUp := Some(username);
      errors', hasErrors' := errors, hasErrors;
      if usernameExists {
        errors', hasErrors' := Record(errors, hasErrors, Some(UsernameExists));
      } else {
        assert errors + [] == errors;
      }
    }
  }

  /**
   * `handleSignup`. `usernameExists` is what the lookup would answer; the
   * lookup is made, for the trimmed username, only when that is not blank.
   * The request is the trimmed form, sent only when `hasErrors` stays false.
   */
  method HandleSignup(raw: SignupInputs, usernameExists: bool)
    returns (errors: seq<FieldError>, hasErrors: bool, lookedUp: Option<string>, request: Option<Accounts.SignupForm>)
    ensures errors == SignupErrors(Trimmed(raw), usernameExists)
    ensures hasErrors <==> errors != [] || !raw.terms
    ensures lookedUp.Some? <==> !IsBlank(Trimmed(raw).username)
    ensures lookedUp.Some? ==> lookedUp.value == Trimmed(raw).username
    ensures request.Some? <==> !hasErrors
    ensures request.Some? ==> request.value == Trimmed(raw)
  {
    var f := Trimmed(raw);
    errors, hasErrors := CheckDetails(f);
    errors, hasErrors, lookedUp := CheckUsername(errors, hasErrors, f.username, usernameExists);
    errors, hasErrors := Record(errors, hasErrors, SignupPassword(f.password));
    errors, hasErrors := Record(errors, hasErrors, ConfirmPassword(f.password, f.confirmPassword));
    if !raw.terms {
      hasErrors := true;
    }
    if hasErrors {
      return errors, hasErrors, lookedUp, None;
    }
    request := Some(f);
  }

  /**
   * Every signup the page sends passes the server's whole validation chain:
   * all eight fields present, matching passwords, digit-free names, and the
   * student-id, phone and e-mail expressions. Only the uniqueness queries can
   * still refuse it.
   */
  lemma {:induction false} SentSignupPassesServerChecks(raw: SignupInputs, usernameExists: bool)
    requires SignupErrors(Trimmed(raw), usernameExists) == []
    ensures Accounts.SignupFormatError(Trimmed(raw)).None?
  {
    var f := Trimmed(raw);
    StudentIdRulesAgree(f.studentId);
    assert f.firstName != "" && f.lastName != "" && f.username != "";
    assert f.studentId != "" && f.phone != "" && f.email != "";
    assert f.password != "" && f.confirmPassword != "";
  }

  /**
   * The page is stricter than the server: the server accepts a password of
   * any length and without a symbol, which the page never sends.
   */
  lemma {:induction false} SentPasswordIsStrong(raw: SignupInputs, usernameExists: bool)
    requires SignupErrors(Trimmed(raw), usernameExists) == []
    ensures |raw.password| >= 5 && HasSignupSymbol(raw.password)
    ensures raw.confirmPassword == raw.password
  {
    assert SignupPassword(Trimmed(raw).password).None?;
  }
}
