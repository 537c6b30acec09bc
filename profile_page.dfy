/**
 * `handleProfileSubmit` of the profile page: the five text fields are
 * trimmed, an empty password becomes `undefined`, every entry of the form
 * object is validated in order (an absent password is skipped), and the
 * PATCH is sent only when no entry failed.
 */
module ProfilePage {
  import opened Common
  import opened Text
  import opened FieldRules
  import Accounts

  /** The raw values of the profile form's inputs. */
  datatype ProfileInputs = ProfileInputs(
    firstName: string, lastName: string, studentId: string, phone: string, email: string, password: string)

  /** The keys of the form object, in the order `Object.entries` yields them. */
  datatype ProfileField = FirstName | LastName | StudentId | Phone | Email | Password

  /** The form object: five trimmed fields, and the password as typed or `undefined` when empty. */
  function FormData(raw: ProfileInputs): (f: Accounts.ProfileForm)
    ensures f.password.None? <==> raw.password == ""
    ensures f.password.Some? ==> f.password.value == raw.password
  {
    Accounts.ProfileForm(Trim(raw.firstName), Trim(raw.lastName), Trim(raw.studentId), Trim(raw.phone),
                         Trim(raw.email), if raw.password == "" then None else Some(raw.password))
  }

  /** `Object.entries(formData)`. */
  function Entries(f: Accounts.ProfileForm): (es: seq<(ProfileField, Option<string>)>)
    ensures |es| == 6
  {
    [(FirstName, Some(f.firstName)), (LastName, Some(f.lastName)), (StudentId, Some(f.studentId)),
     (Phone, Some(f.phone)), (Email, Some(f.email)), (Password, f.password)]
  }

  /** The check of one entry; an absent or empty password is skipped. */
  function EntryError(field: ProfileField, value: Option<string>): Option<FieldError>
  {
    var v := if value.Some? then value.value else "";
    match field
    case FirstName => ValidateName(v)
    case LastName => ValidateName(v)
    case StudentId => ProfileStudentId(v)
    case Phone => ValidatePhone(v)
    case Email => ValidateEmail(v)
    case Password => if v == "" then None else ProfilePassword(v)
  }

  /** The messages the entries collect, in their order. */
  function EntryErrors(es: seq<(ProfileField, Option<string>)>): (r: seq<FieldError>)
    ensures |r| <= |es|
  {
    if es == [] then []
    else EntryErrors(es[..|es| - 1]) + Errs(EntryError(es[|es| - 1].0, es[|es| - 1].1))
  }

  /** Every message the page collects for a form. */
  function ProfileErrors(f: Accounts.ProfileForm): seq<FieldError>
  {
    EntryErrors(Entries(f))
  }

  /**
   * `handleProfileSubmit`: the `forEach` over the entries pushes each
   * failing check's message and sets `hasErrors`; the request is the form
   * object, sent only when nothing failed.
   */
  method HandleProfileSubmit(raw: ProfileInputs)
    returns (errors: seq<FieldError>, hasErrors: bool, request: Option<Accounts.ProfileForm>)
    ensures errors == ProfileErrors(FormData(raw))
    ensures hasErrors <==> errors != []
    ensures request.Some? <==> !hasErrors
    ensures request.Some? ==> request.value == FormData(raw)
  {
    var form := FormData(raw);
    errors, hasErrors := CollectErrors(Entries(form));
    if hasErrors {
      return errors, hasErrors, None;
    }
    request := Some(form);
  }

  /** The `forEach`: each failing entry's message is pushed and `hasErrors` set. */
  method CollectErrors(entries: seq<(ProfileField, Option<string>)>) returns (errors: seq<FieldError>, hasErrors: bool)
    ensures errors == EntryErrors(entries)
    ensures hasErrors <==> errors != []
  {
    errors, hasErrors := [], false;
    var i := 0;
    while i < |entries|
      invariant 0 <= i <= |entries|
      invariant errors == EntryErrors(entries[..i])
      invariant hasErrors <==> errors != []
    {
      var (field, value) := entries[i];
      var error := EntryError(field, value);
      EntryErrorsStep(entries, i);
      if error.Some? {
        errors := errors + [error.value];
        hasErrors := true;
      }
      i := i + 1;
    }
    assert entries[..i] == entries;
  }

  /** One more entry adds its own message, if any, after the earlier ones. */
  lemma EntryErrorsStep(es: seq<(ProfileField, Option<string>)>, i: nat)
    requires i < |es|
    ensures EntryErrors(es[..i + 1]) == EntryErrors(es[..i]) + Errs(EntryError(es[i].0, es[i].1))
  {
    assert es[..i + 1][..i] == es[..i];
  }

  /** The entries collect no message exactly when every entry passes its check. */
  lemma {:induction false} EntryErrorsEmptyIff(es: seq<(ProfileField, Option<string>)>)
    ensures EntryErrors(es) == [] <==> forall i :: 0 <= i < |es| ==> EntryError(es[i].0, es[i].1).None?
    decreases |es|
  {
    if es != [] {
      var init := es[..|es| - 1];
      EntryErrorsEmptyIff(init);
      assert forall i :: 0 <= i < |init| ==> init[i] == es[i];
    }
  }

  /**
   * The page's list is empty exactly when the two names, the student id, the
   * phone and the e-mail pass their checks and the password is either absent
   * or passes the profile rule.
   */
  lemma {:induction false} ProfileErrorsEmptyIff(f: Accounts.ProfileForm)
    ensures ProfileErrors(f) == [] <==>
      ValidateName(f.firstName).None? && ValidateName(f.lastName).None?
      && StudentIdPattern(f.studentId) && PhonePattern(f.phone) && EmailPattern(f.email)
      && (f.password.None? || ProfilePassword(f.password.value).None?)
  {
    var es := Entries(f);
    StudentIdRulesAgree(f.studentId);
    EntryErrorsEmptyIff(es);
    assert EntryError(es[0].0, es[0].1) == ValidateName(f.firstName);
    assert EntryError(es[1].0, es[1].1) == ValidateName(f.lastName);
    assert EntryError(es[2].0, es[2].1) == ProfileStudentId(f.studentId);
    assert EntryError(es[3].0, es[3].1) == ValidatePhone(f.phone);
    assert EntryError(es[4].0, es[4].1) == ValidateEmail(f.email);
    assert EntryError(es[5].0, es[5].1).None? <==> f.password.None? || ProfilePassword(f.password.value).None?;
  }

  /**
   * Every PATCH the page sends passes the server's format chain; only the
   * uniqueness queries can still refuse it.
   */
  lemma {:induction false} SentProfileIsWellFormed(raw: ProfileInputs)
    requires ProfileErrors(FormData(raw)) == []
    ensures Accounts.WellFormedProfile(FormData(raw))
  {
    ProfileErrorsEmptyIff(FormData(raw));
  }

  /**
   * A sent PATCH changes the stored password exactly when the password
   * input was not empty: an empty input is sent as `undefined`, and a
   * non-empty one that passed the profile rule is never blank.
   */
  lemma {:induction false} SentPasswordChangesIff(raw: ProfileInputs)
    requires ProfileErrors(FormData(raw)) == []
    ensures Accounts.ChangesPassword(FormData(raw)) <==> raw.password != ""
  {
    ProfileErrorsEmptyIff(FormData(raw));
    if raw.password != "" {
      AcceptedProfilePasswordIsNotBlank(raw.password);
    }
  }
}
