/**
 * The application page: `validateFile`, `validateForm` and the guards of
 * `handleApplicationSubmit`, which sends the multipart POST only after the
 * form passes, the server says there is no earlier application, and every
 * chosen file passes the page's own type and size check.
 */
module ApplicationPage {
  import opened Common
  import Uploads

  /** What the page knows of a chosen file: its name, `file.type` and `file.size`. */
  datatype FileInfo = FileInfo(name: string, mimeType: string, size: nat)

  /** `validateFile` with its default `maxSize` of 5 MiB. */
  function ValidateFile(file: FileInfo): (ok: bool)
    ensures ok <==> Uploads.AllowedType(file.mimeType) && file.size <= Uploads.MaxFileSize
  {
    var allowedTypes := ["application/pdf", "image/jpeg", "image/png"];
    if file.mimeType !in allowedTypes then false
    else if file.size > 5 * 1024 * 1024 then false
    else true
  }

  /**
   * The page's file check is the server's filter and size limit: a file the
   * page accepts is accepted by the upload middleware in any declared field,
   * and a file the page refuses would be refused there too.
   */
  lemma PageAndServerAgreeOnFiles(file: FileInfo, field: string, now: nat)
    requires Uploads.KnownField(field)
    ensures ValidateFile(file) <==> Uploads.ValidFile(Uploads.Upload(field, file.mimeType, file.size, file.name, now))
  {
  }

  /**
   * The inputs `validateForm` reads: the two numbers as `parseFloat` reads
   * them, the checked English level and languages answer (absent when no
   * radio button is checked), the first choice's value and the terms box.
   */
  datatype FormInputs = FormInputs(
    percent: NumberField, average: NumberField, english: Option<string>, knowsLanguages: Option<bool>,
    firstChoice: string, terms: bool)

  /** The alert `validateForm` shows, one per check. */
  datatype FormProblem =
    | PercentMissing | PercentOutOfRange | AverageMissing | AverageOutOfRange
    | EnglishMissing | LanguagesMissing | FirstChoiceMissing | TermsNotAccepted

  /** `validateForm`: the checks in order; the first that fails is reported. */
  function ValidateForm(f: FormInputs): (r: Option<FormProblem>)
    ensures r.None? <==> FormComplete(f)
  {
    if f.percent.Empty? then Some(PercentMissing)
    else if f.percent.NaN? || f.percent.value < 0.0 || f.percent.value > 100.0 then Some(PercentOutOfRange)
    else if f.average.Empty? then Some(AverageMissing)
    else if f.average.NaN? || f.average.value < 0.0 || f.average.value > 10.0 then Some(AverageOutOfRange)
    else if f.english.None? then Some(EnglishMissing)
    else if f.knowsLanguages.None? then Some(LanguagesMissing)
    else if f.firstChoice == "" then Some(FirstChoiceMissing)
    else if !f.terms then Some(TermsNotAccepted)
    else None
  }

  /**
   * A complete form: a percent in [0, 100] and an average in [0, 10], both
   * bounds included and NaN refused, an English level, a languages answer,
   * a first choice and the accepted terms.
   */
  predicate FormComplete(f: FormInputs)
  {
    f.percent.Num? && 0.0 <= f.percent.value <= 100.0
    && f.average.Num? && 0.0 <= f.average.value <= 10.0
    && f.english.Some? && f.knowsLanguages.Some? && f.firstChoice != "" && f.terms
  }

  /** The problem each check would report on its own, in the order of the checks. */
  function Problems(f: FormInputs): (ps: seq<FormProblem>)
  {
    (if f.percent.Empty? then [PercentMissing]
     else if !(f.percent.Num? && 0.0 <= f.percent.value <= 100.0) then [PercentOutOfRange] else [])
    + (if f.average.Empty? then [AverageMissing]
       else if !(f.average.Num? && 0.0 <= f.average.value <= 10.0) then [AverageOutOfRange] else [])
    + (if f.english.None? then [EnglishMissing] else [])
    + (if f.knowsLanguages.None? then [LanguagesMissing] else [])
    + (if f.firstChoice == "" then [FirstChoiceMissing] else [])
    + (if f.terms then [] else [TermsNotAccepted])
  }

  /** `validateForm` reports exactly the first of all the problems the form has. */
  lemma ValidateFormReportsFirstProblem(f: FormInputs)
    ensures ValidateForm(f) == if Problems(f) == [] then None else Some(Problems(f)[0])
  {
  }

  /** What the server answers to `/check-status`: a `hasApplication` flag, or the request throws. */
  datatype CheckAnswer = Answered(hasApplication: bool) | CheckThrew

  /** What comes of the POST: an `ok` reply, an error reply, or a thrown error. */
  datatype PostAnswer = PostOk | PostRefused | PostThrew

  /** The multipart request: the form's values, the two required files and the other certificates in order. */
  datatype ApplicationRequest = ApplicationRequest(
    form: FormInputs, transcript: FileInfo, englishCert: FileInfo, others: seq<FileInfo>)

  /** How a submit ends. */
  datatype SubmitOutcome =
    | Ignored               // a submit is already in progress
    | FormInvalid(problem: FormProblem)
    | AlreadyApplied
    | FileRejected          // a required file is missing or a file fails `validateFile`
    | Submitted             // the POST succeeded
    | SubmitRefused         // the POST returned an error reply
    | Failed                // a request threw

  /** Every file of a request passes the page's check. */
  predicate FilesValid(transcript: Option<FileInfo>, englishCert: Option<FileInfo>, others: seq<FileInfo>)
  {
    transcript.Some? && ValidateFile(transcript.value)
    && englishCert.Some? && ValidateFile(englishCert.value)
    && forall k :: 0 <= k < |others| ==> ValidateFile(others[k])
  }

  /** The outcome of a submit that is not ignored, from the inputs alone. */
  function Outcome(f: FormInputs, check: CheckAnswer, transcript: Option<FileInfo>, englishCert: Option<FileInfo>,
                   others: seq<FileInfo>, post: PostAnswer): (o: SubmitOutcome)
    ensures o != Ignored
    ensures o in {Submitted, SubmitRefused} ==> ValidateForm(f).None? && FilesValid(transcript, englishCert, others)
  {
    if ValidateForm(f).Some? then FormInvalid(ValidateForm(f).value)
    else if check.CheckThrew? then Failed
    else if check.hasApplication then AlreadyApplied
    else if !FilesValid(transcript, englishCert, others) then FileRejected
    else if post == PostOk then Submitted
    else if post == PostRefused then SubmitRefused
    else Failed
  }

  /** Whether the POST is made: the form passed, no earlier application, every file valid. */
  predicate Posts(f: FormInputs, check: CheckAnswer, transcript: Option<FileInfo>, englishCert: Option<FileInfo>,
                  others: seq<FileInfo>)
  {
    ValidateForm(f).None? && check == Answered(false) && FilesValid(transcript, englishCert, others)
  }

  /**
   * The submit button after a submit that was not ignored. It stays disabled
   * after a successful POST (all inputs are disabled), and also after a file
   * rejection, whose early return skips the re-enabling; `isSubmitting` is
   * reset in every case by `finally`.
   */
  function ButtonDisabledAfter(o: SubmitOutcome): bool
  {
    o == Submitted || o == FileRejected
  }

  /** After a file rejection the button stays disabled although no submit is in progress. */
  lemma FileRejectionLeavesButtonDisabled(f: FormInputs, transcript: Option<FileInfo>, englishCert: Option<FileInfo>,
                                          others: seq<FileInfo>, post: PostAnswer)
    requires ValidateForm(f).None? && !FilesValid(transcript, englishCert, others)
    ensures ButtonDisabledAfter(Outcome(f, Answered(false), transcript, englishCert, others, post))
  {
  }

  class ApplicationForm {
    /** The module-level `isSubmitting` flag. */
    var isSubmitting: bool
    /** `submitButton.disabled`. */
    var buttonDisabled: bool
    /** Whether every input of the page was disabled after a successful submit. */
    var inputsDisabled: bool

    constructor ()
      ensures !isSubmitting && !buttonDisabled && !inputsDisabled
    {
      isSubmitting := false;
      buttonDisabled := false;
      inputsDisabled := false;
    }

    /**
     * The files loop: each other certificate is checked and appended in
     * turn; the first invalid one stops the loop.
     */
    method AppendOthers(others: seq<FileInfo>) returns (ok: bool, appended: seq<FileInfo>)
      ensures ok <==> forall k :: 0 <= k < |others| ==> ValidateFile(others[k])
      ensures ok ==> appended == others
    {
      appended := [];
      var i := 0;
      while i < |others|
        invariant 0 <= i <= |others|
        invariant appended == others[..i]
        invariant forall k :: 0 <= k < i ==> ValidateFile(others[k])
      {
        if !ValidateFile(others[i]) {
          return false, appended;
        }
        appended := appended + [others[i]];
        i := i + 1;
      }
      ok := true;
    }

    /**
     * `handleApplicationSubmit`. A submit made while another is in progress
     * changes nothing. Otherwise the POST is made exactly when the form is
     * complete, the server reports no earlier application and every file is
     * valid, and it carries the form and all the files in order.
     */
    method HandleSubmit(f: FormInputs, check: CheckAnswer, transcript: Option<FileInfo>,
                        englishCert: Option<FileInfo>, others: seq<FileInfo>, post: PostAnswer)
      returns (outcome: SubmitOutcome, request: Option<ApplicationRequest>)
      modifies this
      ensures old(isSubmitting) ==>
        outcome == Ignored && request.None? && isSubmitting && buttonDisabled == old(buttonDisabled)
        && inputsDisabled == old(inputsDisabled)
      ensures !old(isSubmitting) ==>
        outcome == Outcome(f, check, transcript, englishCert, others, post) && !isSubmitting
        && buttonDisabled == ButtonDisabledAfter(outcome)
        && inputsDisabled == (old(inputsDisabled) || outcome == Submitted)
      ensures request.Some? <==> !old(isSubmitting) && Posts(f, check, transcript, englishCert, others)
      ensures request.Some? ==>
        request.value == ApplicationRequest(f, transcript.value, englishCert.value, others)
    {
      if isSubmitting {
        return Ignored, None;
      }
      buttonDisabled := true;
      isSubmitting := true;
      request := None;
      if ValidateForm(f).Some? {
        buttonDisabled := false;
        outcome := FormInvalid(ValidateForm(f).value);
      } else if check.CheckThrew? {
        buttonDisabled := false;
        outcome := Failed;
      } else if check.hasApplication {
        buttonDisabled := false;
        outcome := AlreadyApplied;
      } else if transcript.None? || !ValidateFile(transcript.value)
             || englishCert.None? || !ValidateFile(englishCert.value) {
        outcome := FileRejected;
      } else {
        var ok, appended := AppendOthers(others);
        if !ok {
          outcome := FileRejected;
        } else {
          request := Some(ApplicationRequest(f, transcript.value, englishCert.value, appended));
          if post == PostOk {
            inputsDisabled := true;
            outcome := Submitted;
          } else {
            buttonDisabled := false;
            outcome := if post == PostRefused then SubmitRefused else Failed;
          }
        }
      }
      isSubmitting := false;
    }
  }

  /** A transcript followed by an English certificate counts once for each and never for the others. */
  lemma RequiredPairCounts(t: Uploads.Upload, e: Uploads.Upload)
    requires t.fieldName == Uploads.TranscriptField && e.fieldName == Uploads.EnglishField
    ensures Uploads.Count([t, e], Uploads.TranscriptField) == 1
    ensures Uploads.Count([t, e], Uploads.EnglishField) == 1
    ensures Uploads.Count([t, e], Uploads.OthersField) == 0
  {
    assert [t, e][..1] == [t] && [t][..0] == [];
  }

  /** Every file of a request whose files the page checked passes the middleware's filter and size limit. */
  lemma SentFilesAreValid(req: ApplicationRequest, now: nat)
    requires ValidateFile(req.transcript) && ValidateFile(req.englishCert)
    requires forall k :: 0 <= k < |req.others| ==> ValidateFile(req.others[k])
    ensures forall k :: 0 <= k < |RequestUploads(req, now)| ==> Uploads.ValidFile(RequestUploads(req, now)[k])
  {
    var us := RequestUploads(req, now);
    forall k | 0 <= k < |us| ensures Uploads.ValidFile(us[k]) {
      if k >= 2 {
        PageAndServerAgreeOnFiles(req.others[k - 2], Uploads.OthersField, now);
      }
    }
  }

  /** The files of a request in the order the upload middleware receives them, all stamped `now`. */
  function RequestUploads(req: ApplicationRequest, now: nat): (us: seq<Uploads.Upload>)
    ensures |us| == |req.others| + 2
  {
    [Uploads.Upload(Uploads.TranscriptField, req.transcript.mimeType, req.transcript.size, req.transcript.name, now),
     Uploads.Upload(Uploads.EnglishField, req.englishCert.mimeType, req.englishCert.size, req.englishCert.name, now)]
    + seq(|req.others|, k requires 0 <= k < |req.others| =>
        Uploads.Upload(Uploads.OthersField, req.others[k].mimeType, req.others[k].size, req.others[k].name, now))
  }

  /**
   * The page never limits the number of other certificates: a request it
   * sends, all of whose files it has checked, passes the upload middleware
   * exactly when it carries at most five other certificates.
   */
  lemma {:induction false} SentFilesPassIntakeIff(req: ApplicationRequest, now: nat)
    requires ValidateFile(req.transcript) && ValidateFile(req.englishCert)
    requires forall k :: 0 <= k < |req.others| ==> ValidateFile(req.others[k])
    ensures Uploads.Intake(RequestUploads(req, now)).None? <==> |req.others| <= 5
  {
    var us := RequestUploads(req, now);
    var head, tail := us[..2], us[2..];
    assert us == head + tail;
    forall k | 0 <= k < |tail| ensures tail[k].fieldName == Uploads.OthersField {
      assert tail[k] == us[k + 2];
    }
    Uploads.CountUniform(tail, Uploads.OthersField, Uploads.TranscriptField);
    Uploads.CountUniform(tail, Uploads.OthersField, Uploads.EnglishField);
    Uploads.CountUniform(tail, Uploads.OthersField, Uploads.OthersField);
    Uploads.CountAppend(head, tail, Uploads.TranscriptField);
    Uploads.CountAppend(head, tail, Uploads.EnglishField);
    Uploads.CountAppend(head, tail, Uploads.OthersField);
    assert head == [us[0], us[1]];
    RequiredPairCounts(us[0], us[1]);
    SentFilesAreValid(req, now);
    Uploads.IntakeAcceptsIff(us);
  }
}
