/**
 * `POST /api/applications`: the period sweep, the upload middleware, and the
 * route itself, which checks the required files, the open period and the
 * one-application-per-user rule, inserts the row, and removes the uploaded
 * files on every refusal after the required-files check and on every
 * database failure, which is then left without a reply.
 */
module Submission {
  import opened Common
  import opened Text
  import opened Uploads
  import opened Periods
  import opened Applications

  /**
   * The text fields of the multipart form. The university choices are the
   * parsed ids, an empty second or third choice being `None`; the two flags
   * are the submitted texts.
   */
  datatype Form = Form(
    userId: nat, percent: real, average: real, english: string, knowsLanguages: string,
    first: int, second: Option<int>, third: Option<int>, terms: string)

  datatype SubmitBody =
    | Submitted(applicationId: nat)
    | UploadRejected(error: IntakeError)
    | MissingFiles
    | PeriodNotActive
    | AlreadyApplied
    | SubmitFailed

  /** Which database step of the route throws, if any. */
  datatype SubmitFault = NoDbFault | PeriodQueryFails | ExistingQueryFails | InsertFails

  /** `is_active = 1 AND CURDATE() BETWEEN start_date AND end_date` for some period. */
  predicate OpenForSubmission(rows: seq<Period>, now: int)
  {
    exists i :: 0 <= i < |rows| && rows[i].active && rows[i].start <= Today(now) <= rows[i].end
  }

  /** The other certificates' stored names, or nothing when the field carried no file. */
  function OthersOf(us: seq<Upload>, userId: nat): (r: Option<seq<string>>)
    ensures r.None? <==> Count(us, OthersField) == 0
  {
    var names := FieldNames(us, OthersField, userId);
    if names == [] then None else Some(names)
  }

  /** The row the route inserts (its id is assigned by the table). */
  function RowOf(form: Form, us: seq<Upload>, now: int): Application
    requires Count(us, TranscriptField) > 0 && Count(us, EnglishField) > 0
  {
    Application(0, form.userId, form.percent, form.average, form.english, form.knowsLanguages == "true",
                form.first, form.second, form.third,
                FieldNames(us, TranscriptField, form.userId)[0], FieldNames(us, EnglishField, form.userId)[0],
                OthersOf(us, form.userId), form.terms == "true", now, false)
  }

  /**
   * The inserted row records the form: a flag is set exactly when its text is
   * `'true'`; the files are the stored transcript, English certificate and
   * other certificates of this request; and the row is not accepted.
   */
  lemma RowRecordsTheForm(form: Form, us: seq<Upload>, now: int)
    requires Count(us, TranscriptField) > 0 && Count(us, EnglishField) > 0
    ensures var a := RowOf(form, us, now);
      (a.knowsLanguages <==> form.knowsLanguages == "true") && (a.terms <==> form.terms == "true")
      && a.second == form.second && a.third == form.third && a.userId == form.userId
      && !a.accepted && a.submittedAt == now
      && (a.others.None? <==> Count(us, OthersField) == 0)
  {
  }

  /** The transcript and the English certificate of the row are stored names of files of their fields. */
  lemma RowFilesAreStored(form: Form, us: seq<Upload>, now: int)
    requires Count(us, TranscriptField) > 0 && Count(us, EnglishField) > 0
    ensures var a := RowOf(form, us, now); var names := StoredNames(us, form.userId);
      (exists k :: 0 <= k < |us| && us[k].fieldName == TranscriptField && names[k] == a.transcript)
      && (exists k :: 0 <= k < |us| && us[k].fieldName == EnglishField && names[k] == a.englishCert)
  {
    var a := RowOf(form, us, now);
    var names := StoredNames(us, form.userId);
    var k := FieldNameOrigin(us, TranscriptField, form.userId, 0);
    assert names[k] == a.transcript;
    var m := FieldNameOrigin(us, EnglishField, form.userId, 0);
    assert names[m] == a.englishCert;
  }

  /** Each recorded other certificate is the stored name of a file of the other-certificates field. */
  lemma RowOthersAreStored(form: Form, us: seq<Upload>, now: int, i: nat)
    requires Count(us, TranscriptField) > 0 && Count(us, EnglishField) > 0
    requires var a := RowOf(form, us, now); a.others.Some? && i < |a.others.value|
    ensures var a := RowOf(form, us, now); var names := StoredNames(us, form.userId);
      exists k :: 0 <= k < |us| && us[k].fieldName == OthersField && names[k] == a.others.value[i]
  {
    var j := FieldNameOrigin(us, OthersField, form.userId, i);
    assert StoredNames(us, form.userId)[j] == RowOf(form, us, now).others.value[i];
  }

  /**
   * The sweep deactivates a period from the first instant after the midnight
   * of its end day, so after it no period admits a submission on its end day
   * later than that midnight, although the submission query includes the end date.
   */
  lemma NoSubmissionLateOnTheEndDay(rows: seq<Period>, now: int, i: int)
    requires 0 <= i < |rows|
    requires Today(now) == rows[i].end && now > Midnight(rows[i].end)
    ensures !DeactivateExpired(rows, now)[i].active
  {
  }

  /** After the sweep, a period that admits submissions is open in the sense of `/current` too. */
  lemma SweptOpenPeriodIsCurrent(rows: seq<Period>, now: int, i: int)
    requires 0 <= i < |rows|
    requires var r := DeactivateExpired(rows, now); r[i].active && r[i].start <= Today(now) <= r[i].end
    ensures OpenAt(rows[i], now)
  {
    OpenAtIsDayRange(rows[i], now);
  }

  /**
   * Whether the database step that throws is reached: the period query
   * always runs, the existing-application query only for an open period,
   * and the insert only when the user has no application yet.
   */
  predicate FaultReached(fault: SubmitFault, open: bool, applied: bool)
  {
    match fault
    case NoDbFault => false
    case PeriodQueryFails => true
    case ExistingQueryFails => open
    case InsertFails => open && !applied
  }

  /**
   * The route after the upload middleware stored the files named `names`:
   * the required files, the open period (over the swept table `periods`),
   * the one-application rule, then the insert. When a database step throws,
   * the inner `catch` removes the files and rethrows; the outer `catch`
   * then calls `cleanup`, which is declared inside the outer `try` and is
   * not in scope there, so it throws in turn and no reply is sent (`None`).
   */
  method Route(periods: seq<Period>, apps: ApplicationTable, dir: UploadDir,
               now: int, us: seq<Upload>, names: seq<string>, form: Form, fault: SubmitFault)
    returns (reply: Option<Reply<SubmitBody>>)
    requires apps.Valid()
    modifies apps, dir
    ensures apps.Valid()
    ensures Count(us, TranscriptField) == 0 || Count(us, EnglishField) == 0 ==>
      reply == Some(Reply(400, MissingFiles)) && dir.files == old(dir.files)
    ensures reply.None? <==>
      Count(us, TranscriptField) > 0 && Count(us, EnglishField) > 0
      && FaultReached(fault, OpenForSubmission(periods, now), HasApplication(old(apps.rows), form.userId))
    ensures reply.None? || reply.value.body.PeriodNotActive? || reply.value.body.AlreadyApplied? ==>
      dir.files == old(dir.files) - NameSet(names)
    ensures reply.Some? && reply.value.body.PeriodNotActive? ==> reply.value.status == 400 && !OpenForSubmission(periods, now)
    ensures reply.Some? && reply.value.body.AlreadyApplied? ==> reply.value.status == 400 && HasApplication(old(apps.rows), form.userId)
    ensures reply.Some? ==> !reply.value.body.SubmitFailed? && (reply.value.status == 400 || reply.value.status == 201)
    ensures reply != Some(Reply(201, Submitted(old(apps.nextId)))) ==> apps.rows == old(apps.rows) && apps.nextId == old(apps.nextId)
    ensures (reply.Some? && reply.value.status == 201) <==>
      Count(us, TranscriptField) > 0 && Count(us, EnglishField) > 0
      && fault == NoDbFault && OpenForSubmission(periods, now) && !HasApplication(old(apps.rows), form.userId)
    ensures reply.Some? && reply.value.status == 201 ==>
      reply.value.body == Submitted(old(apps.nextId))
      && apps.rows == old(apps.rows) + [RowOf(form, us, now).(id := old(apps.nextId))]
      && dir.files == old(dir.files)
  {
    if Count(us, TranscriptField) == 0 || Count(us, EnglishField) == 0 {
      return Some(Reply(400, MissingFiles));
    }
    if fault == PeriodQueryFails {
      dir.Unlink(names);
      return None;
    }
    if !OpenForSubmission(periods, now) {
      dir.Unlink(names);
      return Some(Reply(400, PeriodNotActive));
    }
    if fault == ExistingQueryFails {
      dir.Unlink(names);
      return None;
    }
    if HasApplication(apps.rows, form.userId) {
      dir.Unlink(names);
      return Some(Reply(400, AlreadyApplied));
    }
    if fault == InsertFails {
      dir.Unlink(names);
      return None;
    }
    var id := apps.Insert(RowOf(form, us, now));
    reply := Some(Reply(201, Submitted(id)));
  }

  /**
   * The route as evidently intended: with `cleanup` declared before the
   * outer `try`, the outer `catch` removes the files again (nothing more is
   * removed: the inner `catch` already did) and answers 500.
   */
  method RouteIntended(periods: seq<Period>, apps: ApplicationTable, dir: UploadDir,
                       now: int, us: seq<Upload>, names: seq<string>, form: Form, fault: SubmitFault)
    returns (reply: Reply<SubmitBody>)
    requires apps.Valid()
    modifies apps, dir
    ensures apps.Valid()
    ensures reply.status == 500 <==>
      Count(us, TranscriptField) > 0 && Count(us, EnglishField) > 0
      && FaultReached(fault, OpenForSubmission(periods, now), HasApplication(old(apps.rows), form.userId))
    ensures reply.status == 500 ==>
      reply.body == SubmitFailed && dir.files == old(dir.files) - NameSet(names)
      && apps.rows == old(apps.rows) && apps.nextId == old(apps.nextId)
    ensures reply.status == 201 <==>
      Count(us, TranscriptField) > 0 && Count(us, EnglishField) > 0
      && fault == NoDbFault && OpenForSubmission(periods, now) && !HasApplication(old(apps.rows), form.userId)
    ensures reply.status == 201 ==>
      reply.body == Submitted(old(apps.nextId))
      && apps.rows == old(apps.rows) + [RowOf(form, us, now).(id := old(apps.nextId))]
    ensures reply.status != 201 && reply.status != 500 ==>
      reply.status == 400 && apps.rows == old(apps.rows)
  {
    var r := Route(periods, apps, dir, now, us, names, form, fault);
    if r.None? {
      dir.Unlink(names);
      return Reply(500, SubmitFailed);
    }
    reply := r.value;
  }

  /**
   * The upload middleware followed by the route: a file refused by the
   * middleware fails the request and the middleware removes what it stored;
   * otherwise the files are stored under their generated names and the route
   * runs. A request without a transcript or English certificate is refused
   * before the route defines its cleanup, so its stored files stay.
   */
  method UploadAndRoute(periods: seq<Period>, apps: ApplicationTable, dir: UploadDir,
                        now: int, us: seq<Upload>, form: Form, fault: SubmitFault)
    returns (reply: Option<Reply<SubmitBody>>)
    requires apps.Valid()
    modifies apps, dir
    ensures apps.Valid()
    ensures Intake(us).Some? ==>
      reply == Some(Reply(ErrorStatus(Intake(us).value), UploadRejected(Intake(us).value)))
      && dir.files == old(dir.files) && apps.rows == old(apps.rows)
    ensures Intake(us).None? && (Count(us, TranscriptField) == 0 || Count(us, EnglishField) == 0) ==>
      reply == Some(Reply(400, MissingFiles)) && dir.files == old(dir.files) + NameSet(StoredNames(us, form.userId))
    ensures reply.None? <==>
      Intake(us).None? && Count(us, TranscriptField) > 0 && Count(us, EnglishField) > 0
      && FaultReached(fault, OpenForSubmission(periods, now), HasApplication(old(apps.rows), form.userId))
    ensures Intake(us).None? && (reply.None? || reply.value.body.PeriodNotActive? || reply.value.body.AlreadyApplied?) ==>
      dir.files == old(dir.files) - NameSet(StoredNames(us, form.userId))
    ensures reply.Some? && reply.value.body.PeriodNotActive? ==> !OpenForSubmission(periods, now)
    ensures reply.Some? && reply.value.body.AlreadyApplied? ==> HasApplication(old(apps.rows), form.userId)
    ensures !(reply.Some? && reply.value.status == 201) ==> apps.rows == old(apps.rows) && apps.nextId == old(apps.nextId)
    ensures (reply.Some? && reply.value.status == 201) <==>
      Intake(us).None? && Count(us, TranscriptField) > 0 && Count(us, EnglishField) > 0
      && fault == NoDbFault && OpenForSubmission(periods, now) && !HasApplication(old(apps.rows), form.userId)
    ensures reply.Some? && reply.value.status == 201 ==>
      reply.value.body == Submitted(old(apps.nextId))
      && apps.rows == old(apps.rows) + [RowOf(form, us, now).(id := old(apps.nextId))]
      && dir.files == old(dir.files) + NameSet(StoredNames(us, form.userId))
  {
    var err := Intake(us);
    if err.Some? {
      return Some(Reply(ErrorStatus(err.value), UploadRejected(err.value)));
    }
    reply := StoreAndRoute(periods, apps, dir, now, us, form, fault);
  }

  /** The files passed the middleware: store them under their generated names, then run the route. */
  method StoreAndRoute(periods: seq<Period>, apps: ApplicationTable, dir: UploadDir,
                       now: int, us: seq<Upload>, form: Form, fault: SubmitFault)
    returns (reply: Option<Reply<SubmitBody>>)
    requires apps.Valid()
    modifies apps, dir
    ensures apps.Valid()
    ensures Count(us, TranscriptField) == 0 || Count(us, EnglishField) == 0 ==>
      reply == Some(Reply(400, MissingFiles)) && dir.files == old(dir.files) + NameSet(StoredNames(us, form.userId))
    ensures reply.None? <==>
      Count(us, TranscriptField) > 0 && Count(us, EnglishField) > 0
      && FaultReached(fault, OpenForSubmission(periods, now), HasApplication(old(apps.rows), form.userId))
    ensures reply.None? || reply.value.body.PeriodNotActive? || reply.value.body.AlreadyApplied? ==>
      dir.files == old(dir.files) - NameSet(StoredNames(us, form.userId))
    ensures reply.Some? && reply.value.body.PeriodNotActive? ==> !OpenForSubmission(periods, now)
    ensures reply.Some? && reply.value.body.AlreadyApplied? ==> HasApplication(old(apps.rows), form.userId)
    ensures !(reply.Some? && reply.value.status == 201) ==> apps.rows == old(apps.rows) && apps.nextId == old(apps.nextId)
    ensures (reply.Some? && reply.value.status == 201) <==>
      Count(us, TranscriptField) > 0 && Count(us, EnglishField) > 0
      && fault == NoDbFault && OpenForSubmission(periods, now) && !HasApplication(old(apps.rows), form.userId)
    ensures reply.Some? && reply.value.status == 201 ==>
      reply.value.body == Submitted(old(apps.nextId))
      && apps.rows == old(apps.rows) + [RowOf(form, us, now).(id := old(apps.nextId))]
      && dir.files == old(dir.files) + NameSet(StoredNames(us, form.userId))
  {
    var names := StoredNames(us, form.userId);
    ghost var before := dir.files;
    dir.files := dir.files + NameSet(names);
    reply := Route(periods, apps, dir, now, us, names, form, fault);
    StoredThenRemoved(before, NameSet(names));
  }

  /** Files added and then removed leave only what was there before and is not among them. */
  lemma StoredThenRemoved(before: set<string>, added: set<string>)
    ensures (before + added) - added == before - added
  {
  }

  /**
   * `POST /api/applications`: the period sweep runs first and never blocks
   * the request; the open-period check then reads the swept table. A
   * database failure in the route leaves the request without a reply.
   */
  method Submit(periods: PeriodTable, apps: ApplicationTable, dir: UploadDir,
                now: int, sweepFault: SweepFault, us: seq<Upload>, form: Form, fault: SubmitFault)
    returns (reply: Option<Reply<SubmitBody>>)
    requires periods.Valid() && apps.Valid()
    modifies periods, apps, dir
    ensures periods.Valid() && apps.Valid()
    ensures periods.rows == if sweepFault == FailBeforeUpdate then old(periods.rows) else DeactivateExpired(old(periods.rows), now)
    ensures reply.None? <==>
      Intake(us).None? && Count(us, TranscriptField) > 0 && Count(us, EnglishField) > 0
      && FaultReached(fault, OpenForSubmission(periods.rows, now), HasApplication(old(apps.rows), form.userId))
    ensures (reply.Some? && reply.value.status == 201) <==>
      Intake(us).None? && Count(us, TranscriptField) > 0 && Count(us, EnglishField) > 0
      && fault == NoDbFault && OpenForSubmission(periods.rows, now) && !HasApplication(old(apps.rows), form.userId)
    ensures !(reply.Some? && reply.value.status == 201) ==> apps.rows == old(apps.rows) && apps.nextId == old(apps.nextId)
    ensures reply.Some? && reply.value.status == 201 ==>
      reply.value.body == Submitted(old(apps.nextId))
      && apps.rows == old(apps.rows) + [RowOf(form, us, now).(id := old(apps.nextId))]
  {
    var _ := periods.Sweep(now, sweepFault);
    reply := UploadAndRoute(periods.rows, apps, dir, now, us, form, fault);
  }
}
