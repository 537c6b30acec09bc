/**
 * The applications table and the routes of `routes/applications.js` that
 * read or change it after submission: the acceptance flag, the bulk
 * acceptance of the admin page, deletion together with the stored files,
 * the file route, `check-status` and `publish-results`.
 */
module Applications {
  import opened Common
  import opened Text
  import Lists
  import opened Uploads
  import opened Periods
  import opened Sessions

  /**
   * A row of the applications table. The university choices are university
   * ids; `others` holds the stored names of the other certificates, which
   * the column keeps as their JSON text, or nothing when none was uploaded.
   */
  datatype Application = Application(
    id: nat, userId: nat, percent: real, average: real, english: string, knowsLanguages: bool,
    first: int, second: Option<int>, third: Option<int>,
    transcript: string, englishCert: string, others: Option<seq<string>>,
    terms: bool, submittedAt: int, accepted: bool)

  /** Rows in insertion order: ids strictly increasing. */
  predicate Ascending(rows: seq<Application>)
  {
    Lists.StrictlyIncreasing(rows, (a: Application) => a.id as int)
  }

  /** `SELECT ... WHERE id = ?`. */
  function Find(rows: seq<Application>, id: int): (r: Option<Application>)
    ensures r.None? <==> forall i :: 0 <= i < |rows| ==> rows[i].id != id
    ensures r.Some? ==> r.value in rows && r.value.id == id
  {
    if rows == [] then None
    else if rows[0].id == id then Some(rows[0])
    else
      assert forall i :: 1 <= i < |rows| ==> rows[i] == rows[1..][i - 1];
      Find(rows[1..], id)
  }

  /** At most one application per user. */
  predicate OnePerUser(rows: seq<Application>)
  {
    Lists.DistinctKeys(rows, (a: Application) => a.userId)
  }

  /** `SELECT id FROM applications WHERE user_id = ?` returns a row. */
  predicate HasApplication(rows: seq<Application>, userId: int)
  {
    exists i :: 0 <= i < |rows| && rows[i].userId == userId
  }

  /** The two rows agree on everything but `is_accepted`. */
  predicate SameExceptAccepted(a: Application, b: Application)
  {
    a.(accepted := b.accepted) == b
  }

  /** `UPDATE applications SET is_accepted = ? WHERE id = ?`. */
  function WithAcceptance(rows: seq<Application>, id: int, flag: bool): (r: seq<Application>)
    ensures |r| == |rows|
    ensures forall i :: 0 <= i < |rows| ==> SameExceptAccepted(r[i], rows[i])
    ensures forall i :: 0 <= i < |rows| ==> r[i].accepted == if rows[i].id == id then flag else rows[i].accepted
  {
    seq(|rows|, i requires 0 <= i < |rows| => if rows[i].id == id then rows[i].(accepted := flag) else rows[i])
  }

  /**
   * `UPDATE applications SET is_accepted = 0` followed, for a non-empty list,
   * by `UPDATE applications SET is_accepted = 1 WHERE id IN (...)`.
   */
  function AcceptOnly(rows: seq<Application>, ids: seq<int>): (r: seq<Application>)
    ensures |r| == |rows|
    ensures forall i :: 0 <= i < |rows| ==> SameExceptAccepted(r[i], rows[i])
  {
    seq(|rows|, i requires 0 <= i < |rows| => rows[i].(accepted := rows[i].id as int in ids))
  }

  /** The ids of the accepted rows. */
  function AcceptedIds(rows: seq<Application>): set<int>
  {
    set i | 0 <= i < |rows| && rows[i].accepted :: rows[i].id as int
  }

  function Ids(rows: seq<Application>): set<int>
  {
    set i | 0 <= i < |rows| :: rows[i].id as int
  }

  /** After a bulk acceptance the accepted applications are exactly the listed ids that exist. */
  lemma AcceptOnlyIsIntersection(rows: seq<Application>, ids: seq<int>)
    ensures AcceptedIds(AcceptOnly(rows, ids)) == Ids(rows) * (set x | x in ids)
  {
    var r := AcceptOnly(rows, ids);
    forall x | x in Ids(rows) * (set x | x in ids)
      ensures x in AcceptedIds(r)
    {
      var i :| 0 <= i < |rows| && rows[i].id as int == x;
      assert r[i].accepted && r[i].id == rows[i].id;
    }
    forall x | x in AcceptedIds(r)
      ensures x in Ids(rows) * (set x | x in ids)
    {
      var i :| 0 <= i < |r| && r[i].accepted && r[i].id as int == x;
      assert r[i].id == rows[i].id;
    }
  }

  /** Saving the same selection twice is the same as saving it once. */
  lemma AcceptOnlyIdempotent(rows: seq<Application>, ids: seq<int>)
    ensures AcceptOnly(AcceptOnly(rows, ids), ids) == AcceptOnly(rows, ids)
  {
    var r := AcceptOnly(rows, ids);
    assert forall i :: 0 <= i < |r| ==> r[i].id == rows[i].id;
  }

  /** An empty selection clears every acceptance. */
  lemma AcceptNoneClearsAll(rows: seq<Application>)
    ensures AcceptedIds(AcceptOnly(rows, [])) == {}
  {
    AcceptOnlyIsIntersection(rows, []);
  }

  /** `DELETE FROM applications WHERE id = ?`. */
  function Without(rows: seq<Application>, id: int): seq<Application>
  {
    Lists.Filter(rows, (a: Application) => a.id != id)
  }

  /** Deleting removes exactly the row with that id and keeps every other row. */
  lemma WithoutRemovesOnlyThatRow(rows: seq<Application>, id: int)
    ensures forall i :: 0 <= i < |Without(rows, id)| ==> Without(rows, id)[i].id != id
    ensures forall i :: 0 <= i < |rows| && rows[i].id != id ==> rows[i] in Without(rows, id)
    ensures forall a :: a in Without(rows, id) ==> a in rows
  {
  }

  /*
   * Deleting an application: which files of the upload directory belong to it.
   */

  /** A file of the application: its transcript, its English certificate or one of its other certificates. */
  predicate Related(name: string, app: Application)
  {
    name == app.transcript || name == app.englishCert || (app.others.Some? && name in app.others.value)
  }

  /** The JSON text kept in `other_certificates_files`. */
  function OthersText(names: seq<string>): string
  {
    JsonArray(names)
  }

  /**
   * The filter of the delete route as written: a name containing
   * `_<application id>_`, the two required files, or a name occurring as a
   * substring of the other certificates' JSON text. Stored names carry the
   * user id, not the application id.
   */
  predicate RelatedAsWritten(name: string, app: Application)
  {
    Contains(name, "_" + Decimal(app.id) + "_")
    || name == app.transcript || name == app.englishCert
    || (app.others.Some? && Contains(OthersText(app.others.value), name))
  }

  /** Every file of the application, as the intended filter selects it, is also selected as written. */
  lemma RelatedAsWrittenCoversRelated(name: string, app: Application)
    requires PlainName(name)
    ensures Related(name, app) ==> RelatedAsWritten(name, app)
  {
    if app.others.Some? && name in app.others.value {
      var k :| 0 <= k < |app.others.value| && app.others.value[k] == name;
      JsonArrayContainsName(app.others.value, k);
    }
  }

  /**
   * The filter as written also deletes another student's file: application 7
   * of user 3 is deleted, and the transcript of user 7, stored as
   * `transcript_7_200.pdf`, matches `_7_`.
   */
  lemma DeleteFilterCounterexample(app: Application, name: string)
    requires app == Application(7, 3, 80.0, 7.5, "B2", false, 1, None, None,
                                "transcript_3_100.pdf", "english_certificate_3_100.pdf", None,
                                true, 100, false)
    requires name == "transcript_7_200.pdf"
    ensures RelatedAsWritten(name, app) && !Related(name, app)
  {
    assert Decimal(7) == "7";
    assert "_" + Decimal(app.id) + "_" == "_7_";
    assert name == "transcript" + "_7_" + "200.pdf";
    ContainsInMiddle("transcript", "_7_", "200.pdf");
  }

  /** The directory listing filtered by the delete route: the application's files, in listing order. */
  function RelatedFiles(listing: seq<string>, app: Application): (r: seq<string>)
    ensures forall i :: 0 <= i < |r| ==> Related(r[i], app) && r[i] in listing
    ensures forall i :: 0 <= i < |listing| && Related(listing[i], app) ==> listing[i] in r
  {
    Lists.Filter(listing, (name: string) => Related(name, app))
  }

  /*
   * The file route.
   */

  /** The `:index?` parameter after `parseInt`: absent (defaults to 0), a number, or NaN. */
  datatype IndexParam = NoIndex | Index(n: int) | NotANumber

  datatype FileBody =
    | AppNotFound
    | InvalidFileType
    | NoOtherCertificates
    | IndexOutOfRange(available: nat)
    | FileMissing
    | ServeFile(name: string, contentType: string)
    | ServeError

  /** The other certificates as the route reads them back; a missing value yields no name. */
  function OtherNames(app: Application): seq<string>
  {
    if app.others.Some? then app.others.value else []
  }

  /** The listed files that are among the application's other certificates, in listing order. */
  function OtherCertFiles(listing: seq<string>, app: Application): (r: seq<string>)
    ensures forall i :: 0 <= i < |r| ==> r[i] in OtherNames(app) && r[i] in listing
  {
    Lists.Filter(listing, (name: string) => name in OtherNames(app))
  }

  /** Serves `name` when it exists, with the content type of its lower-cased extension. */
  function Serve(name: string, files: set<string>): Reply<FileBody>
  {
    if name !in files then Reply(404, FileMissing)
    else Reply(200, ServeFile(name, ContentType(ExtName(name))))
  }

  /** `GET /file/:applicationId/:fileType/:index?` over the rows, the stored files and the directory listing. */
  function FetchFile(rows: seq<Application>, files: set<string>, listing: seq<string>,
                     appId: int, fileType: string, index: IndexParam): (r: Reply<FileBody>)
    ensures Find(rows, appId).None? ==> r == Reply(404, AppNotFound)
    ensures r.status == 400 <==>
      Find(rows, appId).Some? && fileType != "transcript" && fileType != "english" && fileType != "other"
    ensures r.status == 200 ==>
      r.body.ServeFile? && r.body.name in files && Related(r.body.name, Find(rows, appId).value)
      && r.body.contentType == ContentType(ExtName(r.body.name))
    // The transcript and the English certificate are served by name when they exist, and 404 otherwise.
    ensures Find(rows, appId).Some? && fileType == "transcript" ==>
      var name := Find(rows, appId).value.transcript;
      (name in files ==> r.status == 200 && r.body.name == name) && (name !in files ==> r == Reply(404, FileMissing))
    ensures Find(rows, appId).Some? && fileType == "english" ==>
      var name := Find(rows, appId).value.englishCert;
      (name in files ==> r.status == 200 && r.body.name == name) && (name !in files ==> r == Reply(404, FileMissing))
    // An other certificate is picked among the listed ones by index, the first when no index is given.
    ensures Find(rows, appId).Some? && fileType == "other" ==>
      var certs := OtherCertFiles(listing, Find(rows, appId).value);
      (certs == [] ==> r == Reply(404, NoOtherCertificates))
      && (certs != [] && index.NoIndex? ==>
            (certs[0] in files ==> r.status == 200 && r.body.name == certs[0])
            && (certs[0] !in files ==> r == Reply(404, FileMissing)))
      && (certs != [] && index.Index? && 0 <= index.n < |certs| ==>
            (certs[index.n] in files ==> r.status == 200 && r.body.name == certs[index.n])
            && (certs[index.n] !in files ==> r == Reply(404, FileMissing)))
  {
    match Find(rows, appId)
    case None => Reply(404, AppNotFound)
    case Some(app) =>
      if fileType == "transcript" then Serve(app.transcript, files)
      else if fileType == "english" then Serve(app.englishCert, files)
      else if fileType == "other" then
        var certs := OtherCertFiles(listing, app);
        if certs == [] then Reply(404, NoOtherCertificates)
        else
          match index
          case NotANumber => Reply(500, ServeError)
          case NoIndex => Serve(certs[0], files)
          case Index(n) =>
            if n >= |certs| then Reply(404, IndexOutOfRange(|certs|))
            else if n < 0 then Reply(500, ServeError)
            else Serve(certs[n], files)
      else Reply(400, InvalidFileType)
  }

  /** An index past the matching certificates is answered 404 with the number available. */
  lemma FetchIndexOutOfRange(rows: seq<Application>, files: set<string>, listing: seq<string>,
                             appId: int, n: int)
    requires Find(rows, appId).Some?
    requires var certs := OtherCertFiles(listing, Find(rows, appId).value); certs != [] && n >= |certs|
    ensures FetchFile(rows, files, listing, appId, "other", Index(n))
      == Reply(404, IndexOutOfRange(|OtherCertFiles(listing, Find(rows, appId).value)|))
  {
  }

  /*
   * Publishing the results.
   */

  /** `submitted_at BETWEEN start_date AND end_date`, the dates standing for their midnights. */
  predicate SubmittedWithin(a: Application, p: Period)
  {
    Midnight(p.start) <= a.submittedAt <= Midnight(p.end)
  }

  predicate AcceptedWithin(a: Application, p: Period)
  {
    a.accepted && SubmittedWithin(a, p)
  }

  /** The published list: the accepted applications submitted within the period, highest average first. */
  function Results(rows: seq<Application>, p: Period): seq<Application>
  {
    Lists.SortDesc(Lists.Filter(rows, (a: Application) => AcceptedWithin(a, p)), (a: Application) => a.average)
  }

  /**
   * Every published application was accepted and submitted within the period,
   * every such application is published exactly as often as it is stored,
   * and the list is ordered by average grade, highest first.
   */
  lemma ResultsAreTheRankedAccepted(rows: seq<Application>, p: Period)
    ensures forall i :: 0 <= i < |Results(rows, p)| ==> Results(rows, p)[i].accepted && SubmittedWithin(Results(rows, p)[i], p)
    ensures forall i :: 0 <= i < |rows| && AcceptedWithin(rows[i], p) ==> rows[i] in Results(rows, p)
    ensures multiset(Results(rows, p)) == multiset(Lists.Filter(rows, (a: Application) => AcceptedWithin(a, p)))
    ensures forall a :: multiset(Results(rows, p))[a] == if AcceptedWithin(a, p) then multiset(rows)[a] else 0
    ensures Lists.NonIncreasing(Results(rows, p), (a: Application) => a.average)
  {
    var f := Lists.Filter(rows, (a: Application) => AcceptedWithin(a, p));
    var r := Results(rows, p);
    Lists.SortDescOrders(f, (a: Application) => a.average);
    forall a
      ensures multiset(r)[a] == if AcceptedWithin(a, p) then multiset(rows)[a] else 0
    {
      Lists.FilterKeepsCopies(rows, (a: Application) => AcceptedWithin(a, p), a);
    }
    forall i | 0 <= i < |r|
      ensures r[i].accepted && SubmittedWithin(r[i], p)
    {
      assert r[i] in multiset(f);
    }
    forall i | 0 <= i < |rows| && AcceptedWithin(rows[i], p)
      ensures rows[i] in r
    {
      assert rows[i] in multiset(f);
    }
  }

  datatype PublishBody = Published(results: seq<Application>) | NoEndedPeriod | NoAcceptedApplications

  /** `publish-results` after the sweep, over the rows and the periods table. */
  function Publish(rows: seq<Application>, periods: seq<Period>): (r: Reply<PublishBody>)
    ensures r.status == 200 || r.status == 400
    ensures LatestEnded(periods).None? ==> r == Reply(400, NoEndedPeriod)
    ensures LatestEnded(periods).Some? && AcceptedIds(rows) == {} ==> r == Reply(400, NoAcceptedApplications)
    ensures r.status == 200 <==> LatestEnded(periods).Some? && AcceptedIds(rows) != {}
    ensures r.status == 200 ==> r.body == Published(Results(rows, LatestEnded(periods).value))
  {
    match LatestEnded(periods)
    case None => Reply(400, NoEndedPeriod)
    case Some(p) =>
      if AcceptedIds(rows) == {} then Reply(400, NoAcceptedApplications)
      else Reply(200, Published(Results(rows, p)))
  }

  /**
   * The accepted-count check looks at every application, not only those of
   * the period: with one accepted application submitted before the ended
   * period, publishing succeeds with an empty list.
   */
  lemma PublishMaySucceedEmpty()
    ensures var p := Period(1, 10, 20, false, 0);
      var a := Application(1, 1, 80.0, 7.0, "B2", false, 1, None, None, "t", "e", None, true, 0, true);
      Publish([a], [p]) == Reply(200, Published([]))
  {
    var p := Period(1, 10, 20, false, 0);
    var a := Application(1, 1, 80.0, 7.0, "B2", false, 1, None, None, "t", "e", None, true, 0, true);
    assert LatestEnded([p]) == Some(p);
    assert [a][0].accepted;
    assert 1 in AcceptedIds([a]);
    assert !AcceptedWithin(a, p);
    assert Lists.Filter([a], (x: Application) => AcceptedWithin(x, p)) == [];
  }

  datatype AcceptBody = AcceptanceUpdated | InvalidId | ApplicationNotFound | AcceptanceFailed
  datatype BulkBody = BulkUpdated(acceptedIds: seq<int>) | BulkNotAuthorized | InvalidIds | BulkFailed
  datatype DeleteBody = Deleted(deletedFiles: seq<string>) | DeleteNotAuthorized | DeleteNotFound | DeleteFailed
  datatype StatusBody = Status(hasApplication: bool) | NotAuthenticated

  /** Which of the two updates of the bulk acceptance throws, if any. */
  datatype BulkFault = NoBulkFault | ResetFails | SetFails

  /** `GET /check-status`: 401 without a session, otherwise whether the user has an application. */
  function CheckStatus(rows: seq<Application>, session: Option<SessionUser>): (r: Reply<StatusBody>)
    ensures session.None? <==> r == Reply(401, NotAuthenticated)
    ensures session.Some? ==> r == Reply(200, Status(HasApplication(rows, session.value.id)))
  {
    if session.None? then Reply(401, NotAuthenticated)
    else Reply(200, Status(HasApplication(rows, session.value.id)))
  }

  class ApplicationTable {
    var rows: seq<Application>
    var nextId: nat

    /**
     * Ids are assigned in increasing order and stay below the next
     * auto-increment value, and no user has two applications.
     */
    predicate Valid()
      reads this
    {
      Ascending(rows) && (forall i :: 0 <= i < |rows| ==> rows[i].id < nextId) && OnePerUser(rows)
    }

    constructor ()
      ensures Valid() && rows == [] && nextId == 1
    {
      rows := [];
      nextId := 1;
    }

    /** `INSERT INTO applications ...`: the row gets the next id, which is returned. */
    method Insert(a: Application) returns (id: nat)
      requires Valid()
      requires !HasApplication(rows, a.userId)
      modifies this
      ensures Valid()
      ensures id == old(nextId) && nextId == old(nextId) + 1
      ensures rows == old(rows) + [a.(id := id)]
    {
      id := nextId;
      rows := rows + [a.(id := id)];
      nextId := nextId + 1;
    }

    /**
     * `PUT /:id/acceptance`: an id that does not parse is refused with 400;
     * otherwise the flag becomes the truthiness of `is_accepted`, and an id
     * that matches no row gives 404.
     */
    method SetAcceptance(id: Option<int>, flag: bool) returns (reply: Reply<AcceptBody>)
      requires Valid()
      modifies this
      ensures Valid() && nextId == old(nextId)
      ensures id.None? ==> reply == Reply(400, InvalidId) && rows == old(rows)
      ensures id.Some? && Find(old(rows), id.value).None? ==> reply == Reply(404, ApplicationNotFound) && rows == old(rows)
      ensures id.Some? && Find(old(rows), id.value).Some? ==>
        reply == Reply(200, AcceptanceUpdated) && rows == WithAcceptance(old(rows), id.value, flag)
    {
      if id.None? {
        return Reply(400, InvalidId);
      }
      var affected := Find(rows, id.value).Some?;
      rows := WithAcceptance(rows, id.value, flag);
      if !affected {
        assert rows == old(rows);
        return Reply(404, ApplicationNotFound);
      }
      reply := Reply(200, AcceptanceUpdated);
    }

    /**
     * `POST /admin/accept`: administrators only, the ids must be an array;
     * every acceptance is reset and then the listed applications accepted.
     * A failure of the second update leaves every acceptance reset.
     */
    method BulkAccept(session: Option<SessionUser>, ids: Option<seq<int>>, fault: BulkFault) returns (reply: Reply<BulkBody>)
      requires Valid()
      modifies this
      ensures Valid() && nextId == old(nextId)
      ensures !IsAdmin(session) ==> reply == Reply(403, BulkNotAuthorized) && rows == old(rows)
      ensures IsAdmin(session) && ids.None? ==> reply == Reply(400, InvalidIds) && rows == old(rows)
      ensures IsAdmin(session) && ids.Some? && fault == ResetFails ==> reply == Reply(500, BulkFailed) && rows == old(rows)
      ensures IsAdmin(session) && ids.Some? && fault == SetFails && ids.value != [] ==>
        reply == Reply(500, BulkFailed) && rows == AcceptOnly(old(rows), [])
      ensures reply.status == 200 <==>
        IsAdmin(session) && ids.Some? && (fault == NoBulkFault || (fault == SetFails && ids.value == []))
      ensures reply.status == 200 ==>
        reply.body == BulkUpdated(ids.value) && rows == AcceptOnly(old(rows), ids.value)
    {
      if !IsAdmin(session) {
        return Reply(403, BulkNotAuthorized);
      }
      if ids.None? {
        return Reply(400, InvalidIds);
      }
      if fault == ResetFails {
        return Reply(500, BulkFailed);
      }
      rows := AcceptOnly(rows, []);
      if ids.value != [] {
        if fault == SetFails {
          return Reply(500, BulkFailed);
        }
        var cleared := rows;
        rows := seq(|cleared|, i requires 0 <= i < |cleared| =>
          if cleared[i].id as int in ids.value then cleared[i].(accepted := true) else cleared[i]);
      }
      assert rows == AcceptOnly(old(rows), ids.value);
      reply := Reply(200, BulkUpdated(ids.value));
    }

    /**
     * `DELETE /:id`: administrators only. The application's files found in the
     * directory listing are unlinked, then the row is deleted, and the reply
     * lists the files. An id that does not parse makes the query fail.
     */
    method Delete(session: Option<SessionUser>, id: Option<int>, dir: UploadDir, listing: seq<string>)
      returns (reply: Reply<DeleteBody>)
      requires Valid()
      requires forall i :: 0 <= i < |listing| ==> listing[i] in dir.files
      requires forall f :: f in dir.files ==> f in listing
      modifies this, dir
      ensures Valid() && nextId == old(nextId)
      ensures !IsAdmin(session) ==> reply == Reply(403, DeleteNotAuthorized)
      ensures IsAdmin(session) && id.None? ==> reply == Reply(500, DeleteFailed)
      ensures IsAdmin(session) && id.Some? && Find(old(rows), id.value).None? ==> reply == Reply(404, DeleteNotFound)
      ensures reply.status != 200 ==> rows == old(rows) && dir.files == old(dir.files)
      ensures reply.status == 200 <==> IsAdmin(session) && id.Some? && Find(old(rows), id.value).Some?
      ensures reply.status == 200 ==>
        var app := Find(old(rows), id.value).value;
        reply.body == Deleted(RelatedFiles(listing, app))
        && rows == Without(old(rows), id.value)
        && forall f :: f in dir.files <==> f in old(dir.files) && !Related(f, app)
    {
      if !IsAdmin(session) {
        return Reply(403, DeleteNotAuthorized);
      }
      if id.None? {
        return Reply(500, DeleteFailed);
      }
      var found := Find(rows, id.value);
      if found.None? {
        return Reply(404, DeleteNotFound);
      }
      var related := RelatedFiles(listing, found.value);
      dir.Unlink(related);
      Lists.FilterKeepsIncreasing(rows, (a: Application) => a.id != id.value, (a: Application) => a.id as int);
      Lists.FilterKeepsDistinct(rows, (a: Application) => a.id != id.value, (a: Application) => a.userId);
      rows := Without(rows, id.value);
      reply := Reply(200, Deleted(related));
    }

    /**
     * `POST /publish-results` with its `checkPeriodStatus` step: the sweep,
     * then the period that ended last and the accepted applications of the
     * whole table. Nothing but the sweep changes.
     */
    method PublishResults(periods: PeriodTable, now: int, fault: SweepFault) returns (reply: Reply<PublishBody>)
      requires periods.Valid()
      modifies periods
      ensures periods.Valid()
      ensures periods.rows == if fault == FailBeforeUpdate then old(periods.rows) else DeactivateExpired(old(periods.rows), now)
      ensures reply == Publish(rows, periods.rows)
    {
      var _ := periods.Sweep(now, fault);
      reply := Publish(rows, periods.rows);
    }
  }
}
