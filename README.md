# Student-exchange portal: a Dafny model

The portal is an Express/MySQL web application through which students apply
for an exchange place and administrators run the application round. This
project models its core:

- the **application-period lifecycle**: setting a period, the current-period
  query, and the expiry sweep that runs before several application routes;
- the **submission gate**: the upload middleware (field, count, MIME type,
  size), the stored file names, the open-period and one-application checks of
  `POST /api/applications`, and the removal of uploaded files on refusal;
- the **administrator workflow**: single and bulk acceptance, deletion of an
  application with its files, the file route, and publishing the results;
- the **account registry**: signup with its validation and uniqueness chain,
  login, the session routes, and the self-only profile update;
- the **university registry** with its duplicate and reference guards;
- the **browser rules**: the signup and profile validators and their error
  aggregation, the application form's checks and submit guards, the
  eligibility check, the administrator page's period banner, filters,
  accepted list and publish guards, and the grouping of published results.

Tables are sequences of records held by classes (`Periods.PeriodTable`,
`Applications.ApplicationTable`, `Accounts.UserTable`,
`Universities.UniversityTable`) whose methods are the mutating routes; the
upload directory is a set of file names (`Uploads.UploadDir`). Each HTTP reply
is a `Reply` carrying its status code and a body datatype. Time is an integer
number of seconds, a stored date is a day number, and a date compared with an
instant stands for its midnight (`Common.Midnight`). Foreign calls (bcrypt),
network replies seen by the browser, database faults and the clock are
parameters.

The routes `POST /api/periods/set`, `POST /api/applications`,
`POST /api/applications/publish-results`,
`PUT /api/applications/:id/acceptance` and the university `POST`/`DELETE`
check no session; the model gives them no session parameter, as written. In
particular `POST /api/applications` takes the applicant's `user_id` from the
request body, and `Submission.Route` uses `form.userId` the same way.

The period routes read a table named `applications_periods`
(routes/periods.js:9) and the application routes one named
`application_periods` (routes/applications.js:100). The model has one periods
table for both.

## Model

Functions that only define an operation's result (such as `Uploads.Intake`,
`Uploads.StoredName`, `Uploads.ContentType`, `Accounts.SignupCheck`,
`Accounts.LoginReply`, `Applications.Results`, `Submission.RowOf`,
`AdminPage.ClassifyPeriod` and `AdminPage.Arranged`) are listed through the
lemmas and methods that state their properties.

| member | source | states |
|---|---|---|
| Common.Today | routes/applications.js:271 | `CURDATE()` is the day whose midnight is at or before the instant and whose next midnight is after it. |
| Common.TodayIsTheBracketingDay | routes/applications.js:271 | That day is unique: `Today(now) == d` exactly when the midnights of `d` and `d + 1` bracket `now`. |
| Common.DayRangeIsMidnightRange | routes/applications.js:271 | A day lies in a closed date range exactly when its midnight lies between the midnights of the bounds. |
| Text.TrimStart | public/scripts/signup.js:370-375 | The result is a suffix of the input that starts with a non-space; everything dropped is white space. |
| Text.TrimEnd | public/scripts/signup.js:370-375 | The result is a prefix of the input that ends with a non-space; everything dropped is white space. |
| Text.Trim | public/scripts/signup.js:370-375 | The trimmed text is empty or starts and ends with a non-space character. |
| Text.BlankTrimsToEmpty | public/scripts/signup.js:100 | Text made only of white space trims to the empty string. |
| Text.NonBlankTrimsToNonEmpty | public/scripts/signup.js:100 | Text with a non-space character does not trim to the empty string. |
| Text.TrimEmptyIffBlank | public/scripts/signup.js:100 | `s.trim() === ''` holds exactly when the text is empty or all white space. |
| Text.TrimKeepsContent | public/scripts/signup.js:370-375 | Text that is not blank stays not blank once trimmed. |
| Text.ReplaceFirst | routes/applications.js:39 | A string `replace` with a pattern that does not occur leaves the text unchanged. |
| Text.NotStartsWithAt | routes/applications.js:39 | A mismatching character at an offset rules out an occurrence of the pattern at that position. |
| Text.ReplaceFirstAt | routes/applications.js:39 | `replace` substitutes the first occurrence: at the first position where the pattern occurs, the pattern is cut out and the replacement put in. |
| Text.DigitChar | routes/applications.js:42 | Every digit value renders as a `\d` character. |
| Text.Decimal | routes/applications.js:42 | `String(n)` is a non-empty run of digits, one digit long exactly when `n < 10`. |
| Text.DecimalInjective | routes/applications.js:378 | Different numbers render differently, so the `_<id>_` test depends only on the id. |
| Text.LowerAscii | routes/applications.js:731 | ASCII capitals are lowered and every other character is kept, so the length is kept; this is `toLowerCase` on the ASCII range. |
| Text.EmailPatternHasShape | routes/auth.js:163-166 | An `@` and a `.` splitting the text into three non-empty `[^\s@]` runs give the e-mail shape. |
| Text.EmailShapeMatchesPattern | routes/auth.js:163-166 | Text with no white space, exactly one `@` after a non-empty local part, and a `.` with text on both sides after it matches the e-mail expression. |
| Text.EmailPatternIsShape | routes/auth.js:163 | The e-mail expression accepts exactly the texts of that shape. |
| Text.EmailPatternNotBlank | public/scripts/signup.js:152-161 | Text the e-mail expression accepts is never blank. |
| Lists.Filter | public/scripts/admin.js:465-480 | `filter` keeps only elements that pass, keeps every element that passes, and never adds an element or a copy. |
| Lists.FilterKeepsCopies | public/scripts/admin.js:465-480 | A passing element is kept exactly as often as it occurs, and a failing one not at all. |
| Lists.FilterAppend | public/scripts/admin.js:465-480 | Filtering keeps input order: the kept part of a front is followed by the kept part of the back. |
| Lists.FilterMembers | public/scripts/admin.js:465-480 | An element is in the filtered list exactly when it is in the list and passes the test. |
| Lists.FilterIdempotent | public/scripts/admin.js:465-480 | Filtering again by the same test changes nothing. |
| Lists.FilterKeepsIncreasing | routes/applications.js:399 | Filtering a list with strictly increasing keys keeps them strictly increasing. |
| Lists.FilterKeepsDistinct | routes/applications.js:399 | Filtering a list whose keys are pairwise distinct keeps them pairwise distinct. |
| Lists.InsertDesc | public/scripts/admin.js:484-490 | Inserting an element adds exactly that element to the multiset. |
| Lists.InsertDescKeepsOrder | public/scripts/admin.js:484-490 | Inserting into a list ordered largest first keeps it ordered. |
| Lists.SortDesc | routes/applications.js:491 | `ORDER BY key DESC` and a descending `sort` return a permutation of the input. |
| Lists.SortDescOrders | routes/applications.js:491 | That permutation is ordered largest key first. |
| Lists.SortAsc | public/scripts/admin.js:487-488 | An ascending sort returns a permutation of the input. |
| Lists.SortAscOrders | public/scripts/admin.js:487-488 | That permutation is ordered smallest key first. |
| Sessions.Session.constructor | routes/auth.js:22-25 | A fresh session has no logged-in user. |
| Periods.Latest | routes/periods.js:8-13 | `WHERE p ORDER BY key DESC LIMIT 1` returns nothing exactly when no row passes, and otherwise a passing row whose key is the largest. |
| Periods.DeactivateExpired | routes/applications.js:98-117 | The sweep changes only `is_active`, and a row stays active exactly when it was active and its end has not passed. |
| Periods.DeactivateAll | routes/periods.js:62 | `SET is_active = 0` changes only the flag, and clears it on every row. |
| Periods.SweepLeavesNoEndedActive | routes/applications.js:95-117 | After the sweep no active period has ended, and every active period that has not ended is still active. |
| Periods.SweepIdempotent | routes/applications.js:98-112 | Sweeping again at the same instant changes nothing. |
| Periods.SweepKeepsAtMostOneActive | routes/applications.js:98-112 | The sweep only clears flags, so a table with at most one active period keeps at most one. |
| Periods.SweptCurrentHasNotEnded | routes/applications.js:120-131 | The `currentPeriod` the sweep hands on, when there is one, has not ended. |
| Periods.SetLeavesOneActive | routes/periods.js:62-70 | After a successful `/set` exactly one period is active: the new one, with the given dates, as the last row. |
| Periods.SetKeepsAtMostOneActive | routes/periods.js:62-70 | A successful `/set` leaves at most one period active, whatever was active before. |
| Periods.ReplayKeepsAtMostOneActive | routes/periods.js:62-70 | After any sequence of `/set` requests and sweeps, each with or without a failing query, at most one period is active (see also routes/applications.js:98-112). |
| Periods.SetKeepsEarlierPeriods | routes/periods.js:62 | `/set` deletes no period: each earlier row is still there, only deactivated. |
| Periods.CurrentAfterSet | routes/periods.js:8-31 | Right after `/set`, `/current` reports the period just set. |
| Periods.OpenAtIsDayRange | routes/periods.js:22-26 | `start <= now <= end` on instants holds exactly when today is at or after the start day and either before the end day or exactly its first instant. |
| Periods.ViewOf | routes/periods.js:28-31 | A working `/current` is `ok` and carries a period exactly when one is stored, with its stored flag. |
| Periods.PeriodTable.constructor | routes/periods.js:62-70 | A fresh table is empty and consistent. |
| Periods.PeriodTable.Sweep | routes/applications.js:95-138 | The table becomes the swept table unless the first query fails, still with at most one active period; `currentPeriod` is the most recently created active period, and it is null when a query fails, which never blocks the request. |
| Periods.PeriodTable.Set | routes/periods.js:39-83 | A missing date, or a start not before the end, gives 400 and changes nothing; otherwise every period is deactivated and the new one appended active with the next id, leaving it the only active period, and 200 returned. |
| Periods.PeriodTable.Current | routes/periods.js:6-36 | No active period gives `{period: null, isActive: false}`; otherwise the period is an active stored row, and `isActive` holds exactly when now lies within its dates, both bounds included. |
| Periods.PeriodTable.ListAll | routes/periods.js:86-99 | `GET /` returns every period, as often as stored, most recently created first. |
| Periods.SetStatusAsWritten | routes/periods.js:3 | As written `/set` answers 400 exactly when a date is missing or the start is not before the end, and 500 otherwise. |
| Periods.CurrentAsWritten | routes/periods.js:3 | As written a page reading `/current` gets a reply that is not `ok` and has no period. |
| Periods.ListStatusAsWritten | routes/periods.js:86-99 | As written `GET /` always fails with 500. |
| Periods.SetNeverSucceedsAsWritten | routes/periods.js:3 | As written no request to `/set` ever succeeds; every request the intended route accepts gets 500. |
| Uploads.Count | routes/applications.js:62-66 | The number of files of a field is at most the number of files. |
| Uploads.ErrorStatus | routes/applications.js:69-85 | A MIME-type rejection becomes 500 and every other rejection 400. |
| Uploads.CountStep | routes/applications.js:62-66 | One more file raises its own field's count by one and no other count. |
| Uploads.CountMonotone | routes/applications.js:62-66 | A longer prefix of the files never counts fewer files of a field. |
| Uploads.CountAppend | routes/applications.js:62-66 | The count over two lists of files is the sum of their counts. |
| Uploads.CountUniform | routes/applications.js:62-66 | Files that all carry one field count fully for it and not at all for another. |
| Uploads.IntakeFromNone | routes/applications.js:48-66 | The middleware accepts the files from a position on exactly when none of them is rejected. |
| Uploads.PassingPrefixWithinCounts | routes/applications.js:62-66 | When every file so far passes, no field holds more files than its `maxCount`. |
| Uploads.IntakeAcceptsIff | routes/applications.js:48-66 | A request passes the upload middleware exactly when every file is in a declared field, is pdf, jpeg or png, is at most 5,242,880 bytes, and the fields hold at most 1, 1 and 5 files. |
| Uploads.AcceptedFilesAreValid | routes/applications.js:48-66 | When no file is rejected, every file is in a declared field with an allowed type and size, and the fields are within their counts. |
| Uploads.ValidFilesAreAccepted | routes/applications.js:48-66 | Valid files within the counts are each let through: no file meets a full field. |
| Uploads.InvalidTypeIsServerError | routes/applications.js:77-81 | A request refused for a file's type is answered 500, not 400 (see also routes/applications.js:56). |
| Uploads.FieldPrefixes | routes/applications.js:39 | Only the first `_file` is dropped: the prefixes are `transcript`, `english_certificate` and `other_certificatess`. |
| Uploads.DropFirstFileSuffix | routes/applications.js:39 | Removing the first `_file` of a field name cuts out exactly that occurrence. |
| Uploads.TranscriptPrefix | routes/applications.js:39 | The transcript field's stored names start with `transcript`. |
| Uploads.EnglishPrefix | routes/applications.js:39 | The English certificate's stored names start with `english_certificate`. |
| Uploads.OthersPrefix | routes/applications.js:39 | The other certificates' stored names start with `other_certificatess`. |
| Uploads.FieldPrefixNoDot | routes/applications.js:39-42 | The prefix of a declared field is non-empty and has no `.`. |
| Uploads.LastDot | routes/applications.js:40 | The index found is a `.` with no `.` after it, or -1 when there is none. |
| Uploads.ExtName | routes/applications.js:40 | `path.extname` is a suffix of the name that is empty or a single `.` followed by dot-free text. |
| Uploads.NoDotConcat | routes/applications.js:42 | Joining two dot-free texts gives a dot-free text. |
| Uploads.DigitsHaveNoDot | routes/applications.js:42 | A run of digits has no `.`. |
| Uploads.LastDotOfDotFreePrefix | routes/applications.js:42 | After a dot-free prefix the last `.` is the one the extension starts with. |
| Uploads.StoredNameKeepsExtension | routes/applications.js:37-44 | The stored name `<field>_<user>_<time><ext>` has the extension of the client's file name, which the file route reads back. |
| Uploads.ContentTypeIsTableOrDefault | routes/applications.js:731-737 | A file is served as pdf, jpeg or png exactly when its lower-cased extension is `.pdf`, `.jpg`, `.jpeg` or `.png`, and otherwise as `application/octet-stream`. |
| Uploads.JsonString | routes/applications.js:291 | `JSON.stringify` of a name without `"`, `\` or a character below U+0020 is the name in quotes. |
| Uploads.EscapeChar | routes/applications.js:291 | A character is written as itself exactly when it is not `"`, `\` or below U+0020; the others become a longer escape (`\"`, `\\`, `\b`, `\f`, `\n`, `\r`, `\t` or `\u00` and two lower-case hex digits). |
| Uploads.Escape | routes/applications.js:291 | Escaping never shortens a text and leaves it unchanged exactly when it has no `"`, `\` or character below U+0020. |
| Uploads.TabIsEscaped | routes/applications.js:291 | A tab in a name is stored in the JSON column as `\t`. |
| Uploads.ContainsInMiddle | routes/applications.js:381-382 | A text contains every piece it is built around. |
| Uploads.JsonItemsContainName | routes/applications.js:291 | Each plain name of a list appears verbatim in the JSON items. |
| Uploads.JsonArrayContainsName | routes/applications.js:291 | The JSON text of the other certificates contains each of their plain names as a substring (see also routes/applications.js:381-382). |
| Uploads.StoredNames | routes/applications.js:37-44 | Each file's stored name is built from its own field, user id, time and extension, in arrival order. |
| Uploads.FieldNames | routes/applications.js:288-291 | A field lists as many stored names as it has files. |
| Uploads.FieldNameOrigin | routes/applications.js:288-291 | Each listed name of a field is the stored name of some file of that field. |
| Uploads.NameSet | routes/applications.js:259-265 | The set of listed names holds every listed name and nothing else. |
| Uploads.UploadDir.constructor | routes/applications.js:22-25 | A fresh upload directory is empty. |
| Uploads.UploadDir.Unlink | routes/applications.js:259-265 | Exactly the listed files that exist are removed; absent and repeated names are skipped. |
| Uploads.UnlinkTwiceIsUnlinkOnce | routes/applications.js:259-265 | Unlinking the same names a second time removes nothing more. |
| Applications.Find | routes/applications.js:362-369 | The lookup by id finds nothing exactly when no row has the id, and otherwise a stored row with that id. |
| Applications.WithAcceptance | routes/applications.js:432-433 | The update changes only `is_accepted`, sets it on the row with the id and keeps it on the others. |
| Applications.AcceptOnly | routes/applications.js:584-592 | The reset-then-set changes only `is_accepted`, which holds afterwards exactly on the listed ids. |
| Applications.AcceptOnlyIsIntersection | routes/applications.js:584-592 | After a bulk acceptance the accepted ids are exactly the listed ids that exist. |
| Applications.AcceptOnlyIdempotent | routes/applications.js:584-592 | Saving the same selection twice is the same as saving it once. |
| Applications.AcceptNoneClearsAll | routes/applications.js:585-588 | An empty selection clears every acceptance. |
| Applications.WithoutRemovesOnlyThatRow | routes/applications.js:399 | Deleting removes the row with that id, keeps every other row and adds none. |
| Applications.RelatedAsWrittenCoversRelated | routes/applications.js:377-383 | Every file of the application (a plain name) is also picked by the filter as written. |
| Applications.DeleteFilterCounterexample | routes/applications.js:378 | The filter as written picks another student's file: `transcript_7_200.pdf` when application 7 of user 3 is deleted. |
| Applications.RelatedFiles | routes/applications.js:374-383 | The files picked are exactly the listed files of the application, in listing order. |
| Applications.OtherCertFiles | routes/applications.js:689-707 | Every file offered as an other certificate is listed and among the application's other certificates. |
| Applications.FetchFile | routes/applications.js:668-747 | An unknown application gives 404 and only an unknown file type gives 400; the transcript and English types serve exactly the application's stored name of that field, `other` serves the first matching certificate or the one at the index; a chosen name not in the directory gives 404, and a 200 carries the content type of its extension. |
| Applications.FetchIndexOutOfRange | routes/applications.js:713-719 | An index at or past the matching other certificates gives 404 with the number available. |
| Applications.ResultsAreTheRankedAccepted | routes/applications.js:485-492 | Every published application was accepted and submitted within the period, each such application is published exactly as often as stored, and the list is ordered by average grade, highest first. |
| Applications.Publish | routes/applications.js:454-509 | Without an inactive period 400; with one but nothing accepted 400; otherwise 200 with the ranked accepted applications of the period that ended last. |
| Applications.PublishMaySucceedEmpty | routes/applications.js:473-492 | The accepted check counts every application, so publishing can succeed with an empty list. |
| Applications.CheckStatus | routes/applications.js:756-775 | 401 without a session; otherwise whether the session's user has an application. |
| Applications.ApplicationTable.constructor | routes/applications.js:294-300 | A fresh table is empty. |
| Applications.ApplicationTable.Insert | routes/applications.js:294-319 | The row is appended with the next id, which is returned; the table keeps ascending ids below the next id and at most one application per user. |
| Applications.ApplicationTable.SetAcceptance | routes/applications.js:423-445 | An unparsable id gives 400 and an unknown id 404, both with no change; otherwise only that row's flag becomes the given value. |
| Applications.ApplicationTable.BulkAccept | routes/applications.js:572-603 | A non-administrator gets 403 and a non-array 400, with no change; a failed reset changes nothing and a failed set leaves all cleared; success accepts exactly the listed ids and echoes them. |
| Applications.ApplicationTable.Delete | routes/applications.js:352-411 | A non-administrator gets 403, an unknown id, a negative one included, 404, both with no change; otherwise the application's own files are removed from the directory, its row is deleted, and the removed files are listed. |
| Applications.ApplicationTable.PublishResults | routes/applications.js:454-509 | The sweep runs first; the reply is `Publish` over the swept periods and the unchanged applications. |
| Submission.OthersOf | routes/applications.js:290-291 | The other-certificates column is null exactly when the field carried no file. |
| Submission.RowRecordsTheForm | routes/applications.js:294-314 | The inserted row records the form: flags set exactly when their text is `'true'`, empty choices null, the stored names of this request's files, not accepted. |
| Submission.RowFilesAreStored | routes/applications.js:288-289 | The row's transcript and English certificate are stored names of files of those fields. |
| Submission.RowOthersAreStored | routes/applications.js:290-291 | Each recorded other certificate is the stored name of a file of that field. |
| Submission.NoSubmissionLateOnTheEndDay | routes/applications.js:271 | After the sweep no period admits a submission on its end day past midnight, although the submission check includes the end date (see also routes/applications.js:102). |
| Submission.SweptOpenPeriodIsCurrent | routes/applications.js:269-272 | After the sweep a period that admits a submission is also open in the sense of `/current`. |
| Submission.Route | routes/applications.js:235-341 | Missing required files give 400 and leave the uploads; a closed period or an earlier application gives 400 with the uploads removed and no row; a database failure, exactly when the failing query is reached, removes the uploads once and sends no reply; otherwise one row recording the form is inserted and its id returned with 201. |
| Submission.RouteIntended | routes/applications.js:330-340 | With `cleanup` in scope of the outer `catch`, a database failure answers 500 with the uploads removed and no row, exactly when the failing query is reached; the other outcomes are those of the route. |
| Submission.UploadAndRoute | routes/applications.js:69-85 | A file the middleware refuses fails the request with its files removed; otherwise the route runs on the stored files: a missing required file keeps them, a refusal or a reached database failure removes them (the latter with no reply), and a success inserts exactly the row of the form (see also routes/applications.js:235-341). |
| Submission.StoreAndRoute | routes/applications.js:235-341 | Files that passed the middleware are stored under their generated names; a request missing a required file keeps them, a refused one or one whose database step fails loses them, the latter without a reply, and a successful one keeps them with its row inserted (see also routes/applications.js:37-44). |
| Submission.Submit | routes/applications.js:235 | The sweep runs first and never blocks; the open-period check reads the swept table; a submission succeeds exactly when the route's conditions hold there, is left without a reply exactly when a reached database step fails, and changes no application otherwise. |
| Accounts.FindById | routes/users.js:40-44 | The lookup by id finds nothing exactly when no row has the id, and otherwise a stored row with it. |
| Accounts.FindByUsername | routes/auth.js:60-67 | The lookup by username finds nothing exactly when no row has it, and otherwise a stored row with it. |
| Accounts.SignupFormatError | routes/auth.js:139-166 | The chain passes exactly when all eight fields are present and well formed; a missing field is reported first, then differing passwords. |
| Accounts.SignupTaken | routes/auth.js:169-187 | The uniqueness chain passes exactly when no user has the username, e-mail, student id or phone, and reports the username first when it is taken. |
| Accounts.SignupAcceptedIff | routes/auth.js:139-195 | A signup is accepted exactly when every field is present, the passwords agree, the formats hold and none of the four identifiers is in use. |
| Accounts.SignupKeepsUnique | routes/auth.js:169-195 | Inserting an accepted signup keeps usernames, e-mails, student ids, phones and ids unique. |
| Accounts.SessionOf | routes/auth.js:77-85 | Login stores the row's id, username, role, names, student id and e-mail, and no phone. |
| Accounts.LoginSucceedsIffCredentialsMatch | routes/auth.js:51-105 | Login succeeds exactly when a user with the username has a hash the password verifies against, and then the session is that user. |
| Accounts.LoginHidesWhichCredentialFailed | routes/auth.js:65-74 | An unknown username and a wrong password get the same 401 reply. |
| Accounts.MeReply | routes/auth.js:22-36 | 401 without a session, and otherwise 200 with the session's identity. |
| Accounts.MeAfterLogin | routes/auth.js:22-36 | After logging in as a user, `/me` reports that user's identity and contact fields (see also routes/auth.js:77-85). |
| Accounts.CheckReply | routes/auth.js:228-233 | `/check` answers 200 with the session user exactly when that user is an administrator, and 403 otherwise. |
| Accounts.CheckUsername | routes/auth.js:246-262 | A missing username gives 400; otherwise `exists` holds exactly when some user has the username. |
| Accounts.FreeUsernameIsNotTaken | routes/auth.js:254-256 | A username `/check-username` reports free is not refused as taken at signup (see also routes/auth.js:169-172). |
| Accounts.ProfileCheck | routes/users.js:83-121 | The update's checks pass exactly when the fields are well formed and no other user holds the e-mail, student id or phone. |
| Accounts.UpdateRows | routes/users.js:153 | Only the row with the id is replaced, by the updated row. |
| Accounts.UpdateTouchesOnlyOwnRow | routes/users.js:124-157 | The update keeps every other row, keeps the own row's id, username and role, and changes its hash exactly when a non-blank password was sent. |
| Accounts.UpdateKeepsUnique | routes/users.js:104-153 | An update that passed the uniqueness checks keeps the four identifiers and ids unique. |
| Accounts.KeepingOwnDetailsIsAllowed | routes/users.js:104-121 | Keeping one's own e-mail, student id and phone never trips the uniqueness checks. |
| Accounts.GetProfile | routes/users.js:14-53 | 401 without a session, 403 for another user's id, 404 for a missing row, otherwise the whole row. |
| Accounts.UserTable.constructor | routes/auth.js:192-195 | A fresh registry is empty and consistent. |
| Accounts.UserTable.Signup | routes/auth.js:126-204 | A refused signup gets 400 with the first failing check and inserts nothing; an accepted one inserts a `registered` user with the hash and returns its id with 201, keeping the registry unique. |
| Accounts.UserTable.Login | routes/auth.js:51-105 | The reply is the login decision, the session is set to the user only on success, and otherwise left as it was. |
| Accounts.UserTable.UpdateProfile | routes/users.js:70-185 | Without a session no reply; another user's id 403, failing checks 400, a passing check on a missing row 404, all with no change; otherwise only the own row and the session's names, student id, phone and e-mail are updated, with 200. |
| Universities.ListByName | routes/universities.js:18-29 | `GET /` returns every university, as often as stored, ordered by name. |
| Universities.FindUniversity | routes/universities.js:138-145 | The lookup finds nothing exactly when no row has the id, and otherwise a stored row with it. |
| Universities.GetUniversity | routes/universities.js:39-58 | 200 with the university's id, name and country exactly when it exists, and 404 otherwise. |
| Universities.WithoutUniversity | routes/universities.js:157-160 | Removing an id keeps every other row and no row with that id. |
| Universities.WithoutKeepsUnique | routes/universities.js:157-160 | Removing a row keeps ids and (name, country, city) triples unique. |
| Universities.WithoutRemovesOne | routes/universities.js:157-162 | Removing a present id removes exactly one row. |
| Universities.WithoutKeepsAll | routes/universities.js:143-145 | Removing an absent id changes nothing. |
| Universities.UniversityTable.constructor | routes/universities.js:111-114 | A fresh registry is empty and consistent. |
| Universities.UniversityTable.Add | routes/universities.js:94-123 | An empty field gives 400 with no change; complete fields matching an existing (name, country, city) give 400 `AlreadyExists` with no change; otherwise the university is appended with the next id, returned with 201, keeping the triples unique. |
| Universities.UniversityTable.Remove | routes/universities.js:134-168 | An unknown id gives 404 and a university some application names 400, both with no change; otherwise exactly that university is removed. |
| FieldRules.Errs | public/scripts/signup.js:390-394 | A validator adds no message when it passes and exactly its one message when it fails. |
| FieldRules.ValidateName | public/scripts/signup.js:99-107 | A name is accepted exactly when it is not blank and has no digit; a blank one is reported as required. |
| FieldRules.StudentIdPatternIsThirteenDigits | routes/auth.js:153 | `^2022\d{9}$` accepts exactly the thirteen-digit texts starting with `2022`. |
| FieldRules.StudentIdRulesAgree | public/scripts/signup.js:115-126 | The signup page's two-step rule, the profile page's expression and the server's expression accept the same student ids (see also public/scripts/profile.js:105-113). |
| FieldRules.ValidatePhone | public/scripts/signup.js:135-143 | A phone is accepted exactly when it is ten digits. |
| FieldRules.ValidateEmail | public/scripts/signup.js:152-161 | An e-mail is accepted exactly when the server's e-mail expression accepts it. |
| FieldRules.EmailAcceptedIffShape | public/scripts/signup.js:152-161 | An e-mail is accepted exactly when it has no white space, one `@` after a non-empty local part, and a domain with a `.` that has text on both sides. |
| FieldRules.ValidateUsername | public/scripts/signup.js:170-175 | A username is accepted exactly when it is not blank, and is only ever reported as required. |
| FieldRules.SignupPassword | public/scripts/signup.js:184-197 | A signup password is accepted exactly when it has at least five characters and one of the page's symbols. |
| FieldRules.ProfilePassword | public/scripts/profile.js:155-164 | A profile password is accepted exactly when it is empty, or has at least five characters and one of the profile page's symbols. |
| FieldRules.ProfilePasswordsPassSignup | public/scripts/profile.js:157-163 | Every non-empty password the profile page accepts would also pass at signup. |
| FieldRules.UnderscoreOnlyCountsAtSignup | public/scripts/profile.js:157-163 | The converse fails: `abcd_` passes at signup and is refused on the profile page. |
| FieldRules.AcceptedProfilePasswordIsNotBlank | public/scripts/profile.js:155-164 | A non-empty password the profile page accepts is never blank, so the server stores its hash (see also routes/users.js:124). |
| FieldRules.ConfirmPassword | public/scripts/signup.js:207-215 | A confirmation is accepted exactly when it is non-empty and equals the password. |
| SignupPage.Trimmed | public/scripts/signup.js:370-377 | The text fields are trimmed and the two passwords kept as typed. |
| SignupPage.UsernameErrors | public/scripts/signup.js:429-443 | The username adds no message exactly when it is not blank and the lookup says it is free, and at most one message. |
| SignupPage.DetailErrors | public/scripts/signup.js:388-426 | The five detail checks add no message exactly when both names, the student id, the phone and the e-mail pass. |
| SignupPage.SignupErrors | public/scripts/signup.js:384-459 | The page collects no message exactly when all eight checks pass. |
| SignupPage.Record | public/scripts/signup.js:389-394 | One step appends the failing check's message and sets `hasErrors`, and otherwise changes nothing. |
| SignupPage.CheckDetails | public/scripts/signup.js:385-426 | The first five steps collect exactly the detail messages, and `hasErrors` holds exactly when there is one. |
| SignupPage.CheckUsername | public/scripts/signup.js:428-443 | The username step appends its messages and makes the lookup, for the username, exactly when the basic check passes. |
| SignupPage.HandleSignup | public/scripts/signup.js:366-483 | Every validator runs; the lookup is made only for a non-blank username; the request is sent exactly when nothing failed and the terms are accepted, and it is the trimmed form. |
| SignupPage.SentSignupPassesServerChecks | public/scripts/signup.js:384-471 | Every signup the page sends passes the server's whole format chain; only the uniqueness queries can refuse it (see also routes/auth.js:139-166). |
| SignupPage.SentPasswordIsStrong | public/scripts/signup.js:446-459 | A sent password has at least five characters, one symbol, and matches its confirmation. |
| ProfilePage.FormData | public/scripts/profile.js:222-229 | The password is `undefined` exactly when the input was empty, and otherwise the text as typed. |
| ProfilePage.Entries | public/scripts/profile.js:235 | `Object.entries` yields the six fields of the form object. |
| ProfilePage.EntryErrors | public/scripts/profile.js:235-263 | The entries collect at most one message each. |
| ProfilePage.CollectErrors | public/scripts/profile.js:235-263 | The `forEach` collects exactly the messages of the failing entries, in entry order, and `hasErrors` holds exactly when one was collected. |
| ProfilePage.HandleProfileSubmit | public/scripts/profile.js:219-278 | The loop collects exactly the messages of the failing entries; the PATCH is sent exactly when there are none, and carries the form object. |
| ProfilePage.EntryErrorsEmptyIff | public/scripts/profile.js:235-263 | The entries collect no message exactly when each entry passes its check. |
| ProfilePage.ProfileErrorsEmptyIff | public/scripts/profile.js:235-267 | No message exactly when both names, the student id, the phone and the e-mail pass and the password is absent or passes the profile rule. |
| ProfilePage.SentProfileIsWellFormed | public/scripts/profile.js:265-278 | Every PATCH the page sends passes the server's format checks (see also routes/users.js:83-102). |
| ProfilePage.SentPasswordChangesIff | public/scripts/profile.js:228 | A sent PATCH changes the stored password exactly when the password input was not empty (see also routes/users.js:124). |
| ApplicationPage.ValidateFile | public/scripts/application.js:296-310 | A file is accepted exactly when it is pdf, jpeg or png and at most 5,242,880 bytes. |
| ApplicationPage.PageAndServerAgreeOnFiles | public/scripts/application.js:296-310 | The page accepts a file exactly when the upload middleware's filter and size limit accept it in a declared field (see also routes/applications.js:50-61). |
| ApplicationPage.ValidateForm | public/scripts/application.js:318-376 | The form passes exactly when the percent is in [0, 100] and the average in [0, 10], both inclusive and not NaN, and an English level, a languages answer, a first choice and the terms are given. |
| ApplicationPage.ValidateFormReportsFirstProblem | public/scripts/application.js:318-376 | The problem reported is the first of all the form's problems in check order. |
| ApplicationPage.Outcome | public/scripts/application.js:136-217 | A submit that is not ignored ends with a POST outcome only when the form and every file passed. |
| ApplicationPage.FileRejectionLeavesButtonDisabled | public/scripts/application.js:167-185 | After a file rejection the submit button stays disabled although no submit is in progress (see also public/scripts/application.js:218-220). |
| ApplicationPage.ApplicationForm.constructor | public/scripts/application.js:119 | A fresh page is not submitting and nothing is disabled. |
| ApplicationPage.ApplicationForm.AppendOthers | public/scripts/application.js:177-185 | The loop succeeds exactly when every other certificate is valid, and then appends all of them in order. |
| ApplicationPage.ApplicationForm.HandleSubmit | public/scripts/application.js:119-223 | A submit during another is ignored with no change; otherwise the POST is made exactly when the form passes, the server reports no application and every file is valid, it carries the form and files in order, and `isSubmitting` is reset. |
| ApplicationPage.RequestUploads | public/scripts/application.js:167-185 | The request carries the two required files and then the other certificates. |
| ApplicationPage.SentFilesPassIntakeIff | public/scripts/application.js:177-185 | A request the page sends passes the upload middleware exactly when it has at most five other certificates (see also routes/applications.js:62-66). |
| Eligibility.CheckEligibility | public/scripts/reqs.js:52-121 | A falsy input or no English level gives "fill all fields" with no criterion evaluated; otherwise the failing criteria are reported, or success, whose wording depends only on the login status. |
| Eligibility.EligibleIff | public/scripts/reqs.js:68-83 | With every field filled, success exactly when year ≥ 2, percent ≥ 70, average ≥ 6.5 and the level is B2, C1 or C2, every bound inclusive. |
| Eligibility.FailedInFixedOrder | public/scripts/reqs.js:68-81 | Each failing criterion yields exactly one message, and the messages follow the order year, percent, average, English. |
| AdminPage.ClassifyAgreesWithServer | public/scripts/admin.js:211-225 | The banner says active exactly when the server's window is open, expired exactly when the start has passed and the sweep counts the period ended, and upcoming exactly before the start. |
| AdminPage.MissingDateIsNotSet | public/scripts/admin.js:195-202 | A period with a missing date is shown as not set. |
| AdminPage.PeriodUpdate | public/scripts/admin.js:245-286 | A request is sent only with both dates, and carries them. |
| AdminPage.PeriodUpdateMatchesServerGuard | public/scripts/admin.js:251-259 | The page sends a period exactly when both dates are given and the start is before the end, which is exactly when the server's own guard lets it through (see also routes/periods.js:43-59). |
| AdminPage.SelectionIsFiltered | public/scripts/admin.js:461-480 | The filters keep exactly the current rows that meet the minimum rate and, when one is selected, name the university as a choice, none more often than before. |
| AdminPage.ArrangedIsOrderedPermutation | public/scripts/admin.js:483-496 | Sorting keeps every row as often as before and orders by average descending or ascending, or by full name, as asked. |
| AdminPage.SavedListMatchesServer | public/scripts/admin.js:524-526 | After a save, the page's accepted list holds exactly the applications the server now marks accepted (see also routes/applications.js:584-592). |
| AdminPage.PublishStepOf | public/scripts/admin.js:546-578 | The publish request is made exactly when something is accepted, the current-period reply is `ok`, and it flags no active period. |
| AdminPage.PublishNeverRequestedAsWritten | public/scripts/admin.js:558-561 | With `/current` failing as written, the page never requests a publish (see also routes/periods.js:3). |
| AdminPage.PublishRequestedIff | public/scripts/admin.js:546-578 | With a working `/current`, a publish is requested exactly when something is accepted and no stored period is flagged active (see also routes/periods.js:8-31). |
| AdminPage.AdminState.constructor | public/scripts/admin.js:19-26 | `loadApplications` and `loadAcceptedApplications` fill the current and accepted lists from their replies, each left empty when its load fails; nothing is filtered yet (see also public/scripts/admin.js:295-334 and 604-617). |
| AdminPage.AdminState.ApplyFilters | public/scripts/admin.js:461-499 | The shown list becomes the arranged selection of the current applications; the current and accepted lists are unchanged. |
| AdminPage.AdminState.SaveAccepted | public/scripts/admin.js:508-537 | On success the accepted list becomes the current applications whose id was checked, in their order; on failure nothing changes. |
| AdminPage.AdminState.PublishResults | public/scripts/admin.js:546-578 | The method stops where the guards say. |
| ResultsPage.AlwaysFetchesAsWritten | public/scripts/results.js:27-30 | With `/current` failing as written, the page always fetches the results (see also routes/periods.js:3). |
| ResultsPage.FetchesIffNoActivePeriod | public/scripts/results.js:27-30 | With a working `/current`, the results are fetched exactly when no stored period is flagged active. |
| ResultsPage.GroupByFirstChoice | public/scripts/results.js:69-76 | The groups have distinct keys, one per first choice named, and each holds that choice's results in input order. |
| ResultsPage.AddResult | public/scripts/results.js:70-75 | One step of the `reduce` keeps the grouping for one more result. |
| ResultsPage.NewKeyKeepsGrouping | public/scripts/results.js:71-73 | A new first choice opens its own group at the end of the keys. |
| ResultsPage.KnownKeyKeepsGrouping | public/scripts/results.js:74 | A known first choice's result is pushed onto its group. |
| ResultsPage.GroupStep | public/scripts/results.js:69-76 | One more result grows only its own key's group, by itself, and makes its key a key. |
| ResultsPage.NoResultsNoGroup | public/scripts/results.js:69-76 | A key no result names has an empty group. |
| ResultsPage.GroupsPartitionResults | public/scripts/results.js:69-76 | Each result is in its own first choice's group exactly as often as in the list, and in no other group. |
| ResultsPage.LoadResults | public/scripts/results.js:17-95 | An active period means no fetch; a failed fetch, no results and grouped results are shown as such, the grouping being the one above. |

## Left out

- Presentation: DOM building, `innerHTML`, alerts, redirects, message timers and the debounced live validation of the signup and profile pages are not modelled.
- Network: every `fetch` is replaced by its reply, given as a parameter to the page operation.
- Parsing: `parseFloat`, `parseInt` and date parsing are not modelled; numeric inputs arrive as `NumberField` or `Option<int>`, dates as day numbers.
- bcrypt: the hash of a new password is a parameter and `compare` is a function parameter.
- Clock: `now` is a parameter in seconds, in one time zone; `Date.now()` in a stored name is the file's `receivedAt`.
- Ordering: MySQL's collation and `localeCompare` are rank functions; ties under `ORDER BY` and `sort` are broken stably, which MySQL does not promise.
- ResultsPage.GroupByFirstChoice: lists the keys in first-seen order; `Object.entries` would list integer-like keys first, which university names are not expected to be.
- Database faults: modelled for the sweep, the submission route (where they leave the request without a reply) and the bulk acceptance; the 500 replies of the account, university, period, acceptance, publish and file routes are not.
- Text.LowerAscii: lowers ASCII capitals only; JavaScript's `toLowerCase` also lowers other cased characters (`É`, the Kelvin sign) and can lengthen a text (`İ`). No character outside ASCII lowers to one of the letters of `.pdf`, `.jpg`, `.jpeg` or `.png`, so the content type chosen from the extension is the same.
- Uploads.ExtName: scans the whole name, where `path.extname` looks at the last path segment only; the names it is applied to are client file names, which browsers send without a directory, and stored names built from them.
- Applications.Publish: the published list is not joined with the users table; the query's `JOIN users u ON a.user_id = u.id` also drops an accepted application whose `user_id` names no user, which `POST /api/applications` can store since it takes `user_id` from the request body. The listing queries with the same join are not modelled.
- AdminPage.AdminState.constructor: `loadAcceptedApplications` stores the reply's body without checking that it is an array; the model takes a successful reply to be a list of rows.
- Applications.ApplicationTable.Delete: an id that does not parse gives 500; the `try/catch` around each `unlinkSync` is not modelled, files are assumed removable.
- Applications.OtherCertFiles: states only that the files offered are listed certificates; completeness follows from `Lists.Filter`.
- Applications.FetchFile: the column is read back as the stored list of names; the non-array and unparsable JSON cases are not modelled.
- Read-only listings `GET /api/applications/accepted`, `GET /user/:userId`, `GET /admin/all` and `GET /admin/accepted` are not modelled; the pages receive their rows as inputs.
- `GET /api/universities/admin` is not modelled: `GET /:id`, declared first, answers that path.
- `POST /auth/logout` is not modelled: it only destroys the session.
- The administrator page's `deleteApplication` and university management, and the login, user-info and admin-return scripts, are not part of this model.
- server.js and config/database.js are not part of this model; they only wire the framework and open the pool.
- Concurrency: requests run one at a time; races on the uniqueness checks or on `/set` are not modelled.
- File contents are opaque; only names, types and sizes are modelled.
- Accounts.SignupTaken, Accounts.ProfileCheck and Accounts.FindByUsername compare usernames, e-mails and student ids with exact equality, a binary collation; MySQL's default collations ignore case and trailing spaces, so the database can call two such values equal where the model does not.
- Universities.UniversityTable.Add: the duplicate check on (name, country, city) uses exact equality, for the same reason.
- FieldRules.SignupPassword and FieldRules.ProfilePassword count characters (code points); JavaScript's `length` counts UTF-16 units, so a password with characters outside the Basic Multilingual Plane can be longer there.
- Uploads.Escape: lone surrogates, which `JSON.stringify` writes as `\u` escapes, cannot occur in a Dafny string and are not modelled.

## Findings

| source | as written | input that shows it | evidently intended | confidence | as-written member | corrected member |
|---|---|---|---|---|---|---|
| routes/periods.js:3 | `pool` is bound to the whole exported object `{ pool, testConnection }`, so every `pool.query` throws and each period route answers 500 | `POST /api/periods/set` with start 2025-01-01 and end 2025-02-01 answers 500 and stores nothing | bind the `pool` member; `/set` deactivates every period and stores the new one active | high; not executed | Periods.SetNeverSucceedsAsWritten | Periods.PeriodTable.Set |
| routes/applications.js:378 | the delete filter matches `_<applicationId>_`, but stored names carry the user id, so another student's file can match | deleting application 7 of user 3 also unlinks `transcript_7_200.pdf`, a file of user 7 | remove only the application's transcript, English certificate and other certificates | high; not executed | Applications.DeleteFilterCounterexample | Applications.ApplicationTable.Delete |
| routes/applications.js:333 | `cleanup` is declared with `const` inside the outer `try` (line 259), so the outer `catch` calling it throws a `ReferenceError` and the 500 reply is never sent; the inner `catch` has already removed the files once | a submission with both required files during an open period whose `INSERT` throws gets no reply at all | the outer `catch` removes the files and answers 500 "Failed to submit application" | high; not executed | Submission.Route | Submission.RouteIntended |
