/**
 * The administrator page: the period status banner, the guard of the period
 * form, filtering and sorting of the application list, the accepted list
 * kept after a save, and the guards in front of publishing the results.
 */
module AdminPage {
  import opened Common
  import Lists
  import Periods
  import Applications

  /*
   * Period status.
   */

  /** The banner `displayPeriodStatus` shows. */
  datatype PeriodStatus = NotSet | Upcoming | ActiveNow | Expired

  /**
   * `displayPeriodStatus`: no period or a missing date is "not set"; before
   * the start is upcoming; from the start up to the end, both included, is
   * active; anything else is expired. Dates stand for their midnight.
   */
  function ClassifyPeriod(period: Option<PeriodView>, now: int): PeriodStatus
  {
    if period.None? || period.value.start.None? || period.value.end.None? then NotSet
    else
      var startDate, endDate := Midnight(period.value.start.value), Midnight(period.value.end.value);
      if now < startDate then Upcoming
      else if now >= startDate && now <= endDate then ActiveNow
      else Expired
  }

  /** The view of a stored period with both dates present. */
  function ViewOfPeriod(p: Periods.Period): PeriodView
  {
    PeriodView(Some(p.start), Some(p.end), p.active)
  }

  /**
   * The banner says "active" exactly when the server's submission window
   * is open, and "expired" exactly when the start has passed and the server's
   * sweep counts the period as ended.
   */
  lemma ClassifyAgreesWithServer(p: Periods.Period, now: int)
    ensures ClassifyPeriod(Some(ViewOfPeriod(p)), now) == ActiveNow <==> Periods.OpenAt(p, now)
    ensures ClassifyPeriod(Some(ViewOfPeriod(p)), now) == Expired <==>
      Midnight(p.start) <= now && Periods.HasEnded(p, now)
    ensures ClassifyPeriod(Some(ViewOfPeriod(p)), now) == Upcoming <==> now < Midnight(p.start)
  {
  }

  /** A period with a missing date is shown as not set, whatever its flag. */
  lemma MissingDateIsNotSet(v: PeriodView, now: int)
    requires v.start.None? || v.end.None?
    ensures ClassifyPeriod(Some(v), now) == NotSet
  {
  }

  /**
   * `handlePeriodUpdate`: the request carries both dates, and is sent only
   * when both are filled and the start is before the end.
   */
  function PeriodUpdate(start: Option<int>, end: Option<int>): (r: Option<(int, int)>)
    ensures r.Some? ==> start.Some? && end.Some? && r.value == (start.value, end.value)
  {
    if start.None? || end.None? then None
    else if Midnight(start.value) >= Midnight(end.value) then None
    else Some((start.value, end.value))
  }

  /** The page sends a period exactly when the server's own guard would let it through. */
  lemma PeriodUpdateMatchesServerGuard(start: Option<int>, end: Option<int>)
    ensures PeriodUpdate(start, end).Some? <==> start.Some? && end.Some? && start.value < end.value
    ensures PeriodUpdate(start, end).Some? <==> Periods.SetStatusAsWritten(start, end) != 400
  {
  }

  /*
   * Application list.
   */

  /** A row of `/api/applications/admin/all` as the page reads it. */
  datatype AdminRow = AdminRow(
    applicationId: int, firstName: string, lastName: string, successRate: real, average: real,
    firstChoice: int, secondChoice: Option<int>, thirdChoice: Option<int>)

  /** The sort select: `grade_desc`, `grade_asc`, `name`, or any other value (no sorting). */
  datatype SortOption = GradeDesc | GradeAsc | ByName | Unsorted

  /** The min-success-rate filter: an empty input keeps every row; NaN keeps none. */
  predicate MeetsMinRate(r: AdminRow, minRate: NumberField)
  {
    match minRate
    case Empty => true
    case NaN => false
    case Num(v) => r.successRate >= v
  }

  /** The university filter: the selection is the first, second or third choice. */
  predicate ChoosesUniversity(r: AdminRow, u: int)
  {
    r.firstChoice == u || r.secondChoice == Some(u) || r.thirdChoice == Some(u)
  }

  /** The rows both filters keep, in their order. */
  function Selected(rows: seq<AdminRow>, minRate: NumberField, university: Option<int>): seq<AdminRow>
  {
    var byRate := if minRate.Empty? then rows else Lists.Filter(rows, r => MeetsMinRate(r, minRate));
    if university.None? then byRate else Lists.Filter(byRate, r => ChoosesUniversity(r, university.value))
  }

  /** The full name the `name` sort compares. */
  function FullName(r: AdminRow): string
  {
    r.firstName + " " + r.lastName
  }

  /** The order the sort option asks for; `nameRank` stands for `localeCompare`. */
  function Arranged(rows: seq<AdminRow>, sort: SortOption, nameRank: string -> int): seq<AdminRow>
  {
    match sort
    case GradeDesc => Lists.SortDesc(rows, (r: AdminRow) => r.average)
    case GradeAsc => Lists.SortAsc(rows, (r: AdminRow) => r.average)
    case ByName => Lists.SortAsc(rows, (r: AdminRow) => nameRank(FullName(r)) as real)
    case Unsorted => rows
  }

  /**
   * The filters keep exactly the current rows that pass both, each at most
   * as often as before.
   */
  lemma {:induction false} SelectionIsFiltered(rows: seq<AdminRow>, minRate: NumberField, university: Option<int>)
    ensures multiset(Selected(rows, minRate, university)) <= multiset(rows)
    ensures forall x :: x in Selected(rows, minRate, university) <==>
      x in rows && MeetsMinRate(x, minRate) && (university.Some? ==> ChoosesUniversity(x, university.value))
  {
    var byRate := if minRate.Empty? then rows else Lists.Filter(rows, r => MeetsMinRate(r, minRate));
    if !minRate.Empty? {
      Lists.FilterMembers(rows, r => MeetsMinRate(r, minRate));
    }
    if university.Some? {
      Lists.FilterMembers(byRate, r => ChoosesUniversity(r, university.value));
    }
  }

  /**
   * Sorting keeps every row, as often as before, and orders the list as the
   * option asks: by average grade descending or ascending, or by full name.
   */
  lemma {:induction false} ArrangedIsOrderedPermutation(rows: seq<AdminRow>, sort: SortOption, nameRank: string -> int)
    ensures multiset(Arranged(rows, sort, nameRank)) == multiset(rows)
    ensures sort == GradeDesc ==> Lists.NonIncreasing(Arranged(rows, sort, nameRank), (a: AdminRow) => a.average)
    ensures sort == GradeAsc ==> Lists.NonDecreasing(Arranged(rows, sort, nameRank), (a: AdminRow) => a.average)
    ensures sort == ByName ==>
      Lists.NonDecreasing(Arranged(rows, sort, nameRank), (a: AdminRow) => nameRank(FullName(a)) as real)
  {
    match sort {
      case GradeDesc => Lists.SortDescOrders(rows, (a: AdminRow) => a.average);
      case GradeAsc => Lists.SortAscOrders(rows, (a: AdminRow) => a.average);
      case ByName => Lists.SortAscOrders(rows, (a: AdminRow) => nameRank(FullName(a)) as real);
      case Unsorted =>
    }
  }

  /** The ids of a list of rows. */
  function RowIds(rows: seq<AdminRow>): set<int>
  {
    set i | 0 <= i < |rows| :: rows[i].applicationId
  }

  /** The rows whose id is among the checked ids, in the list's order. */
  function AcceptedRows(rows: seq<AdminRow>, ids: seq<int>): seq<AdminRow>
  {
    Lists.Filter(rows, (r: AdminRow) => r.applicationId in ids)
  }

  /**
   * After a successful save the page's accepted list holds exactly the
   * applications the server now marks accepted, provided the list it was
   * drawn from shows every stored application.
   */
  lemma {:induction false} SavedListMatchesServer(
    current: seq<AdminRow>, stored: seq<Applications.Application>, ids: seq<int>)
    requires RowIds(current) == Applications.Ids(stored)
    ensures RowIds(AcceptedRows(current, ids)) == Applications.AcceptedIds(Applications.AcceptOnly(stored, ids))
  {
    Applications.AcceptOnlyIsIntersection(stored, ids);
    var acc := AcceptedRows(current, ids);
    forall x | x in RowIds(acc) ensures x in Applications.Ids(stored) * (set y | y in ids) {
      var i :| 0 <= i < |acc| && acc[i].applicationId == x;
      var k :| 0 <= k < |current| && current[k] == acc[i];
      assert x in RowIds(current);
    }
    forall x | x in Applications.Ids(stored) * (set y | y in ids) ensures x in RowIds(acc) {
      var k :| 0 <= k < |current| && current[k].applicationId == x;
      var i :| 0 <= i < |acc| && acc[i] == current[k];
    }
  }

  /*
   * Publishing.
   */

  /** Where `publishResults` stops. */
  datatype PublishStep = NothingAccepted | PeriodCheckFailed | StillActive | PublishRequested

  /**
   * The guards of `publishResults`: a non-empty accepted list, an `ok`
   * reply from `/api/periods/current`, and no `period.is_active` in it.
   */
  function PublishStepOf(acceptedCount: nat, reply: PeriodReply): (step: PublishStep)
    ensures step == PublishRequested <==>
      acceptedCount > 0 && reply.ok && !(reply.period.Some? && reply.period.value.isActive)
  {
    if acceptedCount == 0 then NothingAccepted
    else if !reply.ok then PeriodCheckFailed
    else if reply.period.Some? && reply.period.value.isActive then StillActive
    else PublishRequested
  }

  /** With `/current` failing as written, the page never requests a publish. */
  lemma PublishNeverRequestedAsWritten(acceptedCount: nat)
    ensures PublishStepOf(acceptedCount, Periods.CurrentAsWritten()) == PeriodCheckFailed || acceptedCount == 0
  {
  }

  /**
   * With a working `/current`, the page requests a publish exactly when
   * something is accepted and the stored period, if any, is not flagged active.
   */
  lemma PublishRequestedIff(acceptedCount: nat, body: Periods.CurrentBody)
    ensures PublishStepOf(acceptedCount, Periods.ViewOf(body)) == PublishRequested <==>
      acceptedCount > 0 && (body.period.None? || !body.period.value.active)
  {
  }

  /** The page's lists: as loaded, as last shown after filtering, and as last saved accepted. */
  class AdminState {
    var currentApplications: seq<AdminRow>
    var filteredApplications: seq<AdminRow>
    var acceptedApplications: seq<AdminRow>

    /**
     * `initializeAdmin`: `loadApplications` and `loadAcceptedApplications`
     * fill the two lists from their replies; nothing is filtered yet.
     * `loaded` is `None` for a failed reply or a body that is not an array,
     * which `loadApplications` turns into an empty list; `accepted` is `None`
     * only for a failed reply, which leaves the accepted list empty.
     */
    constructor (loaded: Option<seq<AdminRow>>, accepted: Option<seq<AdminRow>>)
      ensures currentApplications == (if loaded.Some? then loaded.value else [])
      ensures acceptedApplications == (if accepted.Some? then accepted.value else [])
      ensures filteredApplications == []
    {
      currentApplications := if loaded.Some? then loaded.value else [];
      filteredApplications := [];
      acceptedApplications := if accepted.Some? then accepted.value else [];
    }

    /**
     * `applyFilters`: copy the current list, apply the rate filter when the
     * input is filled, the university filter when one is selected, then sort.
     */
    method ApplyFilters(minRate: NumberField, university: Option<int>, sort: SortOption, nameRank: string -> int)
      modifies this
      ensures filteredApplications == Arranged(Selected(old(currentApplications), minRate, university), sort, nameRank)
      ensures currentApplications == old(currentApplications)
      ensures acceptedApplications == old(acceptedApplications)
    {
      var filtered := currentApplications;
      if !minRate.Empty? {
        filtered := Lists.Filter(filtered, r => MeetsMinRate(r, minRate));
      }
      if university.Some? {
        filtered := Lists.Filter(filtered, r => ChoosesUniversity(r, university.value));
      }
      match sort {
        case GradeDesc => filtered := Lists.SortDesc(filtered, (r: AdminRow) => r.average);
        case GradeAsc => filtered := Lists.SortAsc(filtered, (r: AdminRow) => r.average);
        case ByName => filtered := Lists.SortAsc(filtered, (r: AdminRow) => nameRank(FullName(r)) as real);
        case Unsorted =>
      }
      filteredApplications := filtered;
    }

    /**
     * `saveAcceptedApplications`: on an `ok` reply the accepted list becomes
     * the current applications whose id was checked; otherwise nothing changes.
     */
    method SaveAccepted(checkedIds: seq<int>, ok: bool)
      modifies this
      ensures acceptedApplications == if ok then AcceptedRows(old(currentApplications), checkedIds)
                                      else old(acceptedApplications)
      ensures currentApplications == old(currentApplications)
      ensures filteredApplications == old(filteredApplications)
    {
      if ok {
        var current := currentApplications;
        acceptedApplications := Lists.Filter(current, (r: AdminRow) => r.applicationId in checkedIds);
      }
    }

    /** `publishResults` up to the publish request, given the reply of `/api/periods/current`. */
    method PublishResults(reply: PeriodReply) returns (step: PublishStep)
      ensures step == PublishStepOf(|acceptedApplications|, reply)
    {
      if |acceptedApplications| == 0 {
        return NothingAccepted;
      }
      if !reply.ok {
        return PeriodCheckFailed;
      }
      if reply.period.Some? && reply.period.value.isActive {
        return StillActive;
      }
      step := PublishRequested;
    }
  }
}
