/**
 * The application periods table and the operations on it: the expiry sweep
 * that runs before several application routes (`checkPeriodStatus`), and the
 * period routes `POST /set`, `GET /current` and `GET /`.
 *
 * The period routes query a table named `applications_periods` and the
 * application routes one named `application_periods`; the model has a single
 * table for both.
 */
module Periods {
  import opened Common
  import Lists

  /** A row of the periods table; `start` and `end` are dates (day numbers). */
  datatype Period = Period(id: nat, start: int, end: int, active: bool, createdAt: int)

  /** `NOW() > end_date`: the end date compares as its midnight. */
  predicate HasEnded(p: Period, now: int)
  {
    now > Midnight(p.end)
  }

  /** The two rows agree on everything but the `is_active` flag. */
  predicate SameExceptActive(a: Period, b: Period)
  {
    a.(active := b.active) == b
  }

  /**
   * The row a query `WHERE p(row) ORDER BY key(row) DESC LIMIT 1` returns:
   * a row satisfying `p` with the largest key (the earliest such row on ties),
   * or none.
   */
  function Latest(rows: seq<Period>, p: Period -> bool, key: Period -> int): (r: Option<Period>)
    ensures r.None? <==> forall i :: 0 <= i < |rows| ==> !p(rows[i])
    ensures r.Some? ==> r.value in rows && p(r.value)
    ensures r.Some? ==> forall i :: 0 <= i < |rows| && p(rows[i]) ==> key(rows[i]) <= key(r.value)
  {
    if rows == [] then None
    else
      var rest := Latest(rows[1..], p, key);
      assert forall i :: 1 <= i < |rows| ==> rows[i] == rows[1..][i - 1];
      if p(rows[0]) && (rest.None? || key(rest.value) <= key(rows[0])) then Some(rows[0]) else rest
  }

  /** `WHERE is_active = 1 ORDER BY created_at DESC LIMIT 1`. */
  function LatestActive(rows: seq<Period>): Option<Period>
  {
    Latest(rows, (p: Period) => p.active, (p: Period) => p.createdAt)
  }

  /** `WHERE is_active = 0 ORDER BY end_date DESC LIMIT 1`. */
  function LatestEnded(rows: seq<Period>): Option<Period>
  {
    Latest(rows, (p: Period) => !p.active, (p: Period) => p.end)
  }

  /** The sweep's update: every active period whose end has passed becomes inactive. */
  function DeactivateExpired(rows: seq<Period>, now: int): (r: seq<Period>)
    ensures |r| == |rows|
    ensures forall i :: 0 <= i < |rows| ==> SameExceptActive(r[i], rows[i])
    ensures forall i :: 0 <= i < |rows| ==> (r[i].active <==> rows[i].active && !HasEnded(rows[i], now))
  {
    seq(|rows|, i requires 0 <= i < |rows| => rows[i].(active := rows[i].active && !HasEnded(rows[i], now)))
  }

  /** `UPDATE ... SET is_active = 0` on every row. */
  function DeactivateAll(rows: seq<Period>): (r: seq<Period>)
    ensures |r| == |rows|
    ensures forall i :: 0 <= i < |rows| ==> SameExceptActive(r[i], rows[i]) && !r[i].active
  {
    seq(|rows|, i requires 0 <= i < |rows| => rows[i].(active := false))
  }

  /** The table after a successful `POST /set`: every earlier period deactivated, the new one appended active. */
  function SetRows(rows: seq<Period>, start: int, end: int, now: int, id: nat): seq<Period>
  {
    DeactivateAll(rows) + [Period(id, start, end, true, now)]
  }

  /** After the sweep no active period has ended, and a period stays active exactly when it was active and has not ended. */
  lemma SweepLeavesNoEndedActive(rows: seq<Period>, now: int, i: int)
    requires 0 <= i < |rows|
    ensures DeactivateExpired(rows, now)[i].active ==> !HasEnded(rows[i], now)
    ensures rows[i].active && !HasEnded(rows[i], now) ==> DeactivateExpired(rows, now)[i].active
  {
  }

  /** Sweeping again at the same instant changes nothing. */
  lemma SweepIdempotent(rows: seq<Period>, now: int)
    ensures DeactivateExpired(DeactivateExpired(rows, now), now) == DeactivateExpired(rows, now)
  {
  }

  /** The period the sweep reports as current has not ended. */
  lemma SweptCurrentHasNotEnded(rows: seq<Period>, now: int)
    ensures LatestActive(DeactivateExpired(rows, now)).Some? ==>
      !HasEnded(LatestActive(DeactivateExpired(rows, now)).value, now)
  {
    var r := DeactivateExpired(rows, now);
    if LatestActive(r).Some? {
      var p := LatestActive(r).value;
      var i :| 0 <= i < |r| && r[i] == p;
      assert SameExceptActive(r[i], rows[i]);
    }
  }

  /** After a successful `/set` exactly one period is active: the new one, which is the last row. */
  lemma SetLeavesOneActive(rows: seq<Period>, start: int, end: int, now: int, id: nat)
    ensures var r := SetRows(rows, start, end, now, id);
      |r| == |rows| + 1 && r[|rows|] == Period(id, start, end, true, now)
      && forall i :: 0 <= i < |r| ==> (r[i].active <==> i == |rows|)
  {
  }

  /** The lifecycle invariant: no two periods are flagged active at once. */
  predicate AtMostOneActive(rows: seq<Period>)
  {
    forall i, j :: 0 <= i < |rows| && 0 <= j < |rows| && rows[i].active && rows[j].active ==> i == j
  }

  /** The sweep only clears flags, so it keeps at most one period active. */
  lemma SweepKeepsAtMostOneActive(rows: seq<Period>, now: int)
    requires AtMostOneActive(rows)
    ensures AtMostOneActive(DeactivateExpired(rows, now))
  {
    var r := DeactivateExpired(rows, now);
    forall i, j | 0 <= i < |r| && 0 <= j < |r| && r[i].active && r[j].active
      ensures i == j
    {
      assert rows[i].active && rows[j].active;
    }
  }

  /** A successful `/set` leaves exactly its new period active, whatever was active before. */
  lemma SetKeepsAtMostOneActive(rows: seq<Period>, start: int, end: int, now: int, id: nat)
    ensures AtMostOneActive(SetRows(rows, start, end, now, id))
  {
    SetLeavesOneActive(rows, start, end, now, id);
  }

  /** One step of the period lifecycle: a `/set` request, or a sweep run by a route. */
  datatype PeriodOp =
    | SetOp(start: Option<int>, end: Option<int>, at: int, id: nat)
    | SweepOp(at: int, fault: SweepFault)

  /** The rows after one step, as `PeriodTable.Set` and `PeriodTable.Sweep` leave them. */
  function Apply(rows: seq<Period>, op: PeriodOp): seq<Period>
  {
    match op
    case SetOp(start, end, at, id) =>
      if start.Some? && end.Some? && start.value < end.value then SetRows(rows, start.value, end.value, at, id) else rows
    case SweepOp(at, fault) =>
      if fault == FailBeforeUpdate then rows else DeactivateExpired(rows, at)
  }

  /** The rows after a sequence of steps, in order. */
  function Replay(rows: seq<Period>, ops: seq<PeriodOp>): seq<Period>
    decreases |ops|
  {
    if ops == [] then rows else Replay(Apply(rows, ops[0]), ops[1..])
  }

  /** At any instant of any sequence of `/set` requests and sweeps, at most one period is active. */
  lemma {:induction false} ReplayKeepsAtMostOneActive(rows: seq<Period>, ops: seq<PeriodOp>)
    requires AtMostOneActive(rows)
    ensures AtMostOneActive(Replay(rows, ops))
    decreases |ops|
  {
    if ops != [] {
      match ops[0] {
        case SetOp(start, end, at, id) =>
          if start.Some? && end.Some? && start.value < end.value {
            SetKeepsAtMostOneActive(rows, start.value, end.value, at, id);
          }
        case SweepOp(at, fault) =>
          if fault != FailBeforeUpdate {
            SweepKeepsAtMostOneActive(rows, at);
          }
      }
      ReplayKeepsAtMostOneActive(Apply(rows, ops[0]), ops[1..]);
    }
  }

  /** `/set` never deletes a period: the earlier rows are still there, in order, only deactivated. */
  lemma SetKeepsEarlierPeriods(rows: seq<Period>, start: int, end: int, now: int, id: nat)
    ensures var r := SetRows(rows, start, end, now, id);
      forall i :: 0 <= i < |rows| ==> SameExceptActive(r[i], rows[i]) && !r[i].active
  {
  }

  /** After `/set`, `/current` reports the period just set. */
  lemma CurrentAfterSet(rows: seq<Period>, start: int, end: int, now: int, id: nat)
    ensures LatestActive(SetRows(rows, start, end, now, id)) == Some(Period(id, start, end, true, now))
  {
    var r := SetRows(rows, start, end, now, id);
    SetLeavesOneActive(rows, start, end, now, id);
    var l := LatestActive(r);
    var k :| 0 <= k < |r| && r[k] == l.value;
  }

  /**
   * The `isActive` flag of `/current`: `start <= now <= end` on instants, the
   * dates standing for their midnights.
   */
  predicate OpenAt(p: Period, now: int)
  {
    Midnight(p.start) <= now <= Midnight(p.end)
  }

  /**
   * Both bounds are inclusive, but the end date stands for its first instant:
   * a period is open from the start of its first day up to the first instant
   * of its end day, and no later.
   */
  lemma OpenAtIsDayRange(p: Period, now: int)
    ensures OpenAt(p, now) <==> p.start <= Today(now) && (Today(now) < p.end || now == Midnight(p.end))
  {
    var t := Today(now);
    assert t * 86400 <= now < (t + 1) * 86400;
    if p.start <= t < p.end {
      assert p.start * 86400 <= t * 86400;
      assert (t + 1) * 86400 <= p.end * 86400;
    }
    if OpenAt(p, now) && now != Midnight(p.end) {
      assert p.start * 86400 < (t + 1) * 86400;
      assert t * 86400 < p.end * 86400;
    }
  }

  /** The reply of `POST /set`. */
  datatype SetBody = PeriodSet | DatesRequired | EndNotAfterStart | SetFailed

  /** The body of `GET /current`: the period and whether it is open now. */
  datatype CurrentBody = CurrentBody(period: Option<Period>, isActive: bool)

  /** The `/current` body as the pages read it. */
  function ViewOf(body: CurrentBody): (v: PeriodReply)
    ensures v.ok
    ensures v.period.Some? <==> body.period.Some?
    ensures v.period.Some? ==> v.period.value.isActive == body.period.value.active
  {
    match body.period
    case None => PeriodReply(true, None)
    case Some(p) => PeriodReply(true, Some(PeriodView(Some(p.start), Some(p.end), p.active)))
  }

  /** Which step of the sweep throws, if any; an error never blocks the request. */
  datatype SweepFault = NoFault | FailBeforeUpdate | FailAfterUpdate

  class PeriodTable {
    var rows: seq<Period>
    var nextId: nat

    /** Ids are unique and below the next auto-increment value, and at most one period is active. */
    predicate Valid()
      reads this
    {
      (forall i :: 0 <= i < |rows| ==> rows[i].id < nextId)
      && (forall i, j :: 0 <= i < j < |rows| ==> rows[i].id != rows[j].id)
      && AtMostOneActive(rows)
    }

    constructor ()
      ensures Valid() && rows == [] && nextId == 1
    {
      rows := [];
      nextId := 1;
    }

    /**
     * `checkPeriodStatus`: deactivates the active periods that have ended and
     * returns the most recently created period that is still active as
     * `currentPeriod`. A failing query only loses `currentPeriod`.
     */
    method Sweep(now: int, fault: SweepFault) returns (current: Option<Period>)
      requires Valid()
      modifies this
      ensures Valid() && nextId == old(nextId)
      ensures AtMostOneActive(rows) && rows == Apply(old(rows), SweepOp(now, fault))
      ensures rows == if fault == FailBeforeUpdate then old(rows) else DeactivateExpired(old(rows), now)
      ensures current == if fault == NoFault then LatestActive(rows) else None
    {
      if fault == FailBeforeUpdate {
        return None;
      }
      SweepKeepsAtMostOneActive(rows, now);
      rows := DeactivateExpired(rows, now);
      if fault == FailAfterUpdate {
        return None;
      }
      current := LatestActive(rows);
    }

    /**
     * `POST /set`: both dates are required and the end must come after the
     * start; then every period is deactivated and the new one inserted active
     * with `created_at = now`.
     */
    method Set(start: Option<int>, end: Option<int>, now: int) returns (reply: Reply<SetBody>)
      requires Valid()
      modifies this
      ensures Valid()
      ensures start.None? || end.None? ==> reply == Reply(400, DatesRequired)
      ensures start.Some? && end.Some? && start.value >= end.value ==> reply == Reply(400, EndNotAfterStart)
      ensures reply.status == 200 <==> start.Some? && end.Some? && start.value < end.value
      ensures reply.status == 200 ==>
        rows == SetRows(old(rows), start.value, end.value, now, old(nextId)) && nextId == old(nextId) + 1
      ensures reply.status == 200 ==> AtMostOneActive(rows) && rows[|rows| - 1].active
      ensures rows == Apply(old(rows), SetOp(start, end, now, old(nextId)))
      ensures reply.status != 200 ==> rows == old(rows) && nextId == old(nextId)
    {
      if start.None? || end.None? {
        return Reply(400, DatesRequired);
      }
      if Midnight(start.value) >= Midnight(end.value) {
        return Reply(400, EndNotAfterStart);
      }
      SetKeepsAtMostOneActive(rows, start.value, end.value, now, nextId);
      rows := DeactivateAll(rows);
      rows := rows + [Period(nextId, start.value, end.value, true, now)];
      nextId := nextId + 1;
      reply := Reply(200, PeriodSet);
    }

    /** `GET /current`: the most recently created active period and whether `now` lies within it. */
    function Current(now: int): (r: Reply<CurrentBody>)
      reads this
      ensures r.status == 200
      ensures r.body.period.None? <==> forall i :: 0 <= i < |rows| ==> !rows[i].active
      ensures r.body.period.None? ==> !r.body.isActive
      ensures r.body.period.Some? ==> r.body.period.value in rows && r.body.period.value.active
      ensures r.body.isActive <==> r.body.period.Some? && OpenAt(r.body.period.value, now)
    {
      match LatestActive(rows)
      case None => Reply(200, CurrentBody(None, false))
      case Some(p) => Reply(200, CurrentBody(Some(p), OpenAt(p, now)))
    }

    /** `GET /`: every period, the most recently created first. */
    function ListAll(): (r: seq<Period>)
      reads this
      ensures multiset(r) == multiset(rows)
      ensures Lists.NonIncreasing(r, (p: Period) => p.createdAt as real)
    {
      Lists.SortDescOrders(rows, (p: Period) => p.createdAt as real);
      Lists.SortDesc(rows, (p: Period) => p.createdAt as real)
    }
  }

  /*
   * The period routes as written. `routes/periods.js` binds `pool` to the
   * object the database module exports (`{ pool, testConnection }`) instead
   * of its `pool` member, so every `pool.query(...)` there throws a TypeError,
   * which each route's `catch` turns into a 500 reply.
   */

  /** The status `POST /set` returns as written: the date checks run before any query, everything else fails. */
  function SetStatusAsWritten(start: Option<int>, end: Option<int>): (status: int)
    ensures status == 400 <==> start.None? || end.None? || start.value >= end.value
    ensures status != 400 ==> status == 500
  {
    if start.None? || end.None? || Midnight(start.value) >= Midnight(end.value) then 400 else 500
  }

  /** What a page receives from `GET /current` as written: a 500 reply whose body has no `period`. */
  function CurrentAsWritten(): (r: PeriodReply)
    ensures !r.ok && r.period.None?
  {
    PeriodReply(false, None)
  }

  /** The status of `GET /` as written. */
  function ListStatusAsWritten(): (status: int)
    ensures status == 500
  {
    500
  }

  /**
   * Every request the intended `/set` accepts is answered 500 as written, so
   * no period can ever be set through the route.
   */
  lemma SetNeverSucceedsAsWritten(start: Option<int>, end: Option<int>)
    ensures SetStatusAsWritten(start, end) != 200
    ensures start.Some? && end.Some? && start.value < end.value ==> SetStatusAsWritten(start, end) == 500
  {
  }
}
