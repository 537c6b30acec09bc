/**
 * Shared vocabulary of the portal model: optional values, the numeric form
 * fields of the browser scripts, the clock, and the period as the browser
 * receives it from `/api/periods/current`.
 */
module Common {

  datatype Option<+T> = None | Some(value: T)

  /**
   * A numeric form field after `parseFloat`/`parseInt`: the raw text was empty,
   * or it did not parse (NaN), or it parsed to a number.
   */
  datatype NumberField = Empty | NaN | Num(value: real)

  /** JavaScript truthiness of a parsed number: empty text and NaN are falsy, and so is 0. */
  predicate Truthy(f: NumberField)
  {
    f.Num? && f.value != 0.0
  }

  /*
   * Time. The server mixes datetime comparisons (`NOW()`, `new Date()`) with
   * date comparisons (`CURDATE()`), and stores period bounds as dates. The model
   * keeps instants as seconds and dates as day numbers; a date used where an
   * instant is expected stands for its midnight, as MySQL and `new Date(date)` do.
   */
  /** The instant at which day `d` begins. */
  function Midnight(d: int): int
  {
    d * 86400
  }

  /** `CURDATE()`: the day that contains instant `now`. */
  function Today(now: int): (d: int)
    ensures Midnight(d) <= now < Midnight(d + 1)
  {
    now / 86400
  }

  /** The day containing an instant is unique: it is the day whose midnights bracket the instant. */
  lemma TodayIsTheBracketingDay(now: int, d: int)
    ensures Today(now) == d <==> Midnight(d) <= now < Midnight(d + 1)
  {
  }

  /** A day lies in a closed day range exactly when its midnight lies in the range of midnights. */
  lemma DayRangeIsMidnightRange(d: int, lo: int, hi: int)
    ensures lo <= d <= hi <==> Midnight(lo) <= Midnight(d) <= Midnight(hi)
  {
  }

  /**
   * The period as the browser sees it in the reply of `/api/periods/current`:
   * its dates (absent when the JSON lacks them) and its stored `is_active` flag.
   */
  datatype PeriodView = PeriodView(start: Option<int>, end: Option<int>, isActive: bool)

  /**
   * What a page learns from fetching `/api/periods/current`: whether the
   * response was `ok` (a 2xx status), and the `period` member of its JSON
   * body, absent when the body carries none (`null`, or an error body).
   */
  datatype PeriodReply = PeriodReply(ok: bool, period: Option<PeriodView>)

  /** An HTTP reply: its status code and its JSON body. */
  datatype Reply<B> = Reply(status: int, body: B)
}
