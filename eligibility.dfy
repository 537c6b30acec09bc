/**
 * `checkEligibility` of the requirements page: every input must be truthy,
 * then four minimum requirements are checked in a fixed order and each that
 * fails adds one message; when none fails, the wording of the success
 * message depends only on whether `/auth/me` answers `ok`.
 */
module Eligibility {
  import opened Common
  import Lists

  /** The four minimum requirements, in the order they are checked. */
  datatype Criterion = Year | Percent | Average | English

  /** The position of a requirement in the fixed order. */
  function Rank(c: Criterion): int
  {
    match c
    case Year => 0
    case Percent => 1
    case Average => 2
    case English => 3
  }

  /** The English levels that meet the requirement. */
  predicate EnglishEnough(level: string)
  {
    level in ["B2", "C1", "C2"]
  }

  /** Whether a requirement fails for the parsed inputs. */
  predicate Fails(c: Criterion, year: real, percent: real, average: real, level: string)
  {
    match c
    case Year => year < 2.0
    case Percent => percent < 70.0
    case Average => average < 6.5
    case English => !EnglishEnough(level)
  }

  /** The requirements that fail, in the fixed order: one entry per failing requirement. */
  function FailedCriteria(year: real, percent: real, average: real, level: string): seq<Criterion>
  {
    (if Fails(Year, year, percent, average, level) then [Year] else [])
    + (if Fails(Percent, year, percent, average, level) then [Percent] else [])
    + (if Fails(Average, year, percent, average, level) then [Average] else [])
    + (if Fails(English, year, percent, average, level) then [English] else [])
  }

  /** How a check ends. */
  datatype Verdict =
    | FillAllFields
    | NotEligible(failed: seq<Criterion>)
    | Eligible(loggedIn: bool)   // which of the two success messages is shown

  /** All four inputs present: `year`, `passedCourses` and `average` truthy (not empty, NaN or 0), and a level chosen. */
  predicate AllFilled(year: NumberField, percent: NumberField, average: NumberField, english: Option<string>)
  {
    Truthy(year) && Truthy(percent) && Truthy(average) && english.Some?
  }

  /**
   * `checkEligibility`. `loggedIn` is whether `/auth/me` answers `ok`; a
   * thrown request counts as not logged in.
   */
  method CheckEligibility(year: NumberField, percent: NumberField, average: NumberField, english: Option<string>,
                          loggedIn: bool) returns (verdict: Verdict)
    ensures !AllFilled(year, percent, average, english) ==> verdict == FillAllFields
    ensures AllFilled(year, percent, average, english) ==>
      var failed := FailedCriteria(year.value, percent.value, average.value, english.value);
      verdict == if failed == [] then Eligible(loggedIn) else NotEligible(failed)
  {
    if !Truthy(year) || !Truthy(percent) || !Truthy(average) || english.None? {
      return FillAllFields;
    }
    var y, p, a, level := year.value, percent.value, average.value, english.value;
    var failedChecks: seq<Criterion> := [];
    if y < 2.0 {
      failedChecks := failedChecks + [Year];
    }
    if p < 70.0 {
      failedChecks := failedChecks + [Percent];
    }
    if a < 6.5 {
      failedChecks := failedChecks + [Average];
    }
    if !EnglishEnough(level) {
      failedChecks := failedChecks + [English];
    }
    assert failedChecks == FailedCriteria(y, p, a, level);
    if |failedChecks| > 0 {
      verdict := NotEligible(failedChecks);
    } else {
      verdict := Eligible(loggedIn);
    }
  }

  /**
   * With all fields filled, the success message is shown exactly when the
   * year is at least 2, the percent at least 70, the average at least 6.5
   * and the English level B2, C1 or C2; every bound is inclusive.
   */
  lemma EligibleIff(year: real, percent: real, average: real, level: string)
    ensures FailedCriteria(year, percent, average, level) == [] <==>
      year >= 2.0 && percent >= 70.0 && average >= 6.5 && level in {"B2", "C1", "C2"}
  {
  }

  /**
   * Each failed requirement yields exactly one message, and the messages
   * follow the fixed order year, percent, average, English.
   */
  lemma FailedInFixedOrder(year: real, percent: real, average: real, level: string)
    ensures Lists.StrictlyIncreasing(FailedCriteria(year, percent, average, level), Rank)
    ensures forall c :: c in FailedCriteria(year, percent, average, level) <==> Fails(c, year, percent, average, level)
  {
  }

}
