/**
 * Cron expressions and their next fire time, src/cron/cron-scheduler.ts:62-171, on a clock
 * of whole minutes at a fixed offset.
 */
module Cron {

  import opened Calendar
  import opened Wrappers

  // ---------------------------------------------------------------------
  // Fields
  // ---------------------------------------------------------------------

  /** One comma-separated part: what stands before the slash, and the step after it if any. */
  datatype Reach = Star | Span(first: int, last: int) | Single(value: int)

  datatype Part = Part(reach: Reach, step: Option<nat>)

  function StepOf(part: Part): nat {
    if part.step.None? then 1 else part.step.value
  }

  /** No exception for this part. */
  predicate PartOk(part: Part, min: int, max: int) {
    && (part.step.Some? ==> part.step.value >= 1)
    && match part.reach
       case Star => true
       case Span(first, last) => min <= first <= last <= max
       case Single(value) => min <= value <= max
  }

  /** `v` is a whole number of steps from `start`, up to `end`. */
  predicate OnSteps(v: int, start: int, end: int, step: nat)
    requires step >= 1
  {
    start <= v <= end && (v - start) % step == 0
  }

  /** What a part stands for; a step after a single value means nothing. */
  predicate PartHas(part: Part, min: int, max: int, v: int)
    requires PartOk(part, min, max)
  {
    match part.reach
    case Star => OnSteps(v, min, max, StepOf(part))
    case Span(first, last) => OnSteps(v, first, last, StepOf(part))
    case Single(value) => v == value
  }

  predicate FieldOk(field: seq<Part>, min: int, max: int) {
    forall i :: 0 <= i < |field| ==> PartOk(field[i], min, max)
  }

  predicate FieldHas(field: seq<Part>, min: int, max: int, v: int)
    requires FieldOk(field, min, max)
  {
    exists i :: 0 <= i < |field| && PartHas(field[i], min, max, v)
  }

  /** for (let i = start; i <= end; i += step) values.add(i) */
  method AddSteps(values: set<int>, start: int, end: int, step: nat) returns (more: set<int>)
    requires step >= 1
    ensures forall v :: v in more <==> v in values || OnSteps(v, start, end, step)
  {
    more := values;
    var i := start;
    ghost var k := 0;
    while i <= end
      invariant k >= 0 && start <= i == Multiple(start, k, step)
      invariant forall v :: v in more <==> v in values || (OnSteps(v, start, end, step) && v < i)
      decreases end - i
    {
      more := more + {i};
      NextOnSteps(start, end, i, k, step);
      k := k + 1;
      i := i + step;
    }
  }

  function Multiple(start: int, k: int, step: nat): int { start + k * step }

  /** Between one multiple and the next there is no other. */
  lemma NextOnSteps(start: int, end: int, i: int, k: int, step: nat)
    requires step >= 1 && i == Multiple(start, k, step) && start <= i <= end
    ensures i + step == Multiple(start, k + 1, step)
    ensures forall v :: i <= v < i + step ==> (OnSteps(v, start, end, step) <==> v == i)
  {
    forall v | i <= v < i + step ensures OnSteps(v, start, end, step) <==> v == i {
      DivisionIs(v - start, step, k, v - i);
    }
  }

  method ParseField(field: seq<Part>, min: int, max: int) returns (values: Option<set<int>>)
    requires min <= max
    ensures values.Some? <==> FieldOk(field, min, max)
    ensures values.Some? ==> forall v :: v in values.value <==> FieldHas(field, min, max, v)
  {
    var found: set<int> := {};
    for n := 0 to |field|
      invariant FieldOk(field[..n], min, max)
      invariant forall v :: v in found <==> exists i :: 0 <= i < n && PartHas(field[..n][i], min, max, v)
    {
      var part := field[n];
      if part.step.Some? && part.step.value < 1 { return None; }
      ghost var before := found;
      match part.reach
      case Star =>
        found := AddSteps(found, min, max, StepOf(part));
      case Span(first, last) =>
        if first < min || last > max || first > last { return None; }
        found := AddSteps(found, first, last, StepOf(part));
      case Single(value) =>
        if value < min || value > max { return None; }
        found := found + {value};
      assert forall v :: v in found <==> v in before || PartHas(part, min, max, v);
      assert field[..n + 1] == field[..n] + [part];
    }
    assert field[..|field|] == field;
    return Some(found);
  }

  /** A field has at least one part, so its set is never empty and stays within its range. */
  lemma FieldsAreInhabited(field: seq<Part>, min: int, max: int, values: set<int>)
    requires min <= max && field != [] && FieldOk(field, min, max)
    requires forall v :: v in values <==> FieldHas(field, min, max, v)
    ensures values != {} && forall v :: v in values ==> min <= v <= max
  {
    var part := field[0];
    var v := match part.reach case Star => min case Span(first, _) => first case Single(value) => value;
    assert PartHas(part, min, max, v);
    assert v in values;
  }

  // ---------------------------------------------------------------------
  // Expressions
  // ---------------------------------------------------------------------

  datatype Expression = Expression(minute: seq<Part>, hour: seq<Part>, dom: seq<Part>, month: seq<Part>, dow: seq<Part>)

  datatype Fields = Fields(minutes: set<int>, hours: set<int>, doms: set<int>, months: set<int>, dows: set<int>)

  predicate Within(s: set<int>, min: int, max: int) {
    s != {} && forall v :: v in s ==> min <= v <= max
  }

  /** What every parsed expression satisfies. */
  predicate Parsed(f: Fields) {
    Within(f.minutes, 0, 59) && Within(f.hours, 0, 23) && Within(f.doms, 1, 31) && Within(f.months, 1, 12)
    && Within(f.dows, 0, 6)
  }

  predicate ExpressionOk(e: Expression) {
    FieldOk(e.minute, 0, 59) && FieldOk(e.hour, 0, 23) && FieldOk(e.dom, 1, 31) && FieldOk(e.month, 1, 12)
    && FieldOk(e.dow, 0, 7)
  }

  ghost predicate Denotes(e: Expression, f: Fields)
    requires ExpressionOk(e)
  {
    && (forall v :: v in f.minutes <==> FieldHas(e.minute, 0, 59, v))
    && (forall v :: v in f.hours <==> FieldHas(e.hour, 0, 23, v))
    && (forall v :: v in f.doms <==> FieldHas(e.dom, 1, 31, v))
    && (forall v :: v in f.months <==> FieldHas(e.month, 1, 12, v))
    && (forall v :: v in f.dows <==> v != 7 && (FieldHas(e.dow, 0, 7, v) || (v == 0 && FieldHas(e.dow, 0, 7, 7))))
  }

  /** Splitting a text on commas leaves at least one part in each field. */
  predicate WellFormed(e: Expression) {
    e.minute != [] && e.hour != [] && e.dom != [] && e.month != [] && e.dow != []
  }

  method ParseExpression(e: Expression) returns (fields: Option<Fields>)
    requires WellFormed(e)
    ensures fields.Some? <==> ExpressionOk(e)
    ensures fields.Some? ==> Denotes(e, fields.value) && Parsed(fields.value)
  {
    var dows := ParseField(e.dow, 0, 7);
    if dows.None? { return None; }
    var days := if 7 in dows.value then dows.value + {0} - {7} else dows.value;
    var minutes := ParseField(e.minute, 0, 59);
    if minutes.None? { return None; }
    var hours := ParseField(e.hour, 0, 23);
    if hours.None? { return None; }
    var doms := ParseField(e.dom, 1, 31);
    if doms.None? { return None; }
    var months := ParseField(e.month, 1, 12);
    if months.None? { return None; }
    var f := Fields(minutes.value, hours.value, doms.value, months.value, days);
    FieldsAreInhabited(e.minute, 0, 59, f.minutes);
    FieldsAreInhabited(e.hour, 0, 23, f.hours);
    FieldsAreInhabited(e.dom, 1, 31, f.doms);
    FieldsAreInhabited(e.month, 1, 12, f.months);
    SundayIsZero(e.dow, dows.value, days);
    return Some(f);
  }

  /** Seven becomes nought, and some weekday is left. */
  lemma SundayIsZero(field: seq<Part>, raw: set<int>, days: set<int>)
    requires field != [] && FieldOk(field, 0, 7)
    requires forall v :: v in raw <==> FieldHas(field, 0, 7, v)
    requires days == if 7 in raw then raw + {0} - {7} else raw
    ensures Within(days, 0, 6)
    ensures forall v :: v in days <==> v != 7 && (FieldHas(field, 0, 7, v) || (v == 0 && FieldHas(field, 0, 7, 7)))
  {
    FieldsAreInhabited(field, 0, 7, raw);
    if 7 in raw { assert 0 in days; }
  }

  // ---------------------------------------------------------------------
  // Matching
  // ---------------------------------------------------------------------

  const MINUTES_PER_DAY := 1440

  function DayAt(minute: int): int { minute / MINUTES_PER_DAY }

  function HourAt(minute: int): int { (minute % MINUTES_PER_DAY) / 60 }

  function MinuteAt(minute: int): int { (minute % MINUTES_PER_DAY) % 60 }

  predicate DayMatches(f: Fields, d: int) {
    var domIsWildcard, dowIsWildcard := |f.doms| == 31, |f.dows| == 7;
    if domIsWildcard && dowIsWildcard then true
    else if domIsWildcard then WeekdayOf(d) in f.dows
    else if dowIsWildcard then DayOf(d) in f.doms
    else DayOf(d) in f.doms || WeekdayOf(d) in f.dows
  }

  predicate DateMatches(f: Fields, d: int) {
    MonthOf(d) in f.months && DayMatches(f, d)
  }

  /** cronMatchesTime, on the minute counted from the start of day 0. */
  predicate Matches(f: Fields, minute: int) {
    && MinuteAt(minute) in f.minutes
    && HourAt(minute) in f.hours
    && MonthOf(DayAt(minute)) in f.months
    && DayMatches(f, DayAt(minute))
  }

  predicate Full(s: set<int>, min: int, max: int) {
    forall v :: min <= v <= max ==> v in s
  }

  function Interval(min: int, max: int): (s: set<int>)
    requires min <= max + 1
    ensures |s| == max - min + 1
    ensures forall v :: v in s <==> min <= v <= max
    decreases max - min
  {
    if min > max then {} else Interval(min, max - 1) + {max}
  }

  lemma FullBySize(s: set<int>, min: int, max: int)
    requires min <= max && Within(s, min, max)
    ensures |s| == max - min + 1 <==> Full(s, min, max)
  {
    SubsetSize(s, Interval(min, max));
    if Full(s, min, max) { assert s == Interval(min, max); }
  }

  lemma SubsetSize<T>(s: set<T>, t: set<T>)
    requires s <= t
    ensures |s| == |t| <==> s == t
  {
    assert t == s + (t - s);
  }

  /** A wildcard by size is a wildcard by meaning: the two-sided rule in terms of the sets alone. */
  lemma DayMatchesMeans(f: Fields, d: int)
    requires Parsed(f)
    ensures DayMatches(f, d) <==>
      || (DayOf(d) in f.doms && WeekdayOf(d) in f.dows)
      || (!Full(f.doms, 1, 31) && !Full(f.dows, 0, 6) && (DayOf(d) in f.doms || WeekdayOf(d) in f.dows))
  {
    FullBySize(f.doms, 1, 31);
    FullBySize(f.dows, 0, 6);
  }

  // ---------------------------------------------------------------------
  // The next fire time
  // ---------------------------------------------------------------------

  const MS_PER_MINUTE := 60_000
  const SEARCH_DAYS: nat := 366
  const SEARCH_MINUTES: nat := 366 * 24 * 60

  /** Some minute within the search window after `after` matches. */
  ghost predicate Found(f: Fields, after: int) {
    exists m :: after < m <= after + SEARCH_MINUTES && Matches(f, m)
  }

  /** `m` is the first matching minute after `after`. */
  ghost predicate IsFirstMatch(f: Fields, after: int, m: int) {
    after < m && Matches(f, m) && forall k :: after < k < m ==> !Matches(f, k)
  }

  /**
   * getNextFireTime, in milliseconds: the earliest matching minute strictly after `after`,
   * and the instant 366 days later when the search window has none.
   */
  method GetNextFireTime(f: Fields, after: int) returns (at: int)
    ensures after < at
    ensures Found(f, after / MS_PER_MINUTE) ==>
      at % MS_PER_MINUTE == 0 && IsFirstMatch(f, after / MS_PER_MINUTE, at / MS_PER_MINUTE)
    ensures !Found(f, after / MS_PER_MINUTE) ==> at == after + SEARCH_DAYS * 24 * 60 * 60 * 1000
  {
    var start := after / MS_PER_MINUTE;
    var candidate := start + 1;
    for i := 0 to SEARCH_MINUTES
      invariant candidate == start + 1 + i
      invariant forall k :: start < k < candidate ==> !Matches(f, k)
    {
      if Matches(f, candidate) {
        WholeMinute(candidate);
        return candidate * MS_PER_MINUTE;
      }
      candidate := candidate + 1;
    }
    return after + SEARCH_DAYS * 24 * 60 * 60 * 1000;
  }

  lemma WholeMinute(m: int)
    ensures (m * MS_PER_MINUTE) % MS_PER_MINUTE == 0 && (m * MS_PER_MINUTE) / MS_PER_MINUTE == m
  {
  }

  // ---------------------------------------------------------------------
  // Which expressions are always found
  // ---------------------------------------------------------------------

  function MinuteOfDay(hour: int, minute: int): int { 60 * hour + minute }

  /** The minute of day `d` at a time the expression allows. */
  function At(d: int, f: Fields, hour: int, minute: int): int { d * MINUTES_PER_DAY + MinuteOfDay(hour, minute) }

  lemma AtMatches(d: int, f: Fields, hour: int, minute: int)
    requires Parsed(f) && DateMatches(f, d) && hour in f.hours && minute in f.minutes
    ensures Matches(f, At(d, f, hour, minute))
  {
    var t := MinuteOfDay(hour, minute);
    DivisionIs(At(d, f, hour, minute), MINUTES_PER_DAY, d, t);
    DivisionIs(t, 60, hour, minute);
  }

  /** The first day on which a given time of day comes after minute `after`. */
  function FirstDay(after: int, time: int): int { (after - time) / MINUTES_PER_DAY + 1 }

  lemma FirstDayIsFirst(after: int, time: int)
    ensures var d := FirstDay(after, time);
      (d - 1) * MINUTES_PER_DAY + time <= after < d * MINUTES_PER_DAY + time
  {
    var q := (after - time) / MINUTES_PER_DAY;
    assert after - time == q * MINUTES_PER_DAY + (after - time) % MINUTES_PER_DAY;
  }

  /** A matching date among the 366 first possible ones is found. */
  lemma FoundOn(f: Fields, after: int, hour: int, minute: int, d: int)
    requires Parsed(f) && hour in f.hours && minute in f.minutes && DateMatches(f, d)
    requires var first := FirstDay(after, MinuteOfDay(hour, minute)); first <= d <= first + 365
    ensures Found(f, after)
  {
    var time := MinuteOfDay(hour, minute);
    var first := FirstDay(after, time);
    FirstDayIsFirst(after, time);
    AtMatches(d, f, hour, minute);
    assert first * MINUTES_PER_DAY <= d * MINUTES_PER_DAY <= (first + 365) * MINUTES_PER_DAY;
    assert after < At(d, f, hour, minute) <= after + SEARCH_MINUTES;
  }

  /** Whether the day of the month decides alone. */
  predicate DomDecides(f: Fields) {
    |f.dows| == 7 && |f.doms| != 31
  }

  lemma AnyOf<T>(s: set<T>) returns (x: T)
    requires s != {}
    ensures x in s
  {
    x :| x in s;
  }

  lemma DomRound(f: Fields, first: int, m: int, n: int) returns (d: int)
    requires DomDecides(f) && m in f.months && n in f.doms && 1 <= m <= 12 && 1 <= n <= MonthLength(false, m)
    ensures first <= d <= first + 365 && DateMatches(f, d)
  {
    d := DateComesRound(first, m, n);
  }

  lemma DowRound(f: Fields, first: int, m: int) returns (d: int)
    requires Parsed(f) && !DomDecides(f) && m in f.months
    ensures first <= d <= first + 365 && DateMatches(f, d)
  {
    var w := AnyOf(f.dows);
    d := WeekdayComesRound(first, m, w);
  }

  /** Among any 366 days there is a matching one, if there is one at all that is not 29 February. */
  lemma MatchComesRound(f: Fields, first: int, e: int) returns (d: int)
    requires Parsed(f) && DateMatches(f, e) && !IsLeapDay(e)
    ensures first <= d <= first + 365 && DateMatches(f, d)
  {
    if DomDecides(f) {
      NotLeapDayFits(e);
      d := DomRound(f, first, MonthOf(e), DayOf(e));
    } else {
      d := DowRound(f, first, MonthOf(e));
    }
  }

  lemma NotLeapDayFits(e: int)
    requires !IsLeapDay(e)
    ensures DayOf(e) <= MonthLength(false, MonthOf(e))
  {
  }

  lemma FoundIfEver(f: Fields, e: int, after: int)
    requires Parsed(f) && DateMatches(f, e) && !IsLeapDay(e)
    ensures Found(f, after)
  {
    var hour := AnyOf(f.hours);
    var minute := AnyOf(f.minutes);
    var day := MatchComesRound(f, FirstDay(after, MinuteOfDay(hour, minute)), e);
    FoundOn(f, after, hour, minute, day);
  }

  /** The minute before an ordinary year that another follows. */
  function BeforeYear(y: int): int { NewYear(y) * MINUTES_PER_DAY - 1 }

  lemma FoundOffLeapDay(f: Fields, y: int) returns (d: int)
    requires !IsLeap(y) && !IsLeap(y + 1) && Found(f, BeforeYear(y))
    ensures DateMatches(f, d) && !IsLeapDay(d)
  {
    var m :| BeforeYear(y) < m <= BeforeYear(y) + SEARCH_MINUTES && Matches(f, m);
    d := DayAt(m);
    InSpan(m, NewYear(y));
    YearWithoutLeapDay(y, d);
  }

  lemma InSpan(m: int, first: int)
    requires first * MINUTES_PER_DAY - 1 < m <= first * MINUTES_PER_DAY - 1 + SEARCH_MINUTES
    ensures first <= DayAt(m) <= first + 365
  {
  }

  lemma OrdinaryYears()
    ensures !IsLeap(2021) && !IsLeap(2022) && IsLeap(2024)
  {
  }

  /** The test on the fields: a weekday may decide, or some day of the month comes in an ordinary year. */
  predicate FitsOrdinaryYear(f: Fields)
    requires Within(f.months, 1, 12)
  {
    !DomDecides(f) || exists m, n :: m in f.months && n in f.doms && n <= MonthLength(false, m)
  }

  lemma FitsIffMatchesOffLeapDay(f: Fields)
    requires Parsed(f)
    ensures FitsOrdinaryYear(f) <==> exists d :: DateMatches(f, d) && !IsLeapDay(d)
  {
    if d :| DateMatches(f, d) && !IsLeapDay(d) {
      NotLeapDayFits(d);
    }
    if FitsOrdinaryYear(f) {
      var d := OrdinaryMatch(f);
    }
  }

  lemma OrdinaryMatch(f: Fields) returns (d: int)
    requires Parsed(f) && FitsOrdinaryYear(f)
    ensures DateMatches(f, d) && !IsLeapDay(d)
  {
    OrdinaryYears();
    if DomDecides(f) {
      var m, n :| m in f.months && n in f.doms && n <= MonthLength(false, m);
      d := DomRound(f, NewYear(2021), m, n);
    } else {
      var m := AnyOf(f.months);
      d := DowRound(f, NewYear(2021), m);
    }
    YearWithoutLeapDay(2021, d);
  }

  /**
   * The search always succeeds for exactly the expressions that fit an ordinary year, that is, those
   * that can match on some date other than 29 February.
   */
  lemma AlwaysFoundIffNotOnlyLeapDays(f: Fields)
    requires Parsed(f)
    ensures (forall after :: Found(f, after)) <==> FitsOrdinaryYear(f)
    ensures FitsOrdinaryYear(f) <==> (exists d :: DateMatches(f, d) && !IsLeapDay(d))
  {
    FitsIffMatchesOffLeapDay(f);
    if d :| DateMatches(f, d) && !IsLeapDay(d) {
      forall after ensures Found(f, after) {
        FoundIfEver(f, d, after);
      }
    }
    if forall after :: Found(f, after) {
      OrdinaryYears();
      var d := FoundOffLeapDay(f, 2021);
    }
  }

  const LEAP_DAY_ONLY := Fields({0}, {0}, {29}, {2}, Interval(0, 6))

  lemma LeapDayOnlyMatches(d: int)
    requires DateMatches(LEAP_DAY_ONLY, d)
    ensures IsLeapDay(d)
  {
    assert |LEAP_DAY_ONLY.dows| == 7 && |LEAP_DAY_ONLY.doms| != 31;
  }

  /** Midnight on 29 February is a valid expression that the search can miss although it will match. */
  lemma LeapDayCanBeMissed() returns (after: int, later: int)
    ensures Parsed(LEAP_DAY_ONLY)
    ensures !Found(LEAP_DAY_ONLY, after) && after < later && Matches(LEAP_DAY_ONLY, later)
  {
    OrdinaryYears();
    after := BeforeYear(2021);
    if Found(LEAP_DAY_ONLY, after) {
      var d := FoundOffLeapDay(LEAP_DAY_ONLY, 2021);
      LeapDayOnlyMatches(d);
    }
    var d := DayNumber(2024, 2, 29);
    DateOfDayNumber(2024, 2, 29);
    NewYearsApart(2021, 2024);
    later := At(d, LEAP_DAY_ONLY, 0, 0);
    assert DateMatches(LEAP_DAY_ONLY, d);
    AtMatches(d, LEAP_DAY_ONLY, 0, 0);
  }
}
