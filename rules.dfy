/** The rule engine shared by the blind controller and the clock timer: rule records after
    start-up normalisation, resolution of a rule's time with its Min/Max alternatives, the
    per-rule acceptance test (fktCheck) and the two condition pre-passes. */
module Rules {
  import opened Values
  import opened Levels

  // Time operators of a rule.
  const NoTime := -1
  const Until := 0
  const From := 1
  // Level operators of a blind rule.
  const Absolute := 0
  const MinOversteer := 1
  const MaxOversteer := 2
  // Joins of a condition clause.
  const LogNone := 0
  const LogOr := 1
  const LogAnd := 2

  const DayMs := 86400000

  /** The current moment as the rule filters read it: epoch milliseconds, day of week,
      day of month, month, the day identifier, and the position inside the year
      (see YearKey). */
  datatype Now = Now(ts: int, weekday: int, date: int, month: int, dayId: int, yearKey: int)

  /** A moment of the year, ordered like the dates of one calendar year. */
  function YearKey(month: int, day: int, ms: int): int
  {
    (month * 32 + day) * DayMs + ms
  }

  /** The date window of a rule, as year keys. */
  datatype DateRange = DateRange(start: int, end: int)

  /** A rule after start-up. `joins` holds the join operator of each condition clause (the
      rule is conditional exactly when it has clauses); `levelOp` and `level` are read by the
      blind controller only, `importance` and `resetOverwrite` by the clock timer only. */
  datatype Rule = Rule(
    timeOp: int,
    timeLimited: bool,
    days: Option<seq<int>>,
    months: Option<seq<int>>,
    oddDays: bool,
    evenDays: bool,
    dateRange: Option<DateRange>,
    joins: seq<int>,
    levelOp: int,
    level: LevelSpec,
    importance: int,
    resetOverwrite: bool)
  {
    predicate Conditional()
    {
      |joins| > 0
    }
  }

  /** The date window test; a window whose end is not after its start wraps over the
      turn of the year. */
  predicate InDateRange(r: DateRange, key: int)
  {
    if r.end > r.start then !(key < r.start || key > r.end)
    else !(key < r.start && key > r.end)
  }

  /** The day-of-week, month, odd/even and date-window filters of a time-limited rule. */
  predicate PassesFilters(r: Rule, now: Now)
  {
    (r.days.None? || now.weekday in r.days.value)
    && (r.months.None? || now.month in r.months.value)
    && !(r.oddDays && now.date % 2 == 0)
    && !(r.evenDays && now.date % 2 != 0)
    && (r.dateRange.None? || InDateRange(r.dateRange.value, now.yearKey))
  }

  /** What the position configuration reports for one time of a rule: a timestamp with its
      day identifier, an error, or a result without a value. */
  datatype TimeRes = Resolved(ts: int, dayId: int) | Failed | NoValue

  /** The nominal time of a rule and its optional Min and Max alternatives (None: the
      alternative's type is 'none'). */
  datatype RuleTimes = RuleTimes(nominal: TimeRes, min: Option<TimeRes>, max: Option<TimeRes>)

  /** The outcome of getRuleTimeData: the returned number with the `dayId` left in
      `rule.timeData` (None: the field is absent), or an exception. */
  datatype TimeOutcome = Timed(ts: int, dayId: Option<int>) | Thrown

  /** The record in `rule.timeData` while the alternatives are applied: its timestamp, its
      `dayId` field and the day of the date it holds. */
  datatype Current = Current(ts: int, dayId: int, valueDay: int)

  /** Apply one alternative: it replaces the current record when it is later (`later`) or
      earlier than it. The new `dayId` is taken from the record that was swapped out. An
      alternative without a usable value throws (None). */
  function Swap(cur: Current, alt: Option<TimeRes>, later: bool): Option<Current>
  {
    match alt
    case None => Some(cur)
    case Some(Resolved(ats, aday)) =>
      if (if later then ats > cur.ts else ats < cur.ts) then Some(Current(ats, cur.valueDay, aday))
      else Some(cur)
    case Some(_) => None
  }

  predicate Usable(alt: Option<TimeRes>)
  {
    alt.None? || alt.value.Resolved?
  }

  /** getRuleTimeData. A failed nominal time gives -1 and no day; a nominal result without a
      value throws; so does any Min or Max alternative that is not resolved. Otherwise the
      time is at least the nominal and the Min time, and at most the Max time, where the
      Max time wins. */
  function RuleTimeData(t: RuleTimes): (r: TimeOutcome)
    ensures t.nominal.Failed? ==> r == Timed(-1, None)
    ensures r.Thrown? <==> t.nominal.NoValue? || (t.nominal.Resolved? && !(Usable(t.min) && Usable(t.max)))
    ensures r.Timed? && t.nominal.Resolved? ==>
              r.dayId.Some?
              && (r.ts == t.nominal.ts || (t.min.Some? && r.ts == t.min.value.ts) || (t.max.Some? && r.ts == t.max.value.ts))
              && (t.max.Some? ==> r.ts <= t.max.value.ts)
              && (r.ts >= t.nominal.ts || (t.max.Some? && r.ts == t.max.value.ts))
              && (t.min.Some? ==> r.ts >= t.min.value.ts || (t.max.Some? && r.ts == t.max.value.ts))
  {
    match t.nominal
    case Failed => Timed(-1, None)
    case NoValue => Thrown
    case Resolved(nts, nday) =>
      match Swap(Current(nts, nday, nday), t.min, true)
      case None => Thrown
      case Some(c1) =>
        match Swap(c1, t.max, false)
        case None => Thrown
        case Some(c2) => Timed(c2.ts, Some(c2.dayId))
  }

  /** After a Min swap the day identifier is still the nominal time's day, not the day of
      the Min time that is now used. */
  lemma MinSwapKeepsNominalDay(t: RuleTimes)
    requires t.nominal.Resolved? && t.min.Some? && t.min.value.Resolved? && t.max.None?
    requires t.min.value.ts > t.nominal.ts
    ensures RuleTimeData(t) == Timed(t.min.value.ts, Some(t.nominal.dayId))
  {
  }

  /** After a Max swap the day identifier is the day of the time that was replaced. */
  lemma MaxSwapTakesReplacedDay(t: RuleTimes)
    requires t.nominal.Resolved? && t.min.None? && t.max.Some? && t.max.value.Resolved?
    requires t.max.value.ts < t.nominal.ts
    ensures RuleTimeData(t) == Timed(t.max.value.ts, Some(t.nominal.dayId))
  {
  }

  /** The verdict of fktCheck on one rule in one pass. */
  datatype Check = Match | NoMatch | Abort

  /** fktCheck: `cond` is the rule's pre-pass result and `later` selects the comparison of
      the pass (time >= now in the forward pass, time <= now in the backward pass). */
  function FktCheck(r: Rule, cond: bool, t: RuleTimes, now: Now, later: bool): (c: Check)
    ensures r.Conditional() && !cond ==> c == NoMatch
    ensures (!r.Conditional() || cond) && !r.timeLimited ==> c == Match
    ensures c == Abort <==> (!r.Conditional() || cond) && r.timeLimited && PassesFilters(r, now) && RuleTimeData(t).Thrown?
    ensures c == Match && r.timeLimited ==>
              PassesFilters(r, now) && RuleTimeData(t).Timed?
              && RuleTimeData(t).dayId == Some(now.dayId) && RuleTimeData(t).ts >= 0
              && (if later then RuleTimeData(t).ts >= now.ts else RuleTimeData(t).ts <= now.ts)
    ensures ((!r.Conditional() || cond) && r.timeLimited && PassesFilters(r, now) && RuleTimeData(t).Timed?
             && RuleTimeData(t).dayId == Some(now.dayId) && RuleTimeData(t).ts >= 0
             && (if later then RuleTimeData(t).ts >= now.ts else RuleTimeData(t).ts <= now.ts)) ==> c == Match
  {
    if r.Conditional() && !cond then NoMatch
    else if !r.timeLimited then Match
    else if !PassesFilters(r, now) then NoMatch
    else
      match RuleTimeData(t)
      case Thrown => Abort
      case Timed(ts, d) =>
        if d == Some(now.dayId) && ts >= 0 && (if later then ts >= now.ts else ts <= now.ts) then Match
        else NoMatch
  }

  /** A rule whose time failed to resolve never matches. */
  lemma FailedTimeNeverMatches(r: Rule, cond: bool, t: RuleTimes, now: Now, later: bool)
    requires r.timeLimited && t.nominal.Failed?
    ensures FktCheck(r, cond, t, now, later) == NoMatch
  {
  }

  // ---------------------------------------------------------------------------------------
  // Condition pre-pass. `outs[i]` is what the comparator gives for clause i; it is only
  // consulted for the clauses the scan reaches.

  /** The blind controller's scan from clause `i` with result `acc`: stop before an OR
      clause once the result is true; a false AND clause makes the result false and stops;
      any other false clause is skipped; a true clause makes the result true. */
  function BlindCondFrom(joins: seq<int>, outs: seq<bool>, i: nat, acc: bool): bool
    requires |outs| == |joins|
    decreases |joins| - i
  {
    if i >= |joins| then acc
    else if acc && joins[i] == LogOr then acc
    else if !outs[i] then
      if joins[i] == LogAnd then false else BlindCondFrom(joins, outs, i + 1, acc)
    else BlindCondFrom(joins, outs, i + 1, true)
  }

  function BlindCondition(joins: seq<int>, outs: seq<bool>): bool
    requires |outs| == |joins|
  {
    BlindCondFrom(joins, outs, 0, false)
  }

  /** The clock timer's scan: stop before an OR clause once the result is true and before
      an AND clause once it is false; every clause evaluated replaces the result. */
  function ClockCondFrom(joins: seq<int>, outs: seq<bool>, i: nat, acc: bool): bool
    requires |outs| == |joins|
    decreases |joins| - i
  {
    if i >= |joins| then acc
    else if (acc && joins[i] == LogOr) || (!acc && joins[i] == LogAnd) then acc
    else ClockCondFrom(joins, outs, i + 1, outs[i])
  }

  function ClockCondition(joins: seq<int>, outs: seq<bool>): bool
    requires |outs| == |joins|
  {
    ClockCondFrom(joins, outs, 0, false)
  }

  predicate NoFalseAnd(joins: seq<int>, outs: seq<bool>, i: nat)
    requires |outs| == |joins|
  {
    forall k :: i <= k < |joins| ==> outs[k] || joins[k] != LogAnd
  }

  /** Without a false AND clause the blind controller's result is true exactly when the
      result already was or some remaining clause is true. */
  lemma {:induction false} BlindCondIsAnyTrue(joins: seq<int>, outs: seq<bool>, i: nat, acc: bool)
    requires |outs| == |joins| && i <= |joins| && NoFalseAnd(joins, outs, i)
    ensures BlindCondFrom(joins, outs, i, acc) <==> acc || exists k :: i <= k < |joins| && outs[k]
    decreases |joins| - i
  {
    if i < |joins| {
      if acc && joins[i] == LogOr {
      } else if !outs[i] {
        BlindCondIsAnyTrue(joins, outs, i + 1, acc);
      } else {
        BlindCondIsAnyTrue(joins, outs, i + 1, true);
      }
    }
  }

  /** A blind result of true always rests on a true clause. */
  lemma {:induction false} BlindTrueHasWitness(joins: seq<int>, outs: seq<bool>, i: nat, acc: bool)
    requires |outs| == |joins| && i <= |joins|
    requires BlindCondFrom(joins, outs, i, acc)
    ensures acc || exists k :: i <= k < |joins| && outs[k]
    decreases |joins| - i
  {
    if i < |joins| && !(acc && joins[i] == LogOr) {
      if !outs[i] {
        if joins[i] != LogAnd {
          BlindTrueHasWitness(joins, outs, i + 1, acc);
        }
      }
    }
  }

  predicate AllOr(joins: seq<int>)
  {
    forall k :: 0 <= k < |joins| ==> joins[k] == LogOr
  }

  /** With OR joins only, the clock timer's result is true exactly when the result already
      was or some remaining clause is true. */
  lemma {:induction false} ClockOrIsAnyTrue(joins: seq<int>, outs: seq<bool>, i: nat, acc: bool)
    requires |outs| == |joins| && i <= |joins| && AllOr(joins)
    ensures ClockCondFrom(joins, outs, i, acc) <==> acc || exists k :: i <= k < |joins| && outs[k]
    decreases |joins| - i
  {
    if i < |joins| && !acc {
      ClockOrIsAnyTrue(joins, outs, i + 1, outs[i]);
    }
  }

  /** With OR joins only both nodes agree: the rule's condition holds exactly when one of
      its clauses is true. */
  lemma OrJoinsAgree(joins: seq<int>, outs: seq<bool>)
    requires |outs| == |joins| && AllOr(joins)
    ensures BlindCondition(joins, outs) == ClockCondition(joins, outs)
    ensures BlindCondition(joins, outs) <==> exists k :: 0 <= k < |joins| && outs[k]
  {
    BlindCondIsAnyTrue(joins, outs, 0, false);
    ClockOrIsAnyTrue(joins, outs, 0, false);
  }

  /** The clock timer never evaluates a first clause joined by AND, so such a rule's
      condition is false. */
  lemma ClockLeadingAndIsFalse(joins: seq<int>, outs: seq<bool>)
    requires |outs| == |joins| && |joins| > 0 && joins[0] == LogAnd
    ensures !ClockCondition(joins, outs)
  {
  }

  /** The clauses are false OR clauses up to `p`, and clause `p`, the last one, is a true
      AND clause. */
  predicate FalseOrsThenTrueAnd(joins: seq<int>, outs: seq<bool>, p: nat)
    requires |outs| == |joins|
  {
    p == |joins| - 1 && joins[p] == LogAnd && outs[p]
    && forall k :: 0 <= k < p ==> joins[k] == LogOr && !outs[k]
  }

  /** From any clause up to `p` with a false result so far, the blind controller's scan
      ends true and the clock timer's ends false. */
  lemma {:induction false} FalseOrsThenTrueAndFrom(joins: seq<int>, outs: seq<bool>, p: nat, i: nat)
    requires |outs| == |joins| && FalseOrsThenTrueAnd(joins, outs, p) && i <= p
    ensures BlindCondFrom(joins, outs, i, false) && !ClockCondFrom(joins, outs, i, false)
    decreases p - i
  {
    if i < p {
      FalseOrsThenTrueAndFrom(joins, outs, p, i + 1);
    } else {
      assert BlindCondFrom(joins, outs, p + 1, true);
    }
  }

  /** Where the two pre-passes differ: false OR clauses (any number of them) followed by a
      true AND clause are true for the blind controller, which takes the true clause, and
      false for the clock timer, which never evaluates an AND clause once the result is
      false. */
  lemma FalseThenTrueAnd(joins: seq<int>, outs: seq<bool>, p: nat)
    requires |outs| == |joins| && FalseOrsThenTrueAnd(joins, outs, p)
    ensures BlindCondition(joins, outs)
    ensures !ClockCondition(joins, outs)
  {
    FalseOrsThenTrueAndFrom(joins, outs, p, 0);
  }

  /** The clock timer's result is the outcome of the last clause it evaluated: true only if
      some clause is true. */
  lemma {:induction false} ClockTrueHasWitness(joins: seq<int>, outs: seq<bool>, i: nat, acc: bool)
    requires |outs| == |joins| && i <= |joins|
    requires ClockCondFrom(joins, outs, i, acc)
    ensures acc || exists k :: i <= k < |joins| && outs[k]
    decreases |joins| - i
  {
    if i < |joins| && !((acc && joins[i] == LogOr) || (!acc && joins[i] == LogAnd)) {
      ClockTrueHasWitness(joins, outs, i + 1, outs[i]);
    }
  }

  // ---------------------------------------------------------------------------------------
  // Start-up normalisation of the configured rules.

  /** How a rule's time type is configured: absent or empty, 'none', or a real type. */
  datatype TimeType = TypeMissing | TypeNone | TypeGiven

  /** One condition clause as configured: whether its operand type is 'none', and its join
      operator (0 when absent or not a number). */
  datatype RawClause = RawClause(operandNone: bool, logOp: int)

  /** A day of the year as configured for a date window. */
  datatype Day = Day(month: int, day: int)

  /** A rule as configured. Numeric fields hold 0 where the configuration has no number. */
  datatype RawRule = RawRule(
    timeOp: int,
    levelOp: int,
    timeType: TimeType,
    days: Option<seq<int>>,
    months: Option<seq<int>>,
    oddDays: bool,
    evenDays: bool,
    dateStart: Option<Day>,
    dateEnd: Option<Day>,
    valid: RawClause,
    valid2: RawClause,
    level: LevelSpec,
    importance: int,
    resetOverwrite: bool)

  /** setCondObj: a clause is kept when its operand type is not 'none' and its join, after
      the default, is not 0. The first clause defaults to OR, the second to no join. */
  function ClauseJoin(c: RawClause, default: int): (r: seq<int>)
    ensures |r| <= 1
    ensures |r| == 1 <==> !c.operandNone && (c.logOp != 0 || default != LogNone)
    ensures |r| == 1 ==> r[0] != LogNone && (c.logOp != 0 ==> r[0] == c.logOp)
  {
    var v := if c.logOp == 0 then default else c.logOp;
    if !c.operandNone && v != LogNone then [v] else []
  }

  function Joins(raw: RawRule): seq<int>
  {
    ClauseJoin(raw.valid, LogOr) + ClauseJoin(raw.valid2, LogNone)
  }

  /** The date window: a missing start is the first of January, a missing end the last of
      December; the start day begins at 00:00:00.001, the end day ends at 23:59:59.999. */
  function Window(start: Option<Day>, end: Option<Day>): (r: Option<DateRange>)
    ensures r.Some? <==> start.Some? || end.Some?
  {
    if start.None? && end.None? then None
    else
      var s := if start.Some? then start.value else Day(0, 1);
      var e := if end.Some? then end.value else Day(11, 31);
      Some(DateRange(YearKey(s.month, s.day, 1), YearKey(e.month, e.day, DayMs - 1)))
  }

  /** A rule as the blind controller's initialize leaves it. */
  function NormaliseBlind(raw: RawRule): (r: Rule)
    ensures r.timeLimited <==> !raw.timeType.TypeNone?
    ensures r.timeOp == (if !r.timeLimited then NoTime else if raw.timeOp == 0 then Until else raw.timeOp)
    ensures r.levelOp != 3 && r.levelOp != 4
    ensures raw.levelOp == 3 ==> r.levelOp == MinOversteer && r.level == LevelNotDefined
    ensures raw.levelOp == 4 ==> r.levelOp == MaxOversteer && r.level == LevelNotDefined
    ensures raw.levelOp != 3 && raw.levelOp != 4 ==> r.levelOp == raw.levelOp && r.level == raw.level
    ensures !(r.oddDays && r.evenDays)
    ensures r.oddDays ==> raw.oddDays
    ensures r.evenDays ==> raw.evenDays
    ensures r.Conditional() <==> !raw.valid.operandNone || (!raw.valid2.operandNone && raw.valid2.logOp != 0)
  {
    var limited := !raw.timeType.TypeNone?;
    var both := raw.oddDays && raw.evenDays;
    Rule(
      timeOp := if !limited then NoTime else if raw.timeOp == 0 then Until else raw.timeOp,
      timeLimited := limited,
      days := raw.days,
      months := raw.months,
      oddDays := raw.oddDays && !both,
      evenDays := raw.evenDays && !both,
      dateRange := Window(raw.dateStart, raw.dateEnd),
      joins := Joins(raw),
      levelOp := if raw.levelOp == 3 then MinOversteer else if raw.levelOp == 4 then MaxOversteer else raw.levelOp,
      level := if raw.levelOp == 3 || raw.levelOp == 4 then LevelNotDefined else raw.level,
      importance := 0,
      resetOverwrite := false)
  }

  /** A rule as the clock timer's initialize leaves it: only a rule with a real time type is
      time-limited, and a rule that is not loses its filters. */
  function NormaliseClock(raw: RawRule): (r: Rule)
    ensures r.timeLimited <==> raw.timeType.TypeGiven?
    ensures r.timeOp == (if !r.timeLimited then NoTime else if raw.timeOp == 0 then Until else raw.timeOp)
    ensures !r.timeLimited ==> r.days.None? && r.months.None? && !r.oddDays && !r.evenDays && r.dateRange.None?
    ensures !(r.oddDays && r.evenDays)
    ensures r.importance == raw.importance && r.resetOverwrite == raw.resetOverwrite
    ensures r.Conditional() <==> !raw.valid.operandNone || (!raw.valid2.operandNone && raw.valid2.logOp != 0)
  {
    var limited := raw.timeType.TypeGiven?;
    var both := raw.oddDays && raw.evenDays;
    Rule(
      timeOp := if !limited then NoTime else if raw.timeOp == 0 then Until else raw.timeOp,
      timeLimited := limited,
      days := if limited then raw.days else None,
      months := if limited then raw.months else None,
      oddDays := limited && raw.oddDays && !both,
      evenDays := limited && raw.evenDays && !both,
      dateRange := if limited then Window(raw.dateStart, raw.dateEnd) else None,
      joins := Joins(raw),
      levelOp := Absolute,
      level := LevelNotDefined,
      importance := raw.importance,
      resetOverwrite := raw.resetOverwrite)
  }

  // ---------------------------------------------------------------------------------------
  // Scans over the rule list.

  /** One evaluation of the rules: the rules, each rule's pre-pass result, the times the
      position configuration resolves for each rule, and the current moment. */
  datatype Env = Env(rules: seq<Rule>, conds: seq<bool>, times: seq<RuleTimes>, now: Now)
  {
    predicate WellSized()
    {
      |conds| == |rules| && |times| == |rules|
    }

    /** fktCheck of rule `i` in the pass that compares with `later`. */
    function At(i: int, later: bool): Check
      requires WellSized() && 0 <= i < |rules|
    {
      FktCheck(rules[i], conds[i], times[i], now, later)
    }

    /** Resolving the time of rule `i` throws. */
    predicate Raises(i: int)
      requires WellSized() && 0 <= i < |rules|
    {
      rules[i].timeLimited && RuleTimeData(times[i]).Thrown?
    }
  }

  /** Rule `i` is accepted by the forward pass: not a From rule, and its time not before now. */
  predicate FwdMatch(env: Env, i: int)
    requires env.WellSized() && 0 <= i < |env.rules|
  {
    env.rules[i].timeOp != From && env.At(i, true) == Match
  }

  /** Rule `i` is accepted by the backward pass: not an Until rule, and its time not after now. */
  predicate BwdMatch(env: Env, i: int)
    requires env.WellSized() && 0 <= i < |env.rules|
  {
    env.rules[i].timeOp != Until && env.At(i, false) == Match
  }

  /** A rule either pass accepts. */
  predicate Accepted(env: Env, k: int)
    requires env.WellSized() && 0 <= k < |env.rules|
  {
    FwdMatch(env, k) || BwdMatch(env, k)
  }

  /** `k` is the last Until rule among the first `hi` rules, or `dflt` when there is none. */
  predicate LastUntilBelow(rules: seq<Rule>, hi: int, k: int, dflt: int)
    requires 0 <= hi <= |rules|
  {
    (k == dflt && forall j :: 0 <= j < hi ==> rules[j].timeOp != Until)
    || (0 <= k < hi && rules[k].timeOp == Until && forall j :: k < j < hi ==> rules[j].timeOp != Until)
  }

  /** `k` is the first From rule among the first `hi` rules, or `dflt` when there is none. */
  predicate FirstFromBelow(rules: seq<Rule>, hi: int, k: int, dflt: int)
    requires 0 <= hi <= |rules|
  {
    (k == dflt && forall j :: 0 <= j < hi ==> rules[j].timeOp != From)
    || (0 <= k < hi && rules[k].timeOp == From && forall j :: 0 <= j < k ==> rules[j].timeOp != From)
  }

  /** Appending a rule: an Until rule becomes the last one, any other keeps it. */
  lemma LastUntilExtend(rules: seq<Rule>, r: Rule, k: int, dflt: int)
    requires LastUntilBelow(rules, |rules|, k, dflt)
    ensures LastUntilBelow(rules + [r], |rules| + 1, if r.timeOp == Until then |rules| else k, dflt)
  {
    var s := rules + [r];
    assert forall j :: 0 <= j < |rules| ==> s[j] == rules[j];
  }

  /** Appending a rule: a first From rule is kept; without one, a From rule becomes it. */
  lemma FirstFromExtend(rules: seq<Rule>, r: Rule, k: int, dflt: int, found: bool)
    requires FirstFromBelow(rules, |rules|, k, dflt)
    requires found <==> 0 <= k < |rules| && rules[k].timeOp == From
    ensures var k' := if r.timeOp == From && !found then |rules| else k;
            FirstFromBelow(rules + [r], |rules| + 1, k', dflt)
            && ((found || r.timeOp == From) <==> 0 <= k' < |rules| + 1 && (rules + [r])[k'].timeOp == From)
  {
    var s := rules + [r];
    assert forall j :: 0 <= j < |rules| ==> s[j] == rules[j];
  }

  /** The last Until rule, or the last index when there is none (lastUntil). */
  predicate IsLastUntil(rules: seq<Rule>, k: int)
  {
    LastUntilBelow(rules, |rules|, k, |rules| - 1)
  }

  /** The first From rule, or the last index when there is none (firstFrom). */
  predicate IsFirstFrom(rules: seq<Rule>, k: int)
  {
    FirstFromBelow(rules, |rules|, k, |rules| - 1)
  }

  /** A later rule the auto trigger can wait for: time-limited with a time after now. */
  predicate Upcoming(rules: seq<Rule>, times: seq<RuleTimes>, now: Now, j: int)
    requires |times| == |rules| && 0 <= j < |rules|
  {
    rules[j].timeLimited && RuleTimeData(times[j]).Timed? && RuleTimeData(times[j]).ts > now.ts
  }

  /** The auto-trigger delay and its type (0 default, 1 current rule end, 2 next rule, 3-7
      sun position), or the exception of a rule time. */
  datatype Trigger = TriggerAborted | Trigger(time: int, kind: int)

  /** The time left until rule `j`'s time. */
  function Delay(times: seq<RuleTimes>, now: Now, j: int): int
    requires 0 <= j < |times| && RuleTimeData(times[j]).Timed?
  {
    RuleTimeData(times[j]).ts - now.ts
  }

  /** The auto trigger after the rules in [lo, hi) are looked at, one after the other:
      every time-limited rule whose time is after now lowers the delay to the time left
      until it and sets type 2; a rule time that throws ends the search. The delay is the
      smallest of the delay so far and those of the upcoming rules, and always one of
      them. */
  function LaterTrigger(rules: seq<Rule>, times: seq<RuleTimes>, now: Now, lo: int, hi: int, t: Trigger): (r: Trigger)
    requires |times| == |rules| && 0 <= lo <= hi <= |rules| && t.Trigger?
    ensures r.TriggerAborted? <==> exists j :: lo <= j < hi && rules[j].timeLimited && RuleTimeData(times[j]).Thrown?
    ensures r.Trigger? ==> r.time <= t.time
    ensures r.Trigger? ==> forall j :: lo <= j < hi && Upcoming(rules, times, now, j) ==> r.time <= Delay(times, now, j)
    ensures r.Trigger? ==> r.time == t.time || exists j :: lo <= j < hi && Upcoming(rules, times, now, j) && r.time == Delay(times, now, j)
    ensures r.Trigger? ==> r.kind == if exists j :: lo <= j < hi && Upcoming(rules, times, now, j) then 2 else t.kind
    decreases hi - lo
  {
    if lo == hi then t
    else if !rules[lo].timeLimited then LaterTrigger(rules, times, now, lo + 1, hi, t)
    else
      match RuleTimeData(times[lo])
      case Thrown => TriggerAborted
      case Timed(ts, _) =>
        if ts > now.ts then
          assert Upcoming(rules, times, now, lo);
          LaterTrigger(rules, times, now, lo + 1, hi, Trigger(Min(t.time, ts - now.ts), 2))
        else LaterTrigger(rules, times, now, lo + 1, hi, t)
  }

  /** The loop over later rules in checkRules (checkRuleForAT in the clock timer), which
      computes LaterTrigger. */
  method NextRuleTrigger(rules: seq<Rule>, times: seq<RuleTimes>, now: Now, lo: int, hi: int, time: int, kind: int)
    returns (t: Trigger)
    requires |times| == |rules| && 0 <= lo <= hi <= |rules|
    ensures t == LaterTrigger(rules, times, now, lo, hi, Trigger(time, kind))
  {
    var best, k := time, kind;
    var i := lo;
    while i < hi
      invariant lo <= i <= hi
      invariant LaterTrigger(rules, times, now, i, hi, Trigger(best, k)) == LaterTrigger(rules, times, now, lo, hi, Trigger(time, kind))
    {
      if rules[i].timeLimited {
        var td := RuleTimeData(times[i]);
        if td.Thrown? {
          return TriggerAborted;
        }
        if td.ts > now.ts {
          var diff := td.ts - now.ts;
          best := if diff < best then diff else best;
          k := 2;
        }
      }
      i := i + 1;
    }
    t := Trigger(best, k);
  }

  /** The rule index a rule id stands for (ids count from 1; -1: no rule). */
  function IndexOf(id: int): int
  {
    if id > 0 then id - 1 else -1
  }
}
