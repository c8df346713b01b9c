/** The blind controller node: its start-up, the manual override check, and the handling
    of one input message (override, rules, sun control, the rule and range limits, and the
    decision to send the new level). The configuration node's helpers (reading values out
    of a message, resolving rule times, comparing properties, the sun calculation) are
    parameters: `BlindMsg` holds what they read out of a message and `BlindEvent` what
    they resolve for the moment of the message. */
module BlindControlNode {
  import opened Values
  import opened Levels
  import opened Rules
  import BlindRules
  import opened Sun
  import opened Overwrites
  import opened TempCache

  /** What the message helpers read out of an input message. */
  datatype BlindMsg = BlindMsg(
    /** `importance` and its aliases; None when the message has none. */
    importance: Option<int>,
    exactImportance: bool,
    /** `reset` / `resetOverwrite`. */
    resetOverwrite: bool,
    /** `trigger` / `noOverwrite`: the message only triggers an evaluation. */
    onlyTrigger: bool,
    /** The requested level; None when it is absent or not a number. */
    position: Option<real>,
    expire: MsgNumber,
    topic: string,
    ignoreSameValue: bool,
    /** The requested sun-control mode. */
    mode: MsgNumber)

  /** The message sent when an override expires: `{payload: -1, topic:
      'internal-triggerOnly-overwriteExpired'}`, which the helpers read as a trigger only. */
  function ExpiredMsg(): (m: BlindMsg)
    ensures m.onlyTrigger && m.position.None? && m.importance.None? && !m.resetOverwrite
  {
    BlindMsg(None, false, false, true, None, NotNumber, "internal-triggerOnly-overwriteExpired", false, NotNumber)
  }

  /** One input message together with what the configuration node resolves for it:
      `outs[i][j]` is the comparison of clause j of rule i, `times[i]` the times of rule i,
      `props[i]` the number a property-typed level of rule i reads, `sun` the sun position
      and `hits[k]` the comparison of oversteer entry k (None: it throws). */
  datatype BlindEvent = BlindEvent(
    msg: BlindMsg,
    now: Now,
    outs: seq<seq<bool>>,
    times: seq<RuleTimes>,
    props: seq<Num>,
    sun: SunPosition,
    hits: seq<Option<bool>>)

  /** The node's settings as configured. */
  datatype BlindConfig = BlindConfig(
    openPos: int,
    closedPos: int,
    increment: int,
    defaultPos: LevelSpec,
    defaultProp: Num,
    minPos: LevelSpec,
    minProp: Num,
    maxPos: LevelSpec,
    maxProp: Num,
    smoothTime: MsgNumber,
    /** None: no auto trigger; Some(t): the configured time, 0 when unset. */
    autoTrigger: Option<int>,
    overwriteExpire: MsgNumber,
    sunControlMode: int,
    minAltitude: real,
    minDelta: int,
    azimuthStart: real,
    azimuthEnd: real,
    windowTop: real,
    windowBottom: real,
    /** The configured oversteer entries (at most three): their level and the number a
        property-typed level reads. */
    oversteer: seq<(LevelSpec, Num)>,
    rules: seq<RawRule>,
    startDelayTime: MsgNumber)

  /** The result of one input: nothing when an exception ended the handler, otherwise the
      level sent (or that would be sent), its inverse, the reason code, the rule id, whether
      the override decided the level, and whether a message goes out. */
  datatype BlindOutput =
    | Aborted
    | Output(level: Num, inverse: Num, code: Num, ruleId: int, overridden: bool, emitted: bool)

  /** What a manual level in a message did: it was not valid, it repeated the previous
      level of a message that ignores repeats, or it set the level and the override. */
  datatype ManualOutcome = Invalid | Repeated | Engaged

  /** The level and reason code the node works on. */
  datatype LevelState = LevelState(levels: LevelPair, code: Num)

  /** The Min/Max rule limits: a level below the rule minimum is raised to it (code 15);
      otherwise one above the rule maximum is lowered to it (code 26). */
  function RuleLimit(c: BlindData, st: LevelState, lmin: Option<int>, lmax: Option<int>): (r: LevelState)
    requires c.Valid()
    ensures lmin.Some? && Less(st.levels.level, N(lmin.value)) ==>
              r == LevelState(LevelPair(N(lmin.value), GetInversePos(c, N(lmin.value))), N(15))
    ensures !(lmin.Some? && Less(st.levels.level, N(lmin.value))) && lmax.Some? && Less(N(lmax.value), st.levels.level) ==>
              r == LevelState(LevelPair(N(lmax.value), GetInversePos(c, N(lmax.value))), N(26))
    ensures r == st <==> !(lmin.Some? && Less(st.levels.level, N(lmin.value))) && !(lmax.Some? && Less(N(lmax.value), st.levels.level))
    ensures lmin.Some? && (lmax.Some? ==> lmin.value <= lmax.value) ==> !Less(r.levels.level, N(lmin.value))
    ensures lmax.Some? && (lmin.Some? ==> lmin.value <= lmax.value) ==> !Less(N(lmax.value), r.levels.level)
  {
    if lmin.Some? && Less(st.levels.level, N(lmin.value)) then
      LevelState(LevelPair(N(lmin.value), GetInversePos(c, N(lmin.value))), N(15))
    else if lmax.Some? && Less(N(lmax.value), st.levels.level) then
      LevelState(LevelPair(N(lmax.value), GetInversePos(c, N(lmax.value))), N(26))
    else st
  }

  /** The final limit to the blind's range: a level below the bottom becomes the bottom
      with the top as inverse, one above the top the top with the bottom as inverse. */
  function RangeLimit(c: BlindData, p: LevelPair): (r: LevelPair)
    requires c.Valid()
    ensures r.level.NaN? <==> p.level.NaN?
    ensures r.level.N? ==> c.levelBottom <= r.level.v <= c.levelTop
    ensures r == p <==> p.level.NaN? || c.levelBottom <= p.level.v <= c.levelTop
    ensures r != p ==> r.inverse.N? && r.level.v + r.inverse.v == c.levelBottom + c.levelTop
  {
    if Less(p.level, N(c.levelBottom)) then LevelPair(N(c.levelBottom), N(c.levelTop))
    else if Less(N(c.levelTop), p.level) then LevelPair(N(c.levelTop), N(c.levelBottom))
    else p
  }

  /** A rule Min/Max inside the blind's range survives the final range limit. */
  lemma LimitsKeepRuleBounds(c: BlindData, st: LevelState, lmin: Option<int>, lmax: Option<int>)
    requires c.Valid()
    requires lmin.Some? ==> c.levelBottom <= lmin.value <= c.levelTop
    requires lmax.Some? ==> c.levelBottom <= lmax.value <= c.levelTop
    requires lmin.Some? && lmax.Some? ==> lmin.value <= lmax.value
    ensures var l := RangeLimit(c, RuleLimit(c, st, lmin, lmax).levels).level;
            (lmin.Some? ==> !Less(l, N(lmin.value))) && (lmax.Some? ==> !Less(N(lmax.value), l))
  {
    var r := RuleLimit(c, st, lmin, lmax);
    assert lmin.Some? ==> !Less(r.levels.level, N(lmin.value));
    assert lmax.Some? ==> !Less(N(lmax.value), r.levels.level);
  }

  /** The level a rule result asks for, with its inverse. */
  function RuleLevels(c: BlindData, r: BlindRules.RuleResult): LevelPair
    requires c.Valid() && r.RuleResult?
  {
    LevelPair(r.level, GetInversePos(c, r.level))
  }

  /** The sun control runs when the rule sets no active level and a sun mode is on. */
  predicate SunRuns(r: BlindRules.RuleResult, mode: int)
    requires r.RuleResult?
  {
    !r.active && mode > 0
  }

  /** The level and reason code the input handler settles on once the rules gave `r`: the
      rule's level (the default when no rule applies) with its inverse and the rule's reason,
      or the sun control's level and reason when the sun control runs (`sun` is what it
      reads); then the rule's Min/Max limits and the blind's range. The level lies in the
      range, and a Min/Max inside the range, the minimum not above the maximum, holds. */
  function Decided(c: BlindData, r: BlindRules.RuleResult, sun: SunInput): (st: LevelState)
    requires c.Valid() && r.RuleResult?
    ensures st.levels.level.NaN? || c.levelBottom <= st.levels.level.v <= c.levelTop
    ensures (r.levelMinimum.Some? ==> c.levelBottom <= r.levelMinimum.value <= c.levelTop)
            && (r.levelMaximum.Some? ==> c.levelBottom <= r.levelMaximum.value <= c.levelTop)
            && (r.levelMinimum.Some? && r.levelMaximum.Some? ==> r.levelMinimum.value <= r.levelMaximum.value) ==>
              (r.levelMinimum.Some? ==> !Less(st.levels.level, N(r.levelMinimum.value)))
              && (r.levelMaximum.Some? ==> !Less(N(r.levelMaximum.value), st.levels.level))
  {
    var base := if SunRuns(r, sun.mode) then
                  var o := SunControl(c, sun); LevelState(o.levels, N(o.code))
                else LevelState(RuleLevels(c, r), N(r.code));
    var st := RuleLimit(c, base, r.levelMinimum, r.levelMaximum);
    var limited := LevelState(RangeLimit(c, st.levels), st.code);
    if (r.levelMinimum.Some? ==> c.levelBottom <= r.levelMinimum.value <= c.levelTop)
       && (r.levelMaximum.Some? ==> c.levelBottom <= r.levelMaximum.value <= c.levelTop)
       && (r.levelMinimum.Some? && r.levelMaximum.Some? ==> r.levelMinimum.value <= r.levelMaximum.value) then
      LimitsKeepRuleBounds(c, base, r.levelMinimum, r.levelMaximum);
      limited
    else
      limited
  }

  /** The message asks for a level that checkBlindPosOverwrite rejects as invalid
      (`blocked`: a more important override holds the message off). */
  predicate InvalidLevel(c: BlindData, m: BlindMsg, blocked: bool)
    requires c.Valid()
  {
    !blocked && !m.onlyTrigger && m.position.Some? && m.position.value != -1.0
    && !ValidPosition(c, m.position, Contains(m.topic, "roundLevel"))
  }

  /** The level checkBlindPosOverwrite leaves (`blocked`: a more important override is
      running; `current0` and `previous`: the level before and the previous level): a
      message that is blocked, only triggers or gives no level keeps the level; -1 forgets
      it; an invalid level, or a repeat of the previous level that the message ignores,
      keeps it; any other level becomes the level and its inverse. A level that changes is
      unknown, or aligned to the increment and its own inverse. */
  function ManualLevels(c: BlindData, m: BlindMsg, blocked: bool, current0: LevelPair, previous: LevelPair): (l: LevelPair)
    requires c.Valid()
    ensures l == current0 || l == LevelPair(NaN, NaN) || (l.level.N? && l.inverse == l.level && Aligned(c, l.level.v))
  {
    if blocked || m.onlyTrigger || m.position.None? then current0
    else if m.position.value == -1.0 then LevelPair(NaN, NaN)
    else if !ValidPosition(c, m.position, Contains(m.topic, "roundLevel")) then current0
    else if m.ignoreSameValue && previous.level == N(m.position.value.Floor) then current0
    else
      ValidPositionIff(c, m.position, Contains(m.topic, "roundLevel"));
      LevelPair(N(m.position.value.Floor), N(m.position.value.Floor))
  }

  /** How the level of an input was decided: a rule time threw, the override decided, or
      the rules (with `rule` the result of checkRules) did. */
  datatype Decision = DecisionAborted | ByOverride | ByRules(rule: BlindRules.RuleResult)

  /** The level the message carries: the inverse when the blind is configured reversed,
      and the previous one where the current one is NaN. */
  function Payload(reverse: bool, current: LevelPair, previous: LevelPair): (l: Num)
    ensures reverse ==> l == current.inverse || (current.inverse.NaN? && l == previous.inverse)
    ensures !reverse ==> l == current.level || (current.level.NaN? && l == previous.level)
    ensures l.NaN? ==> (if reverse then current.inverse.NaN? && previous.inverse.NaN? else current.level.NaN? && previous.level.NaN?)
  {
    if reverse then (if current.inverse.NaN? then previous.inverse else current.inverse)
    else (if current.level.NaN? then previous.level else current.level)
  }

  /** Whether the node sends: a known level and reason, and a change of level, reason or
      rule since the last message. */
  predicate Emits(current: Num, code: Num, ruleId: int, previous: Num, prevCode: Num, usedRule: Num)
  {
    current.N? && code.N? && (current != previous || code != prevCode || N(ruleId) != usedRule)
  }

  /** `parseFloat(smoothTime) || -1`, with a time of 0x7FFFFFFF or more deleted (which
      behaves as no smoothing). */
  function SmoothTime(t: MsgNumber): (r: int)
    ensures r != 0 && r < 0x7FFFFFFF
    ensures r > 0 <==> t.Finite? && 0 < t.v < 0x7FFFFFFF
  {
    match t
    case Finite(v) => if v == 0 || v >= 0x7FFFFFFF then -1 else v
    case _ => -1
  }

  class BlindControl {
    const c: BlindData
    const levelDefault: Num
    const levelMin: Num
    const levelMax: Num
    const smoothTime: int
    /** The default auto-trigger time; None when the node has no auto trigger. */
    const autoTrigger: Option<int>
    const rules: seq<Rule>
    const lastUntil: int
    const firstFrom: int
    const window: SunWindow
    const minAltitude: real
    const minDelta: int
    const modeMax: int
    const oversteerActive: bool
    /** The level of each oversteer entry. */
    const oversteerPos: seq<Num>
    const ov: Overwrite
    const cache: Cache

    var mode: int
    var changeAgain: int
    /** `node.level`: the level and its inverse. */
    var current: LevelPair
    /** `node.reason.code`. */
    var code: Num
    /** `node.previousData`: level, inverse, reason code and the rule of the last input. */
    var previous: LevelPair
    var prevCode: Num
    var usedRule: Num
    /** `node.autoTrigger`: the delay and type of the next automatic trigger. */
    var at: Trigger
    /** The pending auto-trigger timer and its delay. */
    var atTimer: Option<int>
    /** `node.startDelayTimeOut` is set. */
    var startDelayPending: bool

    predicate Valid()
      reads this, ov, cache
    {
      c.Valid() && ov.Valid() && cache.Valid() && at.Trigger?
      && (autoTrigger.None? ==> atTimer.None?)
    }

    /** The event matches the node's rules and oversteer entries. */
    predicate Fits(ev: BlindEvent)
    {
      |ev.outs| == |rules| && (forall i :: 0 <= i < |rules| ==> |ev.outs[i]| == |rules[i].joins|)
      && |ev.times| == |rules| && |ev.props| == |rules| && |ev.hits| == |oversteerPos|
    }

    /** The rules with the conditions prepareRules computes for the event. */
    function EnvOf(ev: BlindEvent): (env: Env)
      requires Fits(ev)
      ensures env.rules == rules && env.times == ev.times && env.now == ev.now && env.WellSized()
      ensures forall i :: 0 <= i < |rules| ==> env.conds[i] == BlindCondition(rules[i].joins, ev.outs[i])
    {
      Env(rules, BlindRules.Conditions(rules, ev.outs), ev.times, ev.now)
    }

    /** What calcBlindSunPosition reads: the node's settings, mode and previous level, the
        first oversteer entry that holds, the sun, and the level `current0` it starts from. */
    function SunInputFor(ev: BlindEvent, changeAgain0: int, current0: LevelPair): SunInput
      reads this`mode, this`previous
      requires |ev.hits| == |oversteerPos|
    {
      var k := FirstHit(ev.hits);
      SunInput(mode, minAltitude, minDelta, levelMin, levelMax, smoothTime, changeAgain0, ev.now.ts,
               oversteerActive, if k.Some? then Some(oversteerPos[k.value]) else None,
               previous, current0, ev.sun, window)
    }

    /** The node's start-up: the level range (swapped, and the blind marked reversed, when
        the open position is below the closed one), the default, minimum and maximum
        levels, the window's azimuths normalised, the oversteer levels and the rules. */
    constructor(cfg: BlindConfig)
      requires cfg.increment > 0
      ensures Valid()
      ensures c.levelReverse <==> cfg.openPos < cfg.closedPos
      ensures c.levelTop == (if cfg.openPos < cfg.closedPos then cfg.closedPos else cfg.openPos)
      ensures c.levelBottom == (if cfg.openPos < cfg.closedPos then cfg.openPos else cfg.closedPos)
      ensures levelDefault == BlindPosFromTI(c, cfg.defaultPos, cfg.defaultProp, N(c.levelTop))
      ensures levelMin == BlindPosFromTI(c, cfg.minPos, cfg.minProp, N(c.levelBottom))
      ensures levelMax == BlindPosFromTI(c, cfg.maxPos, cfg.maxProp, N(c.levelTop))
      ensures smoothTime == SmoothTime(cfg.smoothTime)
      ensures autoTrigger == (if cfg.autoTrigger.None? then None
                              else Some(if cfg.autoTrigger.value == 0 then 3600000 else cfg.autoTrigger.value))
      ensures 0.0 <= window.azimuthStart <= 360.0 && 0.0 <= window.azimuthEnd <= 360.0
      ensures |oversteerPos| == |cfg.oversteer| && (oversteerActive <==> |cfg.oversteer| > 0)
      ensures forall k :: 0 <= k < |cfg.oversteer| ==>
                oversteerPos[k] == BlindPosFromTI(c, cfg.oversteer[k].0, cfg.oversteer[k].1, N(c.levelTop))
      ensures |rules| == |cfg.rules| && forall i :: 0 <= i < |rules| ==> rules[i] == NormaliseBlind(cfg.rules[i])
      ensures IsLastUntil(rules, lastUntil) && IsFirstFrom(rules, firstFrom)
      ensures mode == cfg.sunControlMode && modeMax == cfg.sunControlMode && changeAgain == 0
      ensures current == LevelPair(NaN, NaN) && previous == LevelPair(NaN, NaN)
      ensures code == N(0) && prevCode == N(-1) && usedRule == NaN
      ensures !ov.active && ov.expireDuration == cfg.overwriteExpire
      ensures startDelayPending <==> cfg.autoTrigger.Some? || (cfg.startDelayTime.Finite? && cfg.startDelayTime.v > 9)
    {
      var reverse := cfg.openPos < cfg.closedPos;
      var bd := BlindData(if reverse then cfg.closedPos else cfg.openPos,
                          if reverse then cfg.openPos else cfg.closedPos, cfg.increment, reverse);
      var aStart := AngleNorm(cfg.azimuthStart);
      var aEnd := AngleNorm(cfg.azimuthEnd);
      var pos: seq<Num> := [];
      var k := 0;
      while k < |cfg.oversteer|
        invariant 0 <= k <= |cfg.oversteer| && |pos| == k
        invariant forall j :: 0 <= j < k ==> pos[j] == BlindPosFromTI(bd, cfg.oversteer[j].0, cfg.oversteer[j].1, N(bd.levelTop))
      {
        pos := pos + [BlindPosFromTI(bd, cfg.oversteer[k].0, cfg.oversteer[k].1, N(bd.levelTop))];
        k := k + 1;
      }
      var rs, lu, ff := BlindRules.InitRules(cfg.rules);
      c := bd;
      levelDefault := BlindPosFromTI(bd, cfg.defaultPos, cfg.defaultProp, N(bd.levelTop));
      levelMin := BlindPosFromTI(bd, cfg.minPos, cfg.minProp, N(bd.levelBottom));
      levelMax := BlindPosFromTI(bd, cfg.maxPos, cfg.maxProp, N(bd.levelTop));
      smoothTime := SmoothTime(cfg.smoothTime);
      autoTrigger := if cfg.autoTrigger.None? then None
                     else Some(if cfg.autoTrigger.value == 0 then 3600000 else cfg.autoTrigger.value);
      rules, lastUntil, firstFrom := rs, lu, ff;
      window := SunWindow(aStart, aEnd, cfg.windowTop, cfg.windowBottom);
      minAltitude, minDelta := cfg.minAltitude, cfg.minDelta;
      modeMax, mode, changeAgain := cfg.sunControlMode, cfg.sunControlMode, 0;
      oversteerActive, oversteerPos := |cfg.oversteer| > 0, pos;
      ov := new Overwrite(cfg.overwriteExpire);
      cache := new Cache();
      current, previous := LevelPair(NaN, NaN), LevelPair(NaN, NaN);
      code, prevCode, usedRule := N(0), N(-1), NaN;
      at := Trigger(if cfg.autoTrigger.Some? && cfg.autoTrigger.value != 0 then cfg.autoTrigger.value else 3600000, 0);
      atTimer := None;
      startDelayPending := cfg.autoTrigger.Some? || (cfg.startDelayTime.Finite? && cfg.startDelayTime.v > 9);
    }

    /** setOverwriteReason: while the override is active the reason is 2 or 3 and the
        result true. */
    method SetOverwriteReason() returns (isActive: bool)
      modifies this`code
      ensures isActive == ov.active
      ensures code == (if ov.active then N(ov.ReasonCode().value) else old(code))
    {
      if ov.active {
        code := N(ov.ReasonCode().value);
      }
      isActive := ov.active;
    }

    /** checkBlindPosOverwrite: whether a manual override decides the level. */
    method CheckBlindPosOverwrite(m: BlindMsg, now: int) returns (isActive: bool)
      requires Valid()
      modifies this`current, this`code, ov
      ensures Valid()
      ensures isActive ==> ov.active && code == N(ov.ReasonCode().value)
      ensures !isActive ==> code == old(code) && current == old(current)
      ensures old(ov.Blocks(now, m.importance, m.exactImportance, m.resetOverwrite)) ==>
                isActive && current == old(current) && ov.active && ov.importance == old(ov.importance)
                && ov.expires == old(ov.expires) && ov.expireTs == old(ov.expireTs)
      ensures m.onlyTrigger ==> current == old(current) && (isActive <==> ov.active) && (ov.active ==> old(ov.active))
      ensures !old(ov.Blocks(now, m.importance, m.exactImportance, m.resetOverwrite)) && !m.onlyTrigger && m.position == Some(-1.0) ==>
                isActive && current == LevelPair(NaN, NaN)
      ensures !old(ov.Blocks(now, m.importance, m.exactImportance, m.resetOverwrite)) && !m.onlyTrigger && m.position.Some? && m.position.value != -1.0
              && !ValidPosition(c, m.position, Contains(m.topic, "roundLevel")) ==>
                !isActive && current == old(current)
                && (!old(ov.ResetBy(now, m.importance, m.exactImportance, m.resetOverwrite)) ==>
                      ov.active == old(ov.active) && ov.importance == old(ov.importance)
                      && ov.expires == old(ov.expires) && ov.expireTs == old(ov.expireTs))
      ensures !old(ov.Blocks(now, m.importance, m.exactImportance, m.resetOverwrite)) && !m.onlyTrigger && m.position.Some? && m.position.value != -1.0
              && ValidPosition(c, m.position, Contains(m.topic, "roundLevel"))
              && !(m.ignoreSameValue && previous.level == N(m.position.value.Floor)) ==>
                isActive && current == LevelPair(N(m.position.value.Floor), N(m.position.value.Floor))
                && Aligned(c, current.level.v)
                && (m.importance.Some? && m.importance.value > 0 ==> ov.importance == m.importance.value)
                && (!old(ov.ResetBy(now, m.importance, m.exactImportance, m.resetOverwrite)) && !(m.importance.Some? && m.importance.value > 0) ==> ov.importance == old(ov.importance))
      ensures current != old(current) ==>
                current == LevelPair(NaN, NaN) || (current.level.N? && current.inverse == current.level && Aligned(c, current.level.v))
      ensures current == ManualLevels(c, m, old(ov.Blocks(now, m.importance, m.exactImportance, m.resetOverwrite)), old(current), previous)
      ensures isActive <==> ov.active && !InvalidLevel(c, m, old(ov.Blocks(now, m.importance, m.exactImportance, m.resetOverwrite)))
      ensures m.position.None? ==> (ov.active ==> old(ov.active))
      ensures var e := if Contains(m.topic, "noExpir") then Finite(-1) else m.expire;
              (!old(ov.Blocks(now, m.importance, m.exactImportance, m.resetOverwrite))
               && !old(ov.ResetBy(now, m.importance, m.exactImportance, m.resetOverwrite))
               && old(ov.active) && !m.onlyTrigger && m.position.None?) ==>
                isActive
                && (e.Finite? ==> ov.expires == (e.v > 0) && (ov.expires ==> ov.expireTs == Some(now + e.v)))
                && (!e.Finite? ==> ov.expires == old(ov.expires) && ov.expireTs == old(ov.expireTs))
                && ov.importance == (if m.importance.Some? && m.importance.value > 0 then m.importance.value else old(ov.importance))
    {
      var significant, nImportance := ov.CheckImportance(now, m.importance, m.exactImportance, m.resetOverwrite);
      if ov.active && ov.importance > 0 && !significant {
        isActive := SetOverwriteReason();
        return;
      }
      var nExpire := if Contains(m.topic, "noExpir") then Finite(-1) else m.expire;
      if !m.onlyTrigger && ov.active && m.position.None? {
        ov.Refresh(now, nExpire, nImportance);
      } else if !m.onlyTrigger && m.position.Some? {
        var outcome := SetManualLevel(m, now, nExpire, nImportance);
        if outcome == Invalid {
          return false;
        }
      }
      isActive := SetOverwriteReason();
    }

    /** The manual level of a message that gives one: -1 forgets the level; a valid level
        (rounded to the increment when the topic asks for it) becomes the level and its
        inverse, unless the message ignores a repeat of the previous level. A level that is
        set engages the override; otherwise nothing changes. */
    method SetManualLevel(m: BlindMsg, now: int, nExpire: MsgNumber, nImportance: int) returns (outcome: ManualOutcome)
      requires Valid() && m.position.Some?
      modifies this`current, ov
      ensures Valid()
      ensures outcome == Invalid <==> m.position.value != -1.0 && !ValidPosition(c, m.position, Contains(m.topic, "roundLevel"))
      ensures m.position.value == -1.0 ==> outcome == Engaged && current == LevelPair(NaN, NaN)
      ensures m.position.value != -1.0 && ValidPosition(c, m.position, Contains(m.topic, "roundLevel")) ==>
                outcome == (if m.ignoreSameValue && previous.level == N(m.position.value.Floor) then Repeated else Engaged)
      ensures outcome == Engaged && m.position.value != -1.0 ==>
                current == LevelPair(N(m.position.value.Floor), N(m.position.value.Floor)) && Aligned(c, current.level.v)
      ensures outcome == Engaged ==>
                ov.active && ov.importance == (if nImportance > 0 then nImportance else old(ov.importance))
      ensures outcome != Engaged ==>
                current == old(current) && ov.active == old(ov.active) && ov.importance == old(ov.importance)
                && ov.expires == old(ov.expires) && ov.expireTs == old(ov.expireTs)
    {
      var newPos := m.position.value;
      if newPos == -1.0 {
        current := LevelPair(NaN, NaN);
      } else {
        var allowRound := Contains(m.topic, "roundLevel");
        if !ValidPosition(c, m.position, allowRound) {
          return Invalid;
        }
        ValidPositionIff(c, m.position, allowRound);
        var level := newPos.Floor;
        if allowRound {
          PosRoundKeepsAligned(c, level);
          level := PosRound(c, newPos);
        }
        if m.ignoreSameValue && previous.level == N(level) {
          return Repeated;
        }
        current := LevelPair(N(level), N(level));
      }
      ov.Engage(now, nExpire, nImportance, m.exactImportance);
      outcome := Engaged;
    }

    /** checkRules and its effect on the node: the rule's (or the default) level with its
        inverse, reason 4 (or 1), and the auto trigger; nothing changes when a rule time
        throws. */
    method ApplyRules(ev: BlindEvent) returns (r: BlindRules.RuleResult)
      requires Valid() && Fits(ev)
      modifies this`current, this`code, this`at
      ensures Valid()
      ensures r.RulesAborted? ==>
                current == old(current) && code == old(code) && at == old(at)
                && exists j :: 0 <= j < |rules| && EnvOf(ev).Raises(j)
      ensures r.RulesAborted? <==> BlindRules.Aborts(EnvOf(ev), autoTrigger.Some?, old(at))
      ensures r.RuleResult? ==>
                BlindRules.Outcome(c, EnvOf(ev), ev.props, levelDefault, autoTrigger.Some?, old(at), r)
                && current == RuleLevels(c, r) && code == N(r.code) && at == r.trigger && at.time <= old(at.time)
    {
      var conds := BlindRules.PrepareRules(rules, ev.outs);
      var env := Env(rules, conds, ev.times, ev.now);
      assert env == EnvOf(ev);
      r := BlindRules.CheckRules(c, env, ev.props, levelDefault, autoTrigger.Some?, at);
      if r.RulesAborted? {
        return;
      }
      current := RuleLevels(c, r);
      code := N(r.code);
      at := r.trigger;
    }

    /** calcBlindSunPosition, together with the auto-trigger update of getSunPosition_. */
    method CalcBlindSunPosition(ev: BlindEvent)
      requires Valid() && |ev.hits| == |oversteerPos|
      modifies this`current, this`code, this`changeAgain, this`at
      ensures Valid()
      ensures var o := SunControl(c, SunInputFor(ev, old(changeAgain), old(current)));
              current == o.levels && code == N(o.code) && changeAgain == o.changeAgain
      ensures at == (if autoTrigger.Some? then SunTrigger(old(at), ev.sun, minAltitude, window, smoothTime) else old(at))
    {
      if autoTrigger.Some? {
        at := SunTrigger(at, ev.sun, minAltitude, window, smoothTime);
      }
      var o := SunControl(c, SunInputFor(ev, changeAgain, current));
      current, code, changeAgain := o.levels, N(o.code), o.changeAgain;
    }

    /** The start of the input handler: the warnings of the last message are forgotten,
        the level and reason kept as previous ones when the level is known, the reason
        cleared, the auto trigger set back to its default, and a valid requested mode
        taken. */
    method StartInput(ev: BlindEvent)
      requires Valid()
      modifies cache, this`previous, this`prevCode, this`code, this`at, this`mode
      ensures Valid()
      ensures previous == (if old(current.level).N? then old(current) else old(previous))
      ensures prevCode == (if old(current.level).N? then old(code) else old(prevCode))
      ensures code == NaN
      ensures at == (if autoTrigger.Some? then Trigger(autoTrigger.value, 0) else old(at))
      ensures cache.nowarn == {} && cache.data == old(cache.data)
      ensures mode == (if ev.msg.mode.Finite? && 0 <= ev.msg.mode.v <= modeMax then ev.msg.mode.v else old(mode))
    {
      cache.StartMessage();
      if current.level.N? {
        previous, prevCode := current, code;
      }
      code := NaN;
      if autoTrigger.Some? {
        at := Trigger(autoTrigger.value, 0);
      }
      if ev.msg.mode.Finite? && 0 <= ev.msg.mode.v <= modeMax {
        mode := ev.msg.mode.v;
      }
    }

    /** The level decision of the input handler: the override, or else the rules. */
    method Decide(ev: BlindEvent) returns (d: Decision)
      requires Valid() && Fits(ev)
      modifies this`current, this`code, this`at, this`changeAgain, ov
      ensures Valid()
      ensures at.time <= old(at.time)
      ensures d.ByOverride? ==> ov.active && code == N(ov.ReasonCode().value)
      ensures d.ByOverride? ==>
                current == ManualLevels(c, ev.msg, old(ov.Blocks(ev.now.ts, ev.msg.importance, ev.msg.exactImportance, ev.msg.resetOverwrite)),
                                        old(current), previous)
      ensures !d.ByOverride? ==> (d.DecisionAborted? <==> BlindRules.Aborts(EnvOf(ev), autoTrigger.Some?, old(at)))
      ensures d.ByOverride? <==> ov.active && !InvalidLevel(c, ev.msg, old(ov.Blocks(ev.now.ts, ev.msg.importance, ev.msg.exactImportance, ev.msg.resetOverwrite)))
      ensures d.DecisionAborted? ==>
                current == old(current) && code == old(code) && at == old(at) && changeAgain == old(changeAgain)
                && exists j :: 0 <= j < |rules| && EnvOf(ev).Raises(j)
      ensures d.ByRules? ==>
                d.rule.RuleResult? && d.rule.trigger.Trigger?
                && BlindRules.Outcome(c, EnvOf(ev), ev.props, levelDefault, autoTrigger.Some?, old(at), d.rule)
      ensures d.ByRules? ==>
                var sun := SunInputFor(ev, old(changeAgain), RuleLevels(c, d.rule));
                LevelState(current, code) == Decided(c, d.rule, sun)
                && changeAgain == (if SunRuns(d.rule, mode) then SunControl(c, sun).changeAgain else old(changeAgain))
                && at == (if SunRuns(d.rule, mode) && autoTrigger.Some?
                          then SunTrigger(d.rule.trigger, ev.sun, minAltitude, window, smoothTime) else d.rule.trigger)
      ensures ev.msg.onlyTrigger && !old(ov.active) ==> !ov.active
    {
      var overridden := CheckBlindPosOverwrite(ev.msg, ev.now.ts);
      if overridden {
        return ByOverride;
      }
      var r := DecideByRules(ev);
      d := if r.RulesAborted? then DecisionAborted else ByRules(r);
    }

    /** The rules, the sun control when no rule sets an active level and a sun mode is on,
        and the rule and range limits; nothing changes when a rule time throws. */
    method DecideByRules(ev: BlindEvent) returns (r: BlindRules.RuleResult)
      requires Valid() && Fits(ev)
      modifies this`current, this`code, this`at, this`changeAgain
      ensures Valid()
      ensures at.time <= old(at.time)
      ensures r.RulesAborted? ==>
                current == old(current) && code == old(code) && at == old(at) && changeAgain == old(changeAgain)
                && exists j :: 0 <= j < |rules| && EnvOf(ev).Raises(j)
      ensures r.RulesAborted? <==> BlindRules.Aborts(EnvOf(ev), autoTrigger.Some?, old(at))
      ensures r.RuleResult? ==>
                r.trigger.Trigger? && BlindRules.Outcome(c, EnvOf(ev), ev.props, levelDefault, autoTrigger.Some?, old(at), r)
      ensures r.RuleResult? ==>
                var sun := SunInputFor(ev, old(changeAgain), RuleLevels(c, r));
                LevelState(current, code) == Decided(c, r, sun)
                && changeAgain == (if SunRuns(r, mode) then SunControl(c, sun).changeAgain else old(changeAgain))
                && at == (if SunRuns(r, mode) && autoTrigger.Some?
                          then SunTrigger(r.trigger, ev.sun, minAltitude, window, smoothTime) else r.trigger)
    {
      r := ApplyRules(ev);
      if r.RulesAborted? {
        return;
      }
      if SunRuns(r, mode) {
        CalcBlindSunPosition(ev);
      }
      var st := RuleLimit(c, LevelState(current, code), r.levelMinimum, r.levelMaximum);
      current, code := RangeLimit(c, st.levels), st.code;
    }

    /** The input handler. An exception (a rule time that throws) ends it without a
        message, without recording the rule and without re-arming the auto trigger. When
        the rules decide, the level is the one Decided gives for the rules' result, starting
        from the configured auto-trigger time; an input that leaves the level, the reason and
        the rule as they were sends nothing. */
    method Input(ev: BlindEvent) returns (res: BlindOutput)
      requires Valid() && Fits(ev)
      modifies this, ov, cache
      ensures Valid()
      ensures previous == (if old(current.level).N? then old(current) else old(previous))
      ensures prevCode == (if old(current.level).N? then old(code) else old(prevCode))
      ensures cache.nowarn == {} && cache.data == old(cache.data)
      ensures mode == (if ev.msg.mode.Finite? && 0 <= ev.msg.mode.v <= modeMax then ev.msg.mode.v else old(mode))
      ensures startDelayPending == old(startDelayPending)
      ensures res.Aborted? ==>
                usedRule == old(usedRule) && atTimer == old(atTimer) && current == old(current)
                && exists j :: 0 <= j < |rules| && EnvOf(ev).Raises(j)
      ensures res.Aborted? ==>
                BlindRules.Aborts(EnvOf(ev), autoTrigger.Some?, if autoTrigger.Some? then Trigger(autoTrigger.value, 0) else old(at))
      ensures res.Output? && !res.overridden ==>
                !BlindRules.Aborts(EnvOf(ev), autoTrigger.Some?, if autoTrigger.Some? then Trigger(autoTrigger.value, 0) else old(at))
      ensures res.Output? ==>
                usedRule == N(res.ruleId)
                && atTimer == (if autoTrigger.Some? then Some(at.time) else None)
                && res.code == code
                && res.level == Payload(c.levelReverse, current, previous)
                && res.inverse == Payload(!c.levelReverse, current, previous)
                && res.emitted == Emits(current.level, code, res.ruleId, previous.level, prevCode, old(usedRule))
      ensures res.Output? && res.overridden ==> res.ruleId == -1 && ov.active
      ensures (res.Output? && res.overridden) <==> ov.active && !InvalidLevel(c, ev.msg, old(ov.Blocks(ev.now.ts, ev.msg.importance, ev.msg.exactImportance, ev.msg.resetOverwrite)))
      ensures res.Output? && res.overridden ==>
                current == ManualLevels(c, ev.msg, old(ov.Blocks(ev.now.ts, ev.msg.importance, ev.msg.exactImportance, ev.msg.resetOverwrite)),
                                        old(current), previous)
      ensures res.Output? && res.overridden && !startDelayPending ==> code == N(ov.ReasonCode().value)
      ensures res.Output? && !res.overridden ==>
                exists r: BlindRules.RuleResult ::
                  r.RuleResult? && r.id == res.ruleId
                  && BlindRules.Outcome(c, EnvOf(ev), ev.props, levelDefault, autoTrigger.Some?,
                                        if autoTrigger.Some? then Trigger(autoTrigger.value, 0) else old(at), r)
                  && current == Decided(c, r, SunInputFor(ev, old(changeAgain), RuleLevels(c, r))).levels
                  && (startDelayPending || code == Decided(c, r, SunInputFor(ev, old(changeAgain), RuleLevels(c, r))).code)
      ensures res.Output? && startDelayPending ==> code == NaN && !res.emitted
      ensures (res.Output? && old(current.level).N? && current == old(current) && code == old(code)
               && N(res.ruleId) == old(usedRule)) ==> !res.emitted
      ensures autoTrigger.Some? ==> at.time <= autoTrigger.value
      ensures ev.msg.onlyTrigger && !old(ov.active) ==> !ov.active
    {
      StartInput(ev);
      res := Handle(ev);
    }

    /** The input handler after its start: the level decision and the end. */
    method Handle(ev: BlindEvent) returns (res: BlindOutput)
      requires Valid() && Fits(ev)
      modifies this`current, this`code, this`at, this`changeAgain, this`usedRule, this`atTimer, ov
      ensures Valid()
      ensures at.time <= old(at.time)
      ensures res.Aborted? ==>
                usedRule == old(usedRule) && atTimer == old(atTimer) && current == old(current)
                && exists j :: 0 <= j < |rules| && EnvOf(ev).Raises(j)
      ensures res.Aborted? ==> BlindRules.Aborts(EnvOf(ev), autoTrigger.Some?, old(at))
      ensures res.Output? && !res.overridden ==> !BlindRules.Aborts(EnvOf(ev), autoTrigger.Some?, old(at))
      ensures res.Output? ==>
                usedRule == N(res.ruleId)
                && atTimer == (if autoTrigger.Some? then Some(at.time) else None)
                && res.code == code
                && res.level == Payload(c.levelReverse, current, previous)
                && res.inverse == Payload(!c.levelReverse, current, previous)
                && res.emitted == Emits(current.level, code, res.ruleId, previous.level, prevCode, old(usedRule))
      ensures res.Output? && res.overridden ==> res.ruleId == -1 && ov.active
      ensures (res.Output? && res.overridden) <==> ov.active && !InvalidLevel(c, ev.msg, old(ov.Blocks(ev.now.ts, ev.msg.importance, ev.msg.exactImportance, ev.msg.resetOverwrite)))
      ensures res.Output? && res.overridden ==>
                current == ManualLevels(c, ev.msg, old(ov.Blocks(ev.now.ts, ev.msg.importance, ev.msg.exactImportance, ev.msg.resetOverwrite)),
                                        old(current), previous)
      ensures res.Output? && res.overridden && !startDelayPending ==> code == N(ov.ReasonCode().value)
      ensures res.Output? && !res.overridden ==>
                exists r: BlindRules.RuleResult ::
                  r.RuleResult? && r.id == res.ruleId
                  && BlindRules.Outcome(c, EnvOf(ev), ev.props, levelDefault, autoTrigger.Some?, old(at), r)
                  && current == Decided(c, r, SunInputFor(ev, old(changeAgain), RuleLevels(c, r))).levels
                  && (startDelayPending || code == Decided(c, r, SunInputFor(ev, old(changeAgain), RuleLevels(c, r))).code)
      ensures res.Output? && startDelayPending ==> code == NaN && !res.emitted
      ensures ev.msg.onlyTrigger && !old(ov.active) ==> !ov.active
    {
      var d := Decide(ev);
      match d
      case DecisionAborted =>
        return Aborted;
      case ByOverride =>
        res := Finish(-1, true);
      case ByRules(r) =>
        res := Finish(r.id, false);
        assert current == Decided(c, r, SunInputFor(ev, old(changeAgain), RuleLevels(c, r))).levels;
    }

    /** The end of the input handler once the level is decided: the reason is cleared
        while the start delay runs, the node decides whether to send, and the rule is
        recorded and the auto trigger re-armed. */
    method Finish(ruleId: int, overridden: bool) returns (res: BlindOutput)
      requires Valid()
      modifies this`code, this`usedRule, this`atTimer
      ensures Valid()
      ensures code == (if startDelayPending then NaN else old(code))
      ensures usedRule == N(ruleId) && atTimer == (if autoTrigger.Some? then Some(at.time) else None)
      ensures res == Output(Payload(c.levelReverse, current, previous), Payload(!c.levelReverse, current, previous), code, ruleId, overridden,
                            Emits(current.level, code, ruleId, previous.level, prevCode, old(usedRule)))
    {
      var level := Payload(c.levelReverse, current, previous);
      var inverse := Payload(!c.levelReverse, current, previous);
      if startDelayPending {
        code := NaN;
      }
      var emitted := Emits(current.level, code, ruleId, previous.level, prevCode, usedRule);
      usedRule := N(ruleId);
      if autoTrigger.Some? {
        atTimer := Some(at.time);
      }
      res := Output(level, inverse, code, ruleId, overridden, emitted);
    }

    /** The override timer: the override is reset and the node handles the expiry
        message, which only triggers an evaluation. */
    method OnOverwriteExpired(ev: BlindEvent) returns (res: BlindOutput)
      requires Valid() && Fits(ev) && ev.msg == ExpiredMsg()
      modifies this, ov, cache
      ensures Valid() && !ov.active
      ensures res.Output? ==> !res.overridden
    {
      ov.Reset();
      res := Input(ev);
    }

    /** The start-delay timer: the delay ends and the node handles a trigger. */
    method OnStartDelay(ev: BlindEvent) returns (res: BlindOutput)
      requires Valid() && Fits(ev) && ev.msg.onlyTrigger
      modifies this, ov, cache
      ensures Valid() && !startDelayPending
    {
      startDelayPending := false;
      res := Input(ev);
    }
  }
}
