/** The clock timer node: its start-up, the manual override check, and the handling of one
    input message (override, rules, the importance arbitration between them, and the
    decision to send the new payload). As for the blind controller, what the
    configuration node's helpers read or resolve is given with the message. */
module ClockTimerNode {
  import opened Values
  import opened Rules
  import ClockRules
  import opened Overwrites
  import opened TempCache

  /** What the message helpers read out of an input message, and its payload and topic. */
  datatype ClockMsg = ClockMsg(
    importance: Option<int>,
    exactImportance: bool,
    resetOverwrite: bool,
    onlyTrigger: bool,
    payload: Value,
    topic: string,
    expire: MsgNumber)

  /** The message sent when an override expires. */
  function ExpiredMsg(): (m: ClockMsg)
    ensures m.onlyTrigger && m.importance.None? && !m.resetOverwrite && m.payload == Number(-1)
  {
    ClockMsg(None, false, false, true, Number(-1), "internal-triggerOnly-overwriteExpired", NotNumber)
  }

  /** One input message with what the configuration node resolves for it: the condition
      comparisons and times of every rule (as for the blind controller), `outputs[i]` the
      payload rule i produces and `defaultOutput` the default payload. */
  datatype ClockEvent = ClockEvent(
    msg: ClockMsg,
    now: Now,
    outs: seq<seq<bool>>,
    times: seq<RuleTimes>,
    outputs: seq<Value>,
    defaultOutput: Value)

  /** The node's settings as configured. */
  datatype ClockConfig = ClockConfig(
    /** None: no auto trigger; Some(t): the configured time, 0 when unset. */
    autoTrigger: Option<int>,
    overwriteExpire: MsgNumber,
    rules: seq<RawRule>,
    startDelayTime: MsgNumber)

  /** Where the override value of a message comes from: reading it throws (a null
      payload outside a manual topic), there is none, or there is one. */
  datatype OverrideRead = Throws | NoData | Data(v: Value)

  predicate ManualTopic(topic: string)
  {
    Contains(topic, "manual") || Contains(topic, "overwrite")
  }

  /** The override value of a message: its payload when the topic names a manual
      override, or the `value` of an object payload that also gives `expires` or
      `importance`. A trigger-only message and an undefined payload carry none. */
  function OverrideData(m: ClockMsg): (d: OverrideRead)
    ensures m.onlyTrigger || m.payload.Undefined? ==> d.NoData?
    ensures d.Throws? <==> !m.onlyTrigger && m.payload.Null? && !ManualTopic(m.topic)
    ensures d.Data? ==> !d.v.Undefined?
    ensures d.Data? ==>
              !m.onlyTrigger
              && ((ManualTopic(m.topic) && d.v == m.payload)
                  || (!ManualTopic(m.topic) && m.payload.Obj? && d.v == Field(m.payload, "value")
                      && (Truthy(Field(m.payload, "expires")) || Truthy(Field(m.payload, "importance")))))
    ensures !m.onlyTrigger && !m.payload.Undefined? && ManualTopic(m.topic) ==> d == Data(m.payload)
    ensures (!m.onlyTrigger && m.payload.Obj? && Truthy(Field(m.payload, "value"))
             && (Truthy(Field(m.payload, "expires")) || Truthy(Field(m.payload, "importance")))) ==> d.Data?
  {
    if m.onlyTrigger || m.payload.Undefined? then NoData
    else if ManualTopic(m.topic) then Data(m.payload)
    else if m.payload.Null? then Throws
    else if m.payload.Obj? && Truthy(Field(m.payload, "value"))
            && (Truthy(Field(m.payload, "expires")) || Truthy(Field(m.payload, "importance"))) then
      Data(Field(m.payload, "value"))
    else NoData
  }

  /** The expiry a message asks for: -1 (none) when its topic says `noExpir`. */
  function Expire(m: ClockMsg): (e: MsgNumber)
    ensures Contains(m.topic, "noExpir") ==> e == Finite(-1)
    ensures !Contains(m.topic, "noExpir") ==> e == m.expire
  {
    if Contains(m.topic, "noExpir") then Finite(-1) else m.expire
  }

  /** A string, boolean or number, which `previousData.payloadValue` remembers. */
  predicate Simple(v: Value)
  {
    v.Str? || v.Bool? || v.Number?
  }

  /** Whether the node sends: a payload that is neither undefined, null nor 'none', a
      known reason, and a change of reason, rule, payload type or remembered value. */
  predicate Emits(current: Value, code: Num, ruleId: int, prevCode: Num, usedRule: Num,
                  prevType: JsType, prevValue: Value)
  {
    !current.Undefined? && current != Str("none") && !current.Null? && code.N?
    && (code != prevCode || N(ruleId) != usedRule || TypeOf(current) != prevType
        || (!prevValue.Undefined? && prevValue != current))
  }

  /** The rules are consulted when no override holds, a rule can reset overrides, or a
      rule is more important than the override. */
  predicate ConsultsRules(overwrite: bool, canReset: bool, maxImportance: int, ovImportance: int)
  {
    !overwrite || canReset || (maxImportance > 0 && maxImportance > ovImportance)
  }

  /** A consulted rule resets the override only when it asks to and was not already the
      rule of the last input. */
  predicate RuleResets(overwrite: bool, r: ClockRules.RuleResult, usedRule: Num)
    requires r.RuleResult?
  {
    overwrite && r.resetOverwrite && N(r.id) != usedRule
  }

  /** Only a rule with a strictly larger importance overrides a remaining override. */
  predicate RuleApplies(overwrite: bool, r: ClockRules.RuleResult, ovImportance: int)
    requires r.RuleResult?
  {
    !overwrite || r.importance > ovImportance
  }

  /** What arbitration did with the rules: they were not consulted, a rule time threw, or
      the rule result, whether it reset the override, and whether it was applied. */
  datatype Arbitration =
    | Skipped
    | ArbitrationAborted
    | Consulted(rule: ClockRules.RuleResult, reset: bool, applied: bool)

  /** How the payload of an input was decided: an exception ended the handler, the
      override kept it, or the rules (with `rule` the result of checkRules) set it. */
  datatype Decision = DecisionAborted | ByOverride | ByRule(rule: ClockRules.RuleResult)

  /** The result of one input: nothing when an exception ended the handler, otherwise the
      payload, the reason code, the rule id (-2: the override decided) and whether a
      message goes out. */
  datatype ClockOutput =
    | Aborted
    | Output(payload: Value, code: Num, ruleId: int, emitted: bool)

  class ClockTimer {
    const rules: seq<Rule>
    const lastUntil: int
    const firstFrom: int
    const firstTimeLimited: int
    const maxImportance: int
    const canResetOverwrite: bool
    /** The default auto-trigger time; None when the node has no auto trigger. */
    const autoTrigger: Option<int>
    const ov: Overwrite
    const cache: Cache

    /** `node.payload.current`. */
    var current: Value
    /** `node.reason.code`. */
    var code: Num
    /** `node.previousData`: the reason code, the payload type and the last simple payload
        of the previous input, and its rule. */
    var prevCode: Num
    var prevType: JsType
    var prevValue: Value
    var usedRule: Num
    var at: Trigger
    var atTimer: Option<int>
    var startDelayPending: bool

    predicate Valid()
      reads this, ov, cache
    {
      ov.Valid() && cache.Valid() && at.Trigger? && (autoTrigger.None? ==> atTimer.None?)
      && IsLastUntil(rules, lastUntil) && IsFirstFrom(rules, firstFrom)
      && 0 <= firstTimeLimited <= |rules| && ClockRules.IsMaxImportance(rules, |rules|, maxImportance)
      && (canResetOverwrite <==> exists j :: 0 <= j < |rules| && rules[j].resetOverwrite)
    }

    /** The event matches the node's rules. */
    predicate Fits(ev: ClockEvent)
    {
      |ev.outs| == |rules| && (forall i :: 0 <= i < |rules| ==> |ev.outs[i]| == |rules[i].joins|)
      && |ev.times| == |rules| && |ev.outputs| == |rules|
    }

    /** The rules with the conditions prepareRules computes for the event. */
    function EnvOf(ev: ClockEvent): (env: Env)
      requires Fits(ev)
      ensures env.rules == rules && env.times == ev.times && env.now == ev.now && env.WellSized()
      ensures forall i :: 0 <= i < |rules| ==> env.conds[i] == ClockCondition(rules[i].joins, ev.outs[i])
    {
      Env(rules, ClockRules.Conditions(rules, ev.outs), ev.times, ev.now)
    }

    /** The payload of rule `id` (its position from 1), or the default payload for -1. */
    function PayloadOf(ev: ClockEvent, id: int): Value
      requires Fits(ev) && -1 <= id <= |rules| && id != 0
    {
      if id > 0 then ev.outputs[id - 1] else ev.defaultOutput
    }

    /** The payload an input kept by the override carries: the override value the message
        gives, unless the override blocked it, and the payload so far otherwise. */
    function OverridePayload(m: ClockMsg, blocked: bool, current0: Value): Value
    {
      if !blocked && OverrideData(m).Data? then OverrideData(m).v else current0
    }

    /** checkPosOverwrite throws: no more important override holds the message off, and
        reading the override value it gives throws. */
    predicate OverrideThrows(m: ClockMsg, now: int)
      reads ov
    {
      !ov.Blocks(now, m.importance, m.exactImportance, m.resetOverwrite) && OverrideData(m).Throws?
    }

    /** checkRules throws for the event, the auto trigger so far being `at0`. */
    predicate RulesAbort(ev: ClockEvent, at0: Trigger)
      requires Fits(ev) && at0.Trigger? && IsLastUntil(rules, lastUntil) && IsFirstFrom(rules, firstFrom)
      requires 0 <= firstTimeLimited <= |rules|
    {
      ClockRules.Aborts(EnvOf(ev), lastUntil, firstFrom, firstTimeLimited, autoTrigger.Some?, at0)
    }

    /** The rule checkRules selects for the event (the auto trigger so far being `at0`) is
        more important than an override of importance `importance`. */
    ghost predicate RuleOutranks(ev: ClockEvent, at0: Trigger, importance: int)
      requires Fits(ev) && at0.Trigger? && IsLastUntil(rules, lastUntil) && IsFirstFrom(rules, firstFrom)
      requires 0 <= firstTimeLimited <= |rules|
    {
      exists r: ClockRules.RuleResult ::
        r.RuleResult? && ClockRules.Outcome(EnvOf(ev), lastUntil, firstFrom, firstTimeLimited, autoTrigger.Some?, at0, r)
        && r.importance > importance
    }

    /** The rule checkRules selects for the event ends an active override of importance
        `importance`, the previous rule being `usedRule0`: it resets the override or
        outranks it. */
    ghost predicate RuleOverrides(ev: ClockEvent, at0: Trigger, usedRule0: Num, importance: int)
      requires Fits(ev) && at0.Trigger? && IsLastUntil(rules, lastUntil) && IsFirstFrom(rules, firstFrom)
      requires 0 <= firstTimeLimited <= |rules|
    {
      exists r: ClockRules.RuleResult ::
        r.RuleResult? && ClockRules.Outcome(EnvOf(ev), lastUntil, firstFrom, firstTimeLimited, autoTrigger.Some?, at0, r)
        && (RuleResets(true, r, usedRule0) || r.importance > importance)
    }

    /** When the override skips the rules, no rule can reset or outrank it. */
    lemma SkippedRulesKeepOverride(ev: ClockEvent, at0: Trigger, usedRule0: Num, importance: int)
      requires Valid() && Fits(ev) && at0.Trigger? && importance >= 0
      requires !ConsultsRules(true, canResetOverwrite, maxImportance, importance)
      ensures !RuleOutranks(ev, at0, importance) && !RuleOverrides(ev, at0, usedRule0, importance)
    {
      var env := EnvOf(ev);
      forall r: ClockRules.RuleResult |
        r.RuleResult? && ClockRules.Outcome(env, lastUntil, firstFrom, firstTimeLimited, autoTrigger.Some?, at0, r)
        ensures r.importance <= importance && !r.resetOverwrite
      {
        ClockRules.OutcomeImportanceBound(env, lastUntil, firstFrom, firstTimeLimited, autoTrigger.Some?, at0, r, maxImportance);
        if r.id > 0 {
          assert r.resetOverwrite == rules[r.id - 1].resetOverwrite;
        }
      }
    }

    /** Once checkRules has selected `r`, whether some rule resets or outranks the
        override is decided by `r` alone. */
    lemma SelectedRuleDecides(ev: ClockEvent, at0: Trigger, usedRule0: Num, importance: int, r: ClockRules.RuleResult)
      requires Valid() && Fits(ev) && at0.Trigger? && r.RuleResult?
      requires ClockRules.Outcome(EnvOf(ev), lastUntil, firstFrom, firstTimeLimited, autoTrigger.Some?, at0, r)
      ensures RuleOutranks(ev, at0, importance) <==> r.importance > importance
      ensures RuleOverrides(ev, at0, usedRule0, importance) <==> RuleResets(true, r, usedRule0) || r.importance > importance
    {
      var env := EnvOf(ev);
      forall r': ClockRules.RuleResult |
        r'.RuleResult? && ClockRules.Outcome(env, lastUntil, firstFrom, firstTimeLimited, autoTrigger.Some?, at0, r')
        ensures r' == r
      {
        ClockRules.OutcomeUnique(env, lastUntil, firstFrom, firstTimeLimited, autoTrigger.Some?, at0, r', r);
      }
    }

    /** The node's start-up: the rules normalised and the rule indexes, the largest
        importance and the reset flag computed. */
    constructor(cfg: ClockConfig)
      ensures Valid()
      ensures |rules| == |cfg.rules| && forall i :: 0 <= i < |rules| ==> rules[i] == NormaliseClock(cfg.rules[i])
      ensures ClockRules.FirstLimitedBelow(rules, |rules|, firstTimeLimited, |rules|)
      ensures ClockRules.IsMaxImportance(rules, |rules|, maxImportance)
      ensures canResetOverwrite <==> exists j :: 0 <= j < |rules| && rules[j].resetOverwrite
      ensures autoTrigger == (if cfg.autoTrigger.None? then None
                              else Some(if cfg.autoTrigger.value == 0 then 1200000 else cfg.autoTrigger.value))
      ensures current == Undefined && code == N(0) && prevCode == N(-1) && usedRule == NaN
      ensures !ov.active && ov.expireDuration == cfg.overwriteExpire
      ensures startDelayPending <==> cfg.autoTrigger.Some? || (cfg.startDelayTime.Finite? && cfg.startDelayTime.v > 9)
    {
      var rs, lu, ff, ftl, mi, cr := ClockRules.InitRules(cfg.rules);
      rules, lastUntil, firstFrom, firstTimeLimited, maxImportance, canResetOverwrite := rs, lu, ff, ftl, mi, cr;
      var t := if cfg.autoTrigger.Some? && cfg.autoTrigger.value != 0 then cfg.autoTrigger.value else 1200000;
      autoTrigger := if cfg.autoTrigger.None? then None else Some(t);
      ov := new Overwrite(cfg.overwriteExpire);
      cache := new Cache();
      current, code, prevCode, prevType, prevValue, usedRule := Undefined, N(0), N(-1), TUndefined, Undefined, NaN;
      at, atTimer := Trigger(t, 0), None;
      startDelayPending := cfg.autoTrigger.Some? || (cfg.startDelayTime.Finite? && cfg.startDelayTime.v > 9);
    }

    /** setOverwriteReason. */
    method SetOverwriteReason() returns (isActive: bool)
      modifies this`code
      ensures isActive == ov.active
      ensures code == (if ov.active then N(ov.ReasonCode().value) else old(code))
    {
      if ov.active {
        code := N(ov.ReasonCode().value);
      }
      isActive := ov.active;
    }

    /** checkPosOverwrite: whether a manual override decides the payload; None when reading
        the override value throws. */
    method CheckPosOverwrite(m: ClockMsg, now: int) returns (r: Option<bool>)
      requires Valid()
      modifies this`current, this`code, ov
      ensures Valid()
      ensures r.Some? ==> (r.value <==> ov.active)
      ensures r == Some(true) ==> code == N(ov.ReasonCode().value)
      ensures r != Some(true) ==> code == old(code)
      ensures r.None? <==> !old(ov.Blocks(now, m.importance, m.exactImportance, m.resetOverwrite)) && OverrideData(m).Throws?
      ensures old(ov.Blocks(now, m.importance, m.exactImportance, m.resetOverwrite)) ==>
                r == Some(true) && current == old(current) && ov.importance == old(ov.importance)
                && ov.expires == old(ov.expires) && ov.expireTs == old(ov.expireTs)
      ensures !OverrideData(m).Data? || old(ov.Blocks(now, m.importance, m.exactImportance, m.resetOverwrite)) ==>
                current == old(current)
      ensures m.onlyTrigger ==> r.Some? && (ov.active ==> old(ov.active))
      ensures !OverrideData(m).Data? ==> (ov.active ==> old(ov.active))
      ensures !old(ov.Blocks(now, m.importance, m.exactImportance, m.resetOverwrite)) && OverrideData(m).Data? ==>
                r == Some(true) && current == OverrideData(m).v
      ensures var p := m.importance;
              !old(ov.Blocks(now, p, m.exactImportance, m.resetOverwrite)) && !old(ov.ResetBy(now, p, m.exactImportance, m.resetOverwrite))
              && old(ov.active) && OverrideData(m).NoData? ==>
                r == Some(true)
                && (Expire(m).Finite? ==> ov.expires == (Expire(m).v > 0) && (ov.expires ==> ov.expireTs == Some(now + Expire(m).v)))
                && (!Expire(m).Finite? ==> ov.expires == old(ov.expires) && ov.expireTs == old(ov.expireTs))
                && ov.importance == (if p.Some? && p.value > 0 then p.value else old(ov.importance))
    {
      var significant, nImportance := ov.CheckImportance(now, m.importance, m.exactImportance, m.resetOverwrite);
      if ov.active && ov.importance > 0 && !significant {
        var b := SetOverwriteReason();
        return Some(b);
      }
      var data := OverrideData(m);
      if data.Throws? {
        return None;
      }
      var nExpire := Expire(m);
      if data.NoData? && ov.active {
        ov.Refresh(now, nExpire, nImportance);
      } else if data.Data? {
        current := data.v;
        ov.Engage(now, nExpire, nImportance, m.exactImportance);
      }
      var b := SetOverwriteReason();
      r := Some(b);
    }

    /** The start of the input handler: warnings forgotten, the reason and payload type
        kept as previous ones (and a simple payload as the previous value), the reason
        cleared and the auto trigger set back to its default. */
    method StartInput()
      requires Valid()
      modifies cache, this`prevType, this`prevCode, this`prevValue, this`code, this`at
      ensures Valid()
      ensures prevType == TypeOf(current) && prevCode == old(code)
      ensures prevValue == (if Simple(current) then current else old(prevValue))
      ensures code == NaN
      ensures at == (if autoTrigger.Some? then Trigger(autoTrigger.value, 0) else old(at))
      ensures cache.nowarn == {} && cache.data == old(cache.data)
    {
      cache.StartMessage();
      prevType, prevCode := TypeOf(current), code;
      if Simple(current) {
        prevValue := current;
      }
      code := NaN;
      if autoTrigger.Some? {
        at := Trigger(autoTrigger.value, 0);
      }
    }

    /** checkRules with the auto trigger it leaves behind; the auto trigger is kept when a
        rule time throws. */
    method EvaluateRules(ev: ClockEvent) returns (r: ClockRules.RuleResult)
      requires Valid() && Fits(ev)
      modifies this`at
      ensures Valid()
      ensures r.RuleResult? ==>
                r.trigger.Trigger? && at == r.trigger && at.time <= old(at.time)
                && ClockRules.Outcome(EnvOf(ev), lastUntil, firstFrom, firstTimeLimited, autoTrigger.Some?, old(at), r)
      ensures r.RulesAborted? ==> at == old(at) && exists j :: 0 <= j < |rules| && EnvOf(ev).Raises(j)
      ensures r.RulesAborted? <==> RulesAbort(ev, old(at))
    {
      var conds := ClockRules.PrepareRules(rules, ev.outs);
      var env := Env(rules, conds, ev.times, ev.now);
      assert env == EnvOf(ev);
      r := ClockRules.CheckRules(env, lastUntil, firstFrom, firstTimeLimited, autoTrigger.Some?, at);
      if r.RuleResult? {
        at := r.trigger;
      }
    }

    /** The arbitration between the override (`overwrite`: checkPosOverwrite's answer) and
        the rules. */
    method Arbitrate(ev: ClockEvent, overwrite: bool) returns (a: Arbitration)
      requires Valid() && Fits(ev) && (overwrite ==> ov.active)
      modifies this`current, this`code, this`at, ov
      ensures Valid()
      ensures a.Skipped? <==> !ConsultsRules(overwrite, canResetOverwrite, maxImportance, old(ov.importance))
      ensures a.Consulted? ==>
                a.rule.RuleResult? && at == a.rule.trigger
                && ClockRules.Outcome(EnvOf(ev), lastUntil, firstFrom, firstTimeLimited, autoTrigger.Some?, old(at), a.rule)
      ensures a.ArbitrationAborted? ==> exists j :: 0 <= j < |rules| && EnvOf(ev).Raises(j)
      ensures a.ArbitrationAborted? <==>
                ConsultsRules(overwrite, canResetOverwrite, maxImportance, old(ov.importance))
                && RulesAbort(ev, old(at))
      ensures a.Consulted? ==> a.reset == RuleResets(overwrite, a.rule, usedRule)
      ensures a.Consulted? ==> a.applied == (a.reset || RuleApplies(overwrite, a.rule, old(ov.importance)))
      ensures a.Consulted? && a.reset ==> !ov.active && ov.importance == 0
      ensures !(a.Consulted? && a.reset) ==>
                ov.active == old(ov.active) && ov.importance == old(ov.importance)
                && ov.expires == old(ov.expires) && ov.expireTs == old(ov.expireTs)
      ensures a.Consulted? && a.applied ==> current == PayloadOf(ev, a.rule.id) && code == N(a.rule.code)
      ensures !(a.Consulted? && a.applied) ==> current == old(current) && code == old(code)
      ensures a.Skipped? || a.ArbitrationAborted? ==> at == old(at)
      ensures at.time <= old(at.time)
    {
      if !ConsultsRules(overwrite, canResetOverwrite, maxImportance, ov.importance) {
        return Skipped;
      }
      var r := EvaluateRules(ev);
      if r.RulesAborted? {
        return ArbitrationAborted;
      }
      var reset := RuleResets(overwrite, r, usedRule);
      if reset {
        ov.Reset();
      }
      var applied := reset || RuleApplies(overwrite, r, ov.importance);
      if applied {
        current := PayloadOf(ev, r.id);
        code := N(r.code);
      }
      a := Consulted(r, reset, applied);
    }

    /** The payload decision of the input handler: the override check, then the
        arbitration with the rules. The override keeps the payload (rule id -2) unless a
        rule resets it or outranks it, in which case the rule's payload (or the default)
        is taken. */
    method Decide(ev: ClockEvent) returns (d: Decision)
      requires Valid() && Fits(ev)
      modifies this`current, this`code, this`at, ov
      ensures Valid()
      ensures at.time <= old(at.time)
      ensures d.DecisionAborted? ==>
                old(OverrideThrows(ev.msg, ev.now.ts))
                || exists j :: 0 <= j < |rules| && EnvOf(ev).Raises(j)
      ensures d.DecisionAborted? ==> old(OverrideThrows(ev.msg, ev.now.ts)) || RulesAbort(ev, old(at))
      ensures old(OverrideThrows(ev.msg, ev.now.ts)) ==> d.DecisionAborted?
      ensures d.ByRule? ==> !RulesAbort(ev, old(at))
      ensures d.ByOverride? ==>
                !ConsultsRules(true, canResetOverwrite, maxImportance, ov.importance)
                || !RulesAbort(ev, old(at))
      ensures d.ByOverride? ==>
                ov.active && code == N(ov.ReasonCode().value)
                && current == OverridePayload(ev.msg, old(ov.Blocks(ev.now.ts, ev.msg.importance, ev.msg.exactImportance, ev.msg.resetOverwrite)),
                                              old(current))
      ensures d.ByRule? ==>
                d.rule.RuleResult?
                && ClockRules.Outcome(EnvOf(ev), lastUntil, firstFrom, firstTimeLimited, autoTrigger.Some?, old(at), d.rule)
                && current == PayloadOf(ev, d.rule.id) && code == N(d.rule.code)
      ensures ev.msg.onlyTrigger && !old(ov.active) ==> !ov.active
      ensures !d.DecisionAborted? ==> (d.ByRule? <==> !ov.active || RuleOutranks(ev, old(at), ov.importance))
      ensures !d.DecisionAborted? && old(ov.Blocks(ev.now.ts, ev.msg.importance, ev.msg.exactImportance, ev.msg.resetOverwrite)) ==>
                (d.ByRule? <==> RuleOverrides(ev, old(at), usedRule, old(ov.importance)))
    {
      var overwrite := CheckPosOverwrite(ev.msg, ev.now.ts);
      if overwrite.None? {
        return DecisionAborted;
      }
      ghost var at0, imp0 := at, ov.importance;
      var a := Arbitrate(ev, overwrite.value);
      if a.ArbitrationAborted? {
        return DecisionAborted;
      }
      d := if a.Consulted? && a.applied then ByRule(a.rule) else ByOverride;
      if a.Skipped? {
        SkippedRulesKeepOverride(ev, at0, usedRule, ov.importance);
      } else if a.Consulted? {
        SelectedRuleDecides(ev, at0, usedRule, ov.importance, a.rule);
        SelectedRuleDecides(ev, at0, usedRule, imp0, a.rule);
      }
    }

    /** The input handler. An exception (a null override payload, a rule time that throws)
        ends it without a message, without recording the rule and without re-arming the
        auto trigger. When the rules decide, the payload is that of the rule checkRules
        selects, starting from the configured auto-trigger time; an input that repeats the
        reason, the rule and a simple payload sends nothing. */
    method Input(ev: ClockEvent) returns (res: ClockOutput)
      requires Valid() && Fits(ev)
      modifies this, ov, cache
      ensures Valid()
      ensures prevType == TypeOf(old(current)) && prevCode == old(code)
      ensures prevValue == (if Simple(old(current)) then old(current) else old(prevValue))
      ensures cache.nowarn == {} && cache.data == old(cache.data)
      ensures startDelayPending == old(startDelayPending)
      ensures res.Aborted? ==> usedRule == old(usedRule) && atTimer == old(atTimer)
      ensures res.Aborted? ==>
                old(OverrideThrows(ev.msg, ev.now.ts))
                || RulesAbort(ev, (if autoTrigger.Some? then Trigger(autoTrigger.value, 0) else old(at)))
      ensures old(OverrideThrows(ev.msg, ev.now.ts)) ==> res.Aborted?
      ensures res.Output? && res.ruleId != -2 ==> !RulesAbort(ev, (if autoTrigger.Some? then Trigger(autoTrigger.value, 0) else old(at)))
      ensures res.Output? && res.ruleId == -2 ==>
                !ConsultsRules(true, canResetOverwrite, maxImportance, ov.importance)
                || !RulesAbort(ev, (if autoTrigger.Some? then Trigger(autoTrigger.value, 0) else old(at)))
      ensures res.Output? ==>
                usedRule == N(res.ruleId)
                && atTimer == (if autoTrigger.Some? then Some(at.time) else None)
                && res.payload == current && res.code == code
                && res.emitted == Emits(current, code, res.ruleId, prevCode, old(usedRule), prevType, prevValue)
      ensures res.Output? && res.ruleId == -2 ==>
                ov.active
                && current == OverridePayload(ev.msg, old(ov.Blocks(ev.now.ts, ev.msg.importance, ev.msg.exactImportance, ev.msg.resetOverwrite)),
                                              old(current))
      ensures res.Output? && res.ruleId != -2 ==>
                exists r: ClockRules.RuleResult ::
                  r.RuleResult? && r.id == res.ruleId
                  && ClockRules.Outcome(EnvOf(ev), lastUntil, firstFrom, firstTimeLimited, autoTrigger.Some?,
                                        if autoTrigger.Some? then Trigger(autoTrigger.value, 0) else old(at), r)
                  && current == PayloadOf(ev, r.id) && (startDelayPending || code == N(r.code))
      ensures res.Output? ==> (res.ruleId == -2 <==> ov.active && !RuleOutranks(ev, (if autoTrigger.Some? then Trigger(autoTrigger.value, 0) else old(at)), ov.importance))
      ensures res.Output? && old(ov.Blocks(ev.now.ts, ev.msg.importance, ev.msg.exactImportance, ev.msg.resetOverwrite)) ==>
                (res.ruleId != -2 <==> RuleOverrides(ev, (if autoTrigger.Some? then Trigger(autoTrigger.value, 0) else old(at)), old(usedRule), old(ov.importance)))
      ensures res.Output? && res.ruleId == -2 && !startDelayPending ==> res.code == N(ov.ReasonCode().value)
      ensures res.Output? && startDelayPending ==> code == NaN && !res.emitted
      ensures (res.Output? && Simple(old(current)) && current == old(current) && code == old(code)
               && N(res.ruleId) == old(usedRule)) ==> !res.emitted
      ensures autoTrigger.Some? ==> at.time <= autoTrigger.value
      ensures ev.msg.onlyTrigger && !old(ov.active) ==> !ov.active
    {
      StartInput();
      res := Handle(ev);
    }

    /** The input handler after its start: the payload decision and the end. */
    method Handle(ev: ClockEvent) returns (res: ClockOutput)
      requires Valid() && Fits(ev)
      modifies this`current, this`code, this`at, this`usedRule, this`atTimer, ov
      ensures Valid()
      ensures at.time <= old(at.time)
      ensures res.Aborted? ==> usedRule == old(usedRule) && atTimer == old(atTimer)
      ensures res.Aborted? ==>
                old(OverrideThrows(ev.msg, ev.now.ts))
                || RulesAbort(ev, old(at))
      ensures old(OverrideThrows(ev.msg, ev.now.ts)) ==> res.Aborted?
      ensures res.Output? && res.ruleId != -2 ==> !RulesAbort(ev, old(at))
      ensures res.Output? && res.ruleId == -2 ==>
                !ConsultsRules(true, canResetOverwrite, maxImportance, ov.importance)
                || !RulesAbort(ev, old(at))
      ensures res.Output? ==>
                usedRule == N(res.ruleId)
                && atTimer == (if autoTrigger.Some? then Some(at.time) else None)
                && res.payload == current && res.code == code
                && res.emitted == Emits(current, code, res.ruleId, prevCode, old(usedRule), prevType, prevValue)
      ensures res.Output? && res.ruleId == -2 ==>
                ov.active
                && current == OverridePayload(ev.msg, old(ov.Blocks(ev.now.ts, ev.msg.importance, ev.msg.exactImportance, ev.msg.resetOverwrite)),
                                              old(current))
      ensures res.Output? && res.ruleId != -2 ==>
                exists r: ClockRules.RuleResult ::
                  r.RuleResult? && r.id == res.ruleId
                  && ClockRules.Outcome(EnvOf(ev), lastUntil, firstFrom, firstTimeLimited, autoTrigger.Some?, old(at), r)
                  && current == PayloadOf(ev, r.id) && (startDelayPending || code == N(r.code))
      ensures res.Output? ==> (res.ruleId == -2 <==> ov.active && !RuleOutranks(ev, old(at), ov.importance))
      ensures res.Output? && old(ov.Blocks(ev.now.ts, ev.msg.importance, ev.msg.exactImportance, ev.msg.resetOverwrite)) ==>
                (res.ruleId != -2 <==> RuleOverrides(ev, old(at), old(usedRule), old(ov.importance)))
      ensures res.Output? && res.ruleId == -2 && !startDelayPending ==> res.code == N(ov.ReasonCode().value)
      ensures res.Output? && startDelayPending ==> code == NaN && !res.emitted
      ensures ev.msg.onlyTrigger && !old(ov.active) ==> !ov.active
    {
      var d := Decide(ev);
      match d
      case DecisionAborted =>
        return Aborted;
      case ByOverride =>
        res := Finish(-2);
      case ByRule(r) =>
        res := Finish(r.id);
    }

    /** The end of the input handler once the payload is decided: the reason is cleared
        while the start delay runs, the node decides whether to send, and the rule is
        recorded and the auto trigger re-armed. */
    method Finish(ruleId: int) returns (res: ClockOutput)
      requires Valid()
      modifies this`code, this`usedRule, this`atTimer
      ensures Valid()
      ensures code == (if startDelayPending then NaN else old(code))
      ensures usedRule == N(ruleId) && atTimer == (if autoTrigger.Some? then Some(at.time) else None)
      ensures res == Output(current, code, ruleId, Emits(current, code, ruleId, prevCode, old(usedRule), prevType, prevValue))
    {
      if startDelayPending {
        code := NaN;
      }
      var emitted := Emits(current, code, ruleId, prevCode, usedRule, prevType, prevValue);
      usedRule := N(ruleId);
      if autoTrigger.Some? {
        atTimer := Some(at.time);
      }
      res := Output(current, code, ruleId, emitted);
    }

    /** The override timer: the override is reset and the node handles the expiry
        message, which only triggers an evaluation; the rules then decide. */
    method OnOverwriteExpired(ev: ClockEvent) returns (res: ClockOutput)
      requires Valid() && Fits(ev) && ev.msg == ExpiredMsg()
      modifies this, ov, cache
      ensures Valid() && !ov.active
      ensures res.Output? ==> res.ruleId != -2
    {
      ov.Reset();
      res := Input(ev);
    }

    /** The start-delay timer: the delay ends and the node handles a trigger. */
    method OnStartDelay(ev: ClockEvent) returns (res: ClockOutput)
      requires Valid() && Fits(ev) && ev.msg.onlyTrigger
      modifies this, ov, cache
      ensures Valid() && !startDelayPending
    {
      startDelayPending := false;
      res := Input(ev);
    }
  }
}
