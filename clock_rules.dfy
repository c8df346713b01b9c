/** The clock timer's rule scans: the condition pre-pass, the two passes of checkRules, the
    auto-trigger search and the rule set-up of initialize. */
module ClockRules {
  import opened Values
  import opened Rules

  /** prepareRules of the clock timer: the condition of every rule, `outs[i][j]` being the
      comparator's outcome for clause j of rule i. */
  method PrepareRules(rules: seq<Rule>, outs: seq<seq<bool>>) returns (conds: seq<bool>)
    requires |outs| == |rules| && forall i :: 0 <= i < |rules| ==> |outs[i]| == |rules[i].joins|
    ensures |conds| == |rules|
    ensures forall i :: 0 <= i < |rules| ==> conds[i] == ClockCondition(rules[i].joins, outs[i])
  {
    conds := [];
    var i := 0;
    while i < |rules|
      invariant 0 <= i <= |rules| && |conds| == i
      invariant forall k :: 0 <= k < i ==> conds[k] == ClockCondition(rules[k].joins, outs[k])
    {
      var joins, o := rules[i].joins, outs[i];
      var result := false;
      var j := 0;
      while j < |joins|
        invariant 0 <= j <= |joins|
        invariant ClockCondFrom(joins, o, j, result) == ClockCondition(joins, o)
      {
        if (result && joins[j] == LogOr) || (!result && joins[j] == LogAnd) {
          break;
        }
        result := o[j];
        j := j + 1;
      }
      conds := conds + [result];
      i := i + 1;
    }
  }

  /** The conditions prepareRules leaves on the rules. */
  function Conditions(rules: seq<Rule>, outs: seq<seq<bool>>): (conds: seq<bool>)
    requires |outs| == |rules| && forall i :: 0 <= i < |rules| ==> |outs[i]| == |rules[i].joins|
    ensures |conds| == |rules|
    ensures forall i :: 0 <= i < |rules| ==> conds[i] == ClockCondition(rules[i].joins, outs[i])
  {
    seq(|rules|, i requires 0 <= i < |rules| => ClockCondition(rules[i].joins, outs[i]))
  }

  /** The first loop of checkRules, over the rules up to `lastUntil`: From rules are
      skipped and the first accepted rule is selected (-1: none), or a rule time throws. */
  method ForwardPass(env: Env, lastUntil: int) returns (sel: Option<int>)
    requires env.WellSized() && -1 <= lastUntil < |env.rules|
    ensures sel.Some? ==> -1 <= sel.value <= lastUntil
    ensures sel.Some? && sel.value >= 0 ==> FwdMatch(env, sel.value)
    ensures sel.Some? ==> var stop := if sel.value >= 0 then sel.value else lastUntil + 1;
              forall j :: 0 <= j < stop ==> !FwdMatch(env, j) && (env.rules[j].timeOp != From ==> env.At(j, true) != Abort)
    ensures sel.None? ==>
              exists j :: 0 <= j <= lastUntil && (forall i :: 0 <= i < j ==> !FwdMatch(env, i))
                           && env.rules[j].timeOp != From && env.At(j, true) == Abort && env.Raises(j)
  {
    var i := 0;
    while i <= lastUntil
      invariant 0 <= i <= lastUntil + 1
      invariant forall j :: 0 <= j < i ==> !FwdMatch(env, j) && (env.rules[j].timeOp != From ==> env.At(j, true) != Abort)
    {
      if env.rules[i].timeOp != From {
        var res := env.At(i, true);
        if res == Abort {
          assert env.Raises(i);
          return None;
        }
        if res == Match {
          return Some(i);
        }
      }
      i := i + 1;
    }
    return Some(-1);
  }

  /** The second loop of checkRules, from the last rule down: Until rules are skipped and
      the first accepted rule is selected (-1: none), or a rule time throws. */
  method BackwardPass(env: Env) returns (sel: Option<int>)
    requires env.WellSized()
    ensures sel.Some? ==> -1 <= sel.value < |env.rules|
    ensures sel.Some? && sel.value >= 0 ==> BwdMatch(env, sel.value)
    ensures sel.Some? ==>
              forall j :: sel.value < j < |env.rules| ==> !BwdMatch(env, j) && (env.rules[j].timeOp != Until ==> env.At(j, false) != Abort)
    ensures sel.None? ==>
              exists j :: 0 <= j < |env.rules| && (forall i :: j < i < |env.rules| ==> !BwdMatch(env, i))
                           && env.rules[j].timeOp != Until && env.At(j, false) == Abort && env.Raises(j)
  {
    var i := |env.rules| - 1;
    while i >= 0
      invariant -1 <= i < |env.rules|
      invariant forall j :: i < j < |env.rules| ==> !BwdMatch(env, j) && (env.rules[j].timeOp != Until ==> env.At(j, false) != Abort)
    {
      if env.rules[i].timeOp != Until {
        var res := env.At(i, false);
        if res == Abort {
          assert env.Raises(i);
          return None;
        }
        if res == Match {
          return Some(i);
        }
      }
      i := i - 1;
    }
    return Some(-1);
  }

  /** `sel` is the rule the two passes of checkRules select (-1: none): the first rule up
      to `lastUntil` that the forward pass accepts; when there is none, the first rule from
      the top that the backward pass accepts. */
  predicate Selected(env: Env, lastUntil: int, sel: int)
    requires env.WellSized() && -1 <= lastUntil < |env.rules|
  {
    -1 <= sel < |env.rules|
    && if 0 <= sel <= lastUntil && FwdMatch(env, sel) then
         forall j :: 0 <= j < sel ==> !FwdMatch(env, j)
       else
         (forall j :: 0 <= j <= lastUntil ==> !FwdMatch(env, j))
         && (sel >= 0 ==> BwdMatch(env, sel))
         && forall j :: sel < j < |env.rules| ==> !BwdMatch(env, j)
  }

  /** At most one rule is selected. */
  lemma SelectedUnique(env: Env, lastUntil: int, s1: int, s2: int)
    requires env.WellSized() && -1 <= lastUntil < |env.rules|
    requires Selected(env, lastUntil, s1) && Selected(env, lastUntil, s2)
    ensures s1 == s2
  {
  }

  /** `ruleindex`: the selected rule when the forward pass chose it, -1 otherwise. */
  function ForwardIndex(env: Env, lastUntil: int, sel: int): int
    requires env.WellSized() && -1 <= sel < |env.rules|
  {
    if 0 <= sel <= lastUntil && FwdMatch(env, sel) then sel else -1
  }

  /** The forward pass of checkRules throws: among the rules up to `lastUntil` it reaches
      a rule whose time throws, no rule before it having matched. */
  predicate FwdAborts(env: Env, lastUntil: int)
    requires env.WellSized() && -1 <= lastUntil < |env.rules|
  {
    exists j :: 0 <= j <= lastUntil && (forall i :: 0 <= i < j ==> !FwdMatch(env, i))
                && env.rules[j].timeOp != From && env.At(j, true) == Abort
  }

  /** The backward pass of checkRules throws: going down from the last rule, it reaches a
      rule whose time throws, no rule above it having matched. */
  predicate BwdAborts(env: Env)
    requires env.WellSized()
  {
    exists j :: 0 <= j < |env.rules| && (forall i :: j < i < |env.rules| ==> !BwdMatch(env, i))
                && env.rules[j].timeOp != Until && env.At(j, false) == Abort
  }

  /** The passes of checkRules throw: the forward pass throws, or no rule up to
      `lastUntil` matches forward and the backward pass throws. */
  predicate SelectionAborts(env: Env, lastUntil: int)
    requires env.WellSized() && -1 <= lastUntil < |env.rules|
  {
    FwdAborts(env, lastUntil) || ((forall j :: 0 <= j <= lastUntil ==> !FwdMatch(env, j)) && BwdAborts(env))
  }

  /** The selected rule and `ruleindex` (the forward pass's selection, else -1). */
  datatype Selection = SelectionAborted | Selection(sel: int, index: int)

  /** Both passes of checkRules. The forward pass wins; the backward pass selects the last
      accepted rule when the forward pass found none. */
  method SelectRule(env: Env, lastUntil: int) returns (r: Selection)
    requires env.WellSized() && -1 <= lastUntil < |env.rules|
    ensures r.Selection? ==> Selected(env, lastUntil, r.sel) && r.index == ForwardIndex(env, lastUntil, r.sel)
    ensures r.SelectionAborted? ==> exists j :: 0 <= j < |env.rules| && env.Raises(j)
    ensures r.SelectionAborted? <==> SelectionAborts(env, lastUntil)
  {
    var f := ForwardPass(env, lastUntil);
    if f.None? {
      return SelectionAborted;
    }
    if f.value >= 0 {
      return Selection(f.value, f.value);
    }
    var b := BackwardPass(env);
    if b.None? {
      return SelectionAborted;
    }
    r := Selection(b.value, -1);
  }

  /** What checkRules gives back: the rule id (its position from 1, -1: none), the rule's
      importance and resetOverwrite flag, the reason code and the auto-trigger. */
  datatype RuleResult =
    | RulesAborted
    | RuleResult(id: int, importance: int, resetOverwrite: bool, code: int, trigger: Trigger)

  /** checkRuleForAT on rule `k` alone. */
  function RuleTrigger(env: Env, k: int, t: Trigger): Trigger
    requires env.WellSized() && 0 <= k < |env.rules| && t.Trigger?
  {
    LaterTrigger(env.rules, env.times, env.now, k, k + 1, t)
  }

  /** A new delay is the time left until some rule that is still ahead. */
  predicate TriggerBound(env: Env, at: Trigger, t: Trigger)
    requires env.WellSized() && at.Trigger?
  {
    t.Trigger? ==>
      t.time <= at.time
      && (t.time == at.time
          || exists j :: 0 <= j < |env.rules| && Upcoming(env.rules, env.times, env.now, j) && t.time == Delay(env.times, env.now, j))
  }

  /** The auto trigger checkRules leaves when no rule is selected: the first time-limited
      rule and then the first From rule are looked at, for the next day. */
  function DefaultTrigger(env: Env, firstFrom: int, firstTimeLimited: int, at: Trigger): (t: Trigger)
    requires env.WellSized() && at.Trigger?
    requires IsFirstFrom(env.rules, firstFrom) && 0 <= firstTimeLimited <= |env.rules|
    ensures TriggerBound(env, at, t)
    ensures t.TriggerAborted? ==> exists j :: 0 <= j < |env.rules| && env.Raises(j)
  {
    assert forall j :: 0 <= j < |env.rules| && env.rules[j].timeLimited && RuleTimeData(env.times[j]).Thrown? ==> env.Raises(j);
    var n := |env.rules|;
    if n == 0 then at
    else
      var t1 := if firstTimeLimited < n then RuleTrigger(env, firstTimeLimited, at) else at;
      if t1.TriggerAborted? || firstTimeLimited == firstFrom then t1
      else RuleTrigger(env, firstFrom, t1)
  }

  /** The auto trigger checkRules leaves for the selected rule `sel`: a time-limited rule
      whose time is still ahead lowers the delay to the time left until it (type 1).
      Otherwise the later time-limited rules are searched, from the rule after the forward
      pass's selection or from the first rule; when none of them is ahead, the first
      time-limited rule is looked at, for the next day. */
  function SelectedTrigger(env: Env, lastUntil: int, firstTimeLimited: int, sel: int, at: Trigger): (t: Trigger)
    requires env.WellSized() && -1 <= lastUntil < |env.rules| && 0 <= sel < |env.rules| && at.Trigger?
    requires 0 <= firstTimeLimited <= |env.rules|
    ensures TriggerBound(env, at, t)
    ensures t.TriggerAborted? ==> exists j :: 0 <= j < |env.rules| && env.Raises(j)
  {
    assert forall j :: 0 <= j < |env.rules| && env.rules[j].timeLimited && RuleTimeData(env.times[j]).Thrown? ==> env.Raises(j);
    var td := RuleTimeData(env.times[sel]);
    if env.rules[sel].timeLimited && td.Timed? && td.ts > env.now.ts then
      assert Upcoming(env.rules, env.times, env.now, sel);
      Trigger(Min(at.time, td.ts - env.now.ts), 1)
    else
      var t1 := LaterTrigger(env.rules, env.times, env.now, ForwardIndex(env, lastUntil, sel) + 1, |env.rules|, at);
      if t1.Trigger? && t1.kind != 2 && firstTimeLimited < |env.rules| then RuleTrigger(env, firstTimeLimited, t1)
      else t1
  }

  /** The auto trigger checkRules leaves for the selected rule `sel` (-1: none), starting
      from `at`. */
  function AutoTrigger(env: Env, lastUntil: int, firstFrom: int, firstTimeLimited: int, sel: int, at: Trigger): (t: Trigger)
    requires env.WellSized() && -1 <= lastUntil < |env.rules| && -1 <= sel < |env.rules| && at.Trigger?
    requires IsFirstFrom(env.rules, firstFrom) && 0 <= firstTimeLimited <= |env.rules|
    ensures TriggerBound(env, at, t)
    ensures t.TriggerAborted? ==> exists j :: 0 <= j < |env.rules| && env.Raises(j)
  {
    if sel < 0 then DefaultTrigger(env, firstFrom, firstTimeLimited, at)
    else SelectedTrigger(env, lastUntil, firstTimeLimited, sel, at)
  }

  /** What checkRules gives back when no rule time throws: the id of the selected rule
      (-1: none) with its importance and reset flag (0 and false for the default), reason 4
      for a rule and 1 for the default, and the auto trigger. */
  predicate Outcome(env: Env, lastUntil: int, firstFrom: int, firstTimeLimited: int, autoTrigger: bool, at: Trigger,
                    res: RuleResult)
    requires env.WellSized() && -1 <= lastUntil < |env.rules| && at.Trigger? && res.RuleResult?
    requires IsFirstFrom(env.rules, firstFrom) && 0 <= firstTimeLimited <= |env.rules|
  {
    var sel := IndexOf(res.id);
    -1 <= res.id <= |env.rules| && res.id != 0 && Selected(env, lastUntil, sel)
    && (sel == -1 ==> res.importance == 0 && !res.resetOverwrite && res.code == 1)
    && (sel >= 0 ==>
          res.code == 4 && res.importance == env.rules[sel].importance
          && res.resetOverwrite == env.rules[sel].resetOverwrite)
    && res.trigger == (if autoTrigger then AutoTrigger(env, lastUntil, firstFrom, firstTimeLimited, sel, at) else at)
  }

  /** checkRules throws: the passes throw, or the auto trigger's search of the rule times
      for the selection throws. */
  predicate Aborts(env: Env, lastUntil: int, firstFrom: int, firstTimeLimited: int, autoTrigger: bool, at: Trigger)
    requires env.WellSized() && -1 <= lastUntil < |env.rules| && at.Trigger?
    requires IsFirstFrom(env.rules, firstFrom) && 0 <= firstTimeLimited <= |env.rules|
  {
    SelectionAborts(env, lastUntil)
    || (autoTrigger
        && exists sel :: -1 <= sel < |env.rules| && Selected(env, lastUntil, sel)
                         && AutoTrigger(env, lastUntil, firstFrom, firstTimeLimited, sel, at).TriggerAborted?)
  }

  /** Once the passes have selected `sel`, checkRules throws exactly when the auto
      trigger's search for `sel` does. */
  lemma AbortsAfterSelection(env: Env, lastUntil: int, firstFrom: int, firstTimeLimited: int, autoTrigger: bool,
                             at: Trigger, sel: int)
    requires env.WellSized() && -1 <= lastUntil < |env.rules| && at.Trigger?
    requires IsFirstFrom(env.rules, firstFrom) && 0 <= firstTimeLimited <= |env.rules|
    requires Selected(env, lastUntil, sel) && !SelectionAborts(env, lastUntil)
    ensures Aborts(env, lastUntil, firstFrom, firstTimeLimited, autoTrigger, at) <==>
              autoTrigger && AutoTrigger(env, lastUntil, firstFrom, firstTimeLimited, sel, at).TriggerAborted?
  {
    forall s | -1 <= s < |env.rules| && Selected(env, lastUntil, s)
      ensures s == sel
    {
      SelectedUnique(env, lastUntil, s, sel);
    }
  }

  /** checkRules has one result: two results that both satisfy Outcome are the same. */
  lemma OutcomeUnique(env: Env, lastUntil: int, firstFrom: int, firstTimeLimited: int, autoTrigger: bool, at: Trigger,
                      r1: RuleResult, r2: RuleResult)
    requires env.WellSized() && -1 <= lastUntil < |env.rules| && at.Trigger? && r1.RuleResult? && r2.RuleResult?
    requires IsFirstFrom(env.rules, firstFrom) && 0 <= firstTimeLimited <= |env.rules|
    requires Outcome(env, lastUntil, firstFrom, firstTimeLimited, autoTrigger, at, r1)
    requires Outcome(env, lastUntil, firstFrom, firstTimeLimited, autoTrigger, at, r2)
    ensures r1 == r2
  {
    SelectedUnique(env, lastUntil, IndexOf(r1.id), IndexOf(r2.id));
  }

  /** The importance of the result is at most the largest importance of the rules. */
  lemma OutcomeImportanceBound(env: Env, lastUntil: int, firstFrom: int, firstTimeLimited: int, autoTrigger: bool,
                               at: Trigger, r: RuleResult, maxImportance: int)
    requires env.WellSized() && -1 <= lastUntil < |env.rules| && at.Trigger? && r.RuleResult?
    requires IsFirstFrom(env.rules, firstFrom) && 0 <= firstTimeLimited <= |env.rules|
    requires Outcome(env, lastUntil, firstFrom, firstTimeLimited, autoTrigger, at, r)
    requires IsMaxImportance(env.rules, |env.rules|, maxImportance)
    ensures r.importance <= maxImportance
  {
    if r.id > 0 {
      assert r.importance == env.rules[r.id - 1].importance;
    }
  }

  /** The auto-trigger part of checkRules without a selected rule. */
  method FindDefaultTrigger(env: Env, firstFrom: int, firstTimeLimited: int, at: Trigger) returns (trigger: Trigger)
    requires env.WellSized() && at.Trigger?
    requires IsFirstFrom(env.rules, firstFrom) && 0 <= firstTimeLimited <= |env.rules|
    ensures trigger == DefaultTrigger(env, firstFrom, firstTimeLimited, at)
  {
    var n := |env.rules|;
    trigger := at;
    if n > 0 {
      if firstTimeLimited < n {
        trigger := NextRuleTrigger(env.rules, env.times, env.now, firstTimeLimited, firstTimeLimited + 1, trigger.time, trigger.kind);
        if trigger.TriggerAborted? {
          return;
        }
      }
      if firstTimeLimited != firstFrom {
        trigger := NextRuleTrigger(env.rules, env.times, env.now, firstFrom, firstFrom + 1, trigger.time, trigger.kind);
      }
    }
  }

  /** The auto-trigger part of checkRules for a selected rule; `index` is `ruleindex`. */
  method FindSelectedTrigger(env: Env, lastUntil: int, firstTimeLimited: int, sel: int, index: int, at: Trigger)
    returns (trigger: Trigger)
    requires env.WellSized() && -1 <= lastUntil < |env.rules| && 0 <= sel < |env.rules| && at.Trigger?
    requires 0 <= firstTimeLimited <= |env.rules| && index == ForwardIndex(env, lastUntil, sel)
    ensures trigger == SelectedTrigger(env, lastUntil, firstTimeLimited, sel, at)
  {
    var n := |env.rules|;
    var td := RuleTimeData(env.times[sel]);
    if env.rules[sel].timeLimited && td.Timed? && td.ts > env.now.ts {
      trigger := Trigger(Min(at.time, td.ts - env.now.ts), 1);
    } else {
      trigger := NextRuleTrigger(env.rules, env.times, env.now, index + 1, n, at.time, at.kind);
      if trigger.Trigger? && trigger.kind != 2 && firstTimeLimited < n {
        trigger := NextRuleTrigger(env.rules, env.times, env.now, firstTimeLimited, firstTimeLimited + 1, trigger.time, trigger.kind);
      }
    }
  }

  /** checkRules of the clock timer. `lastUntil`, `firstFrom` and `firstTimeLimited` are
      the indexes initialize computed; `autoTrigger` says whether the node has an auto
      trigger, whose delay and type so far are `at`. */
  method CheckRules(env: Env, lastUntil: int, firstFrom: int, firstTimeLimited: int, autoTrigger: bool, at: Trigger)
    returns (res: RuleResult)
    requires env.WellSized() && at.Trigger?
    requires -1 <= lastUntil < |env.rules| && IsFirstFrom(env.rules, firstFrom)
    requires 0 <= firstTimeLimited <= |env.rules|
    ensures res.RulesAborted? ==> exists j :: 0 <= j < |env.rules| && env.Raises(j)
    ensures res.RulesAborted? <==> Aborts(env, lastUntil, firstFrom, firstTimeLimited, autoTrigger, at)
    ensures res.RuleResult? ==> Outcome(env, lastUntil, firstFrom, firstTimeLimited, autoTrigger, at, res)
    ensures res.RuleResult? ==> res.trigger.Trigger? && TriggerBound(env, at, res.trigger)
  {
    var s := SelectRule(env, lastUntil);
    if s.SelectionAborted? {
      return RulesAborted;
    }
    AbortsAfterSelection(env, lastUntil, firstFrom, firstTimeLimited, autoTrigger, at, s.sel);
    var trigger := at;
    if autoTrigger {
      if s.sel < 0 {
        trigger := FindDefaultTrigger(env, firstFrom, firstTimeLimited, at);
      } else {
        trigger := FindSelectedTrigger(env, lastUntil, firstTimeLimited, s.sel, s.index, at);
      }
      if trigger.TriggerAborted? {
        return RulesAborted;
      }
    }
    if s.sel < 0 {
      return RuleResult(-1, 0, false, 1, trigger);
    }
    var r := env.rules[s.sel];
    res := RuleResult(s.sel + 1, r.importance, r.resetOverwrite, 4, trigger);
  }

  /** `k` is the first time-limited rule among the first `hi` rules, or `dflt` when there
      is none. */
  predicate FirstLimitedBelow(rules: seq<Rule>, hi: int, k: int, dflt: int)
    requires 0 <= hi <= |rules|
  {
    (k == dflt && forall j :: 0 <= j < hi ==> !rules[j].timeLimited)
    || (0 <= k < hi && rules[k].timeLimited && forall j :: 0 <= j < k ==> !rules[j].timeLimited)
  }

  /** Appending a rule and taking the smaller of its index and the first From rule so far,
      when it is a From rule, keeps the first From rule, as long as the default is at least
      every index. */
  lemma FirstFromMinExtend(rules: seq<Rule>, r: Rule, k: int, dflt: int)
    requires FirstFromBelow(rules, |rules|, k, dflt) && dflt >= |rules|
    ensures FirstFromBelow(rules + [r], |rules| + 1, if r.timeOp == From then Min(|rules|, k) else k, dflt)
  {
    var s := rules + [r];
    assert forall j :: 0 <= j < |rules| ==> s[j] == rules[j];
  }

  /** The same for the first time-limited rule. */
  lemma FirstLimitedMinExtend(rules: seq<Rule>, r: Rule, k: int, dflt: int)
    requires FirstLimitedBelow(rules, |rules|, k, dflt) && dflt >= |rules|
    ensures FirstLimitedBelow(rules + [r], |rules| + 1, if r.timeLimited then Min(|rules|, k) else k, dflt)
  {
    var s := rules + [r];
    assert forall j :: 0 <= j < |rules| ==> s[j] == rules[j];
  }

  /** The largest importance, never below 0. */
  predicate IsMaxImportance(rules: seq<Rule>, hi: int, m: int)
    requires 0 <= hi <= |rules|
  {
    m >= 0 && (forall j :: 0 <= j < hi ==> rules[j].importance <= m)
    && (m == 0 || exists j :: 0 <= j < hi && rules[j].importance == m)
  }

  lemma MaxImportanceExtend(rules: seq<Rule>, r: Rule, m: int)
    requires IsMaxImportance(rules, |rules|, m)
    ensures IsMaxImportance(rules + [r], |rules| + 1, if r.importance > m then r.importance else m)
  {
    var s := rules + [r];
    assert forall j :: 0 <= j < |rules| ==> s[j] == rules[j];
    assert s[|rules|] == r;
  }

  /** What the rule loop of initialize knows after the first `|rules|` rules (`n` of them
      in all): the last Until rule, the first From rule, the first time-limited rule, the
      largest importance and whether a rule may reset. */
  predicate Located(rules: seq<Rule>, n: int, lastUntil: int, firstFrom: int, firstTimeLimited: int,
                    maxImportance: int, canReset: bool)
  {
    LastUntilBelow(rules, |rules|, lastUntil, n - 1)
    && FirstFromBelow(rules, |rules|, firstFrom, n - 1)
    && FirstLimitedBelow(rules, |rules|, firstTimeLimited, n)
    && IsMaxImportance(rules, |rules|, maxImportance)
    && (canReset <==> exists j :: 0 <= j < |rules| && rules[j].resetOverwrite)
  }

  /** One step of the rule loop keeps what it has located. */
  lemma LocatedExtend(rules: seq<Rule>, r: Rule, n: int, lastUntil: int, firstFrom: int, firstTimeLimited: int,
                      maxImportance: int, canReset: bool)
    requires |rules| < n && Located(rules, n, lastUntil, firstFrom, firstTimeLimited, maxImportance, canReset)
    requires r.timeOp == Until || r.timeOp == From ==> r.timeLimited
    ensures Located(rules + [r], n,
                    if r.timeLimited && r.timeOp == Until then |rules| else lastUntil,
                    if r.timeLimited && r.timeOp == From then Min(|rules|, firstFrom) else firstFrom,
                    if r.timeLimited then Min(|rules|, firstTimeLimited) else firstTimeLimited,
                    if r.importance > maxImportance then r.importance else maxImportance,
                    canReset || r.resetOverwrite)
  {
    LastUntilExtend(rules, r, lastUntil, n - 1);
    FirstFromMinExtend(rules, r, firstFrom, n - 1);
    FirstLimitedMinExtend(rules, r, firstTimeLimited, n);
    MaxImportanceExtend(rules, r, maxImportance);
    var s := rules + [r];
    assert forall j :: 0 <= j < |rules| ==> s[j] == rules[j];
    assert s[|rules|] == r;
  }

  /** Appending the next normalised rule keeps the list normalised. */
  lemma NormalisedExtend(rules: seq<Rule>, raws: seq<RawRule>, r: Rule)
    requires |rules| < |raws| && r == NormaliseClock(raws[|rules|])
    requires forall k :: 0 <= k < |rules| ==> rules[k] == NormaliseClock(raws[k])
    ensures forall k :: 0 <= k < |rules| + 1 ==> (rules + [r])[k] == NormaliseClock(raws[k])
  {
    var s := rules + [r];
    assert forall k :: 0 <= k < |rules| ==> s[k] == rules[k];
  }

  /** The rule loop of initialize: every rule normalised; the last Until rule, the first
      From rule and the first time-limited rule (the rule count when there is none)
      located; the largest importance and whether any rule may reset a manual override. */
  method InitRules(raws: seq<RawRule>)
    returns (rules: seq<Rule>, lastUntil: int, firstFrom: int, firstTimeLimited: int,
             maxImportance: int, canResetOverwrite: bool)
    ensures |rules| == |raws|
    ensures forall i :: 0 <= i < |raws| ==> rules[i] == NormaliseClock(raws[i])
    ensures IsLastUntil(rules, lastUntil)
    ensures IsFirstFrom(rules, firstFrom)
    ensures FirstLimitedBelow(rules, |rules|, firstTimeLimited, |rules|)
    ensures IsMaxImportance(rules, |rules|, maxImportance)
    ensures canResetOverwrite <==> exists j :: 0 <= j < |rules| && rules[j].resetOverwrite
  {
    rules := [];
    var n := |raws|;
    lastUntil, firstFrom, firstTimeLimited := n - 1, n - 1, n;
    maxImportance, canResetOverwrite := 0, false;
    var i := 0;
    while i < n
      invariant 0 <= i <= n && |rules| == i
      invariant forall k :: 0 <= k < i ==> rules[k] == NormaliseClock(raws[k])
      invariant Located(rules, n, lastUntil, firstFrom, firstTimeLimited, maxImportance, canResetOverwrite)
    {
      var rule := NormaliseClock(raws[i]);
      NormalisedExtend(rules, raws, rule);
      LocatedExtend(rules, rule, n, lastUntil, firstFrom, firstTimeLimited, maxImportance, canResetOverwrite);
      rules := rules + [rule];
      maxImportance := if rule.importance > maxImportance then rule.importance else maxImportance;
      canResetOverwrite := canResetOverwrite || rule.resetOverwrite;
      if rule.timeLimited {
        firstTimeLimited := Min(i, firstTimeLimited);
        if rule.timeOp == Until {
          lastUntil := i;
        }
        if rule.timeOp == From {
          firstFrom := Min(i, firstFrom);
        }
      }
      i := i + 1;
    }
  }
}
