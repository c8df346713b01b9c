/** The blind controller's rule scans: the condition pre-pass, the forward and backward
    passes of checkRules with their Min/Max ("oversteer") captures, and the rule set-up of
    initialize. */
module BlindRules {
  import opened Values
  import opened Levels
  import opened Rules

  /** prepareRules: the condition of every rule, `outs[i][j]` being the comparator's
      outcome for clause j of rule i. */
  method PrepareRules(rules: seq<Rule>, outs: seq<seq<bool>>) returns (conds: seq<bool>)
    requires |outs| == |rules| && forall i :: 0 <= i < |rules| ==> |outs[i]| == |rules[i].joins|
    ensures |conds| == |rules|
    ensures forall i :: 0 <= i < |rules| ==> conds[i] == BlindCondition(rules[i].joins, outs[i])
  {
    conds := [];
    var i := 0;
    while i < |rules|
      invariant 0 <= i <= |rules| && |conds| == i
      invariant forall k :: 0 <= k < i ==> conds[k] == BlindCondition(rules[k].joins, outs[k])
    {
      var joins, o := rules[i].joins, outs[i];
      var result := false;
      var j := 0;
      while j < |joins|
        invariant 0 <= j <= |joins|
        invariant BlindCondFrom(joins, o, j, result) == BlindCondition(joins, o)
      {
        if result && joins[j] == LogOr {
          break;
        }
        if !o[j] {
          if joins[j] == LogAnd {
            result := false;
            break;
          }
        } else {
          result := true;
        }
        j := j + 1;
      }
      conds := conds + [result];
      i := i + 1;
    }
  }

  /** The conditions prepareRules leaves on the rules. */
  function Conditions(rules: seq<Rule>, outs: seq<seq<bool>>): (conds: seq<bool>)
    requires |outs| == |rules| && forall i :: 0 <= i < |rules| ==> |outs[i]| == |rules[i].joins|
    ensures |conds| == |rules|
    ensures forall i :: 0 <= i < |rules| ==> conds[i] == BlindCondition(rules[i].joins, outs[i])
  {
    seq(|rules|, i requires 0 <= i < |rules| => BlindCondition(rules[i].joins, outs[i]))
  }

  predicate Oversteer(r: Rule)
  {
    r.levelOp == MinOversteer || r.levelOp == MaxOversteer
  }

  /** `k` is the last rule below `hi` that the forward pass accepts with level operator
      `op`, or -1 when there is none. */
  predicate LastFwd(env: Env, op: int, hi: int, k: int)
    requires env.WellSized() && 0 <= hi <= |env.rules|
  {
    (k == -1 && forall j :: 0 <= j < hi ==> !(FwdMatch(env, j) && env.rules[j].levelOp == op))
    || (0 <= k < hi && FwdMatch(env, k) && env.rules[k].levelOp == op
        && forall j :: k < j < hi ==> !(FwdMatch(env, j) && env.rules[j].levelOp == op))
  }

  /** `k` is the first rule above `lo` that the backward pass accepts with level operator
      `op`, or `k0` when there is none. */
  predicate FirstBwd(env: Env, op: int, lo: int, k0: int, k: int)
    requires env.WellSized() && -1 <= lo < |env.rules|
  {
    (k == k0 && forall j :: lo < j < |env.rules| ==> !(BwdMatch(env, j) && env.rules[j].levelOp == op))
    || (lo < k < |env.rules| && BwdMatch(env, k) && env.rules[k].levelOp == op
        && forall j :: lo < j < k ==> !(BwdMatch(env, j) && env.rules[j].levelOp == op))
  }

  /** Scanning rule `i` forward: a Min/Max match with operator `op` becomes the last one. */
  lemma LastFwdStep(env: Env, op: int, i: int, k: int)
    requires env.WellSized() && 0 <= i < |env.rules| && LastFwd(env, op, i, k)
    ensures LastFwd(env, op, i + 1, if FwdMatch(env, i) && env.rules[i].levelOp == op then i else k)
  {
  }

  /** Scanning rule `i` backward: a Min/Max match with operator `op` becomes the first one
      above `i - 1`. */
  lemma FirstBwdStep(env: Env, op: int, i: int, k0: int, k: int)
    requires env.WellSized() && 0 <= i < |env.rules| && FirstBwd(env, op, i, k0, k)
    ensures FirstBwd(env, op, i - 1, k0, if BwdMatch(env, i) && env.rules[i].levelOp == op then i else k)
  {
  }

  /** The forward pass got past every rule below `hi`: none of their times threw and every
      match among them is Min/Max. */
  predicate FwdCleared(env: Env, hi: int)
    requires env.WellSized() && 0 <= hi <= |env.rules|
  {
    (forall j :: 0 <= j < hi && env.rules[j].timeOp != From ==> env.At(j, true) != Abort)
    && (forall j :: 0 <= j < hi && FwdMatch(env, j) ==> Oversteer(env.rules[j]))
  }

  lemma FwdClearedStep(env: Env, i: int)
    requires env.WellSized() && 0 <= i < |env.rules| && FwdCleared(env, i)
    requires env.rules[i].timeOp != From ==> env.At(i, true) != Abort
    requires FwdMatch(env, i) ==> Oversteer(env.rules[i])
    ensures FwdCleared(env, i + 1)
  {
  }

  /** The backward pass got past every rule above `lo`: none of their times threw and every
      match among them is Min/Max. */
  predicate BwdCleared(env: Env, lo: int)
    requires env.WellSized() && -1 <= lo < |env.rules|
  {
    (forall j :: lo < j < |env.rules| && env.rules[j].timeOp != Until ==> env.At(j, false) != Abort)
    && (forall j :: lo < j < |env.rules| && BwdMatch(env, j) ==> Oversteer(env.rules[j]))
  }

  lemma BwdClearedStep(env: Env, i: int)
    requires env.WellSized() && 0 <= i < |env.rules| && BwdCleared(env, i)
    requires env.rules[i].timeOp != Until ==> env.At(i, false) != Abort
    requires BwdMatch(env, i) ==> Oversteer(env.rules[i])
    ensures BwdCleared(env, i - 1)
  {
  }

  /** The outcome of a pass: the selected rule (-1: none) and the Min and Max rules, or the
      exception a rule time raised. */
  datatype Scan = ScanAborted | Scan(sel: int, selMin: int, selMax: int)

  /** The first loop of checkRules: From rules are skipped; the first accepted rule that is
      not Min/Max stops the scan; accepted Min/Max rules before it are recorded, the later
      replacing the earlier. */
  method ForwardPass(env: Env) returns (s: Scan)
    requires env.WellSized()
    ensures s.Scan? ==> -1 <= s.sel < |env.rules|
    ensures s.Scan? && s.sel >= 0 ==> FwdMatch(env, s.sel) && !Oversteer(env.rules[s.sel])
    ensures s.Scan? ==> var stop := if s.sel >= 0 then s.sel else |env.rules|;
              (forall j :: 0 <= j < stop && env.rules[j].timeOp != From ==> env.At(j, true) != Abort)
              && (forall j :: 0 <= j < stop && FwdMatch(env, j) ==> Oversteer(env.rules[j]))
              && LastFwd(env, MinOversteer, stop, s.selMin)
              && LastFwd(env, MaxOversteer, stop, s.selMax)
    ensures s.ScanAborted? ==>
              exists j :: 0 <= j < |env.rules| && FwdCleared(env, j) && env.rules[j].timeOp != From && env.At(j, true) == Abort && env.Raises(j)
  {
    var selMin, selMax := -1, -1;
    var i := 0;
    while i < |env.rules|
      invariant 0 <= i <= |env.rules|
      invariant FwdCleared(env, i)
      invariant LastFwd(env, MinOversteer, i, selMin)
      invariant LastFwd(env, MaxOversteer, i, selMax)
    {
      LastFwdStep(env, MinOversteer, i, selMin);
      LastFwdStep(env, MaxOversteer, i, selMax);
      if env.rules[i].timeOp != From {
        var res := env.At(i, true);
        if res == Abort {
          assert env.Raises(i);
          return ScanAborted;
        }
        if res == Match {
          if env.rules[i].levelOp == MinOversteer {
            selMin := i;
          } else if env.rules[i].levelOp == MaxOversteer {
            selMax := i;
          } else {
            return Scan(i, selMin, selMax);
          }
        }
      }
      FwdClearedStep(env, i);
      i := i + 1;
    }
    return Scan(-1, selMin, selMax);
  }

  /** The second loop of checkRules, run from the last rule down: Until rules are skipped;
      the first accepted rule that is not Min/Max stops the scan; an accepted Min/Max rule
      replaces the one recorded so far. */
  method BackwardPass(env: Env, selMin0: int, selMax0: int) returns (s: Scan)
    requires env.WellSized()
    ensures s.Scan? ==> -1 <= s.sel < |env.rules|
    ensures s.Scan? && s.sel >= 0 ==> BwdMatch(env, s.sel) && !Oversteer(env.rules[s.sel])
    ensures s.Scan? ==>
              (forall j :: s.sel < j < |env.rules| && env.rules[j].timeOp != Until ==> env.At(j, false) != Abort)
              && (forall j :: s.sel < j < |env.rules| && BwdMatch(env, j) ==> Oversteer(env.rules[j]))
              && FirstBwd(env, MinOversteer, s.sel, selMin0, s.selMin)
              && FirstBwd(env, MaxOversteer, s.sel, selMax0, s.selMax)
    ensures s.ScanAborted? ==>
              exists j :: 0 <= j < |env.rules| && BwdCleared(env, j) && env.rules[j].timeOp != Until && env.At(j, false) == Abort && env.Raises(j)
  {
    var selMin, selMax := selMin0, selMax0;
    var i := |env.rules| - 1;
    while i >= 0
      invariant -1 <= i < |env.rules|
      invariant BwdCleared(env, i)
      invariant FirstBwd(env, MinOversteer, i, selMin0, selMin)
      invariant FirstBwd(env, MaxOversteer, i, selMax0, selMax)
    {
      FirstBwdStep(env, MinOversteer, i, selMin0, selMin);
      FirstBwdStep(env, MaxOversteer, i, selMax0, selMax);
      if env.rules[i].timeOp != Until {
        var res := env.At(i, false);
        if res == Abort {
          assert env.Raises(i);
          return ScanAborted;
        }
        if res == Match {
          if env.rules[i].levelOp == MinOversteer {
            selMin := i;
          } else if env.rules[i].levelOp == MaxOversteer {
            selMax := i;
          } else {
            return Scan(i, selMin, selMax);
          }
        }
      }
      BwdClearedStep(env, i);
      i := i - 1;
    }
    return Scan(-1, selMin, selMax);
  }

  /** `sel` is the rule the two passes of checkRules select (-1: none): the first rule
      the forward pass accepts that is not Min/Max; when there is none, the first rule from
      the top that the backward pass accepts and that is not Min/Max. */
  predicate Selected(env: Env, sel: int)
    requires env.WellSized()
  {
    -1 <= sel < |env.rules|
    && if sel >= 0 && FwdMatch(env, sel) then
         !Oversteer(env.rules[sel]) && forall j :: 0 <= j < sel && FwdMatch(env, j) ==> Oversteer(env.rules[j])
       else
         (forall j :: 0 <= j < |env.rules| && FwdMatch(env, j) ==> Oversteer(env.rules[j]))
         && (sel >= 0 ==> BwdMatch(env, sel) && !Oversteer(env.rules[sel]))
         && forall j :: sel < j < |env.rules| && BwdMatch(env, j) ==> Oversteer(env.rules[j])
  }

  /** At most one rule is selected: the selection is a function of the rules and their
      verdicts. */
  lemma SelectedUnique(env: Env, s1: int, s2: int)
    requires env.WellSized() && Selected(env, s1) && Selected(env, s2)
    ensures s1 == s2
  {
  }

  /** `ruleindex`: the selected rule when the forward pass chose it, -1 otherwise. */
  function ForwardIndex(env: Env, sel: int): int
    requires env.WellSized() && -1 <= sel < |env.rules|
  {
    if sel >= 0 && FwdMatch(env, sel) then sel else -1
  }

  /** `k` is the Min (or Max, by `op`) rule checkRules ends with for the selection `sel`
      (-1: none): the last one the forward pass met before `sel`; when the backward pass
      ran, the first one above `sel` that it met, or else the last one of the forward
      pass. */
  predicate Captured(env: Env, op: int, sel: int, k: int)
    requires env.WellSized() && -1 <= sel < |env.rules|
  {
    if sel >= 0 && FwdMatch(env, sel) then LastFwd(env, op, sel, k)
    else exists k0 :: -1 <= k0 < |env.rules| && LastFwd(env, op, |env.rules|, k0) && FirstBwd(env, op, sel, k0, k)
  }

  /** The forward pass of checkRules throws: it reaches a rule whose time throws, every
      rule before it having passed. */
  predicate FwdAborts(env: Env)
    requires env.WellSized()
  {
    exists j :: 0 <= j < |env.rules| && FwdCleared(env, j) && env.rules[j].timeOp != From && env.At(j, true) == Abort
  }

  /** The backward pass of checkRules throws: going down from the last rule, it reaches a
      rule whose time throws, every rule above it having passed. */
  predicate BwdAborts(env: Env)
    requires env.WellSized()
  {
    exists j :: 0 <= j < |env.rules| && BwdCleared(env, j) && env.rules[j].timeOp != Until && env.At(j, false) == Abort
  }

  /** The passes of checkRules throw: the forward pass throws, or it gets through every
      rule without a selection and the backward pass throws. */
  predicate SelectionAborts(env: Env)
    requires env.WellSized()
  {
    FwdAborts(env) || (FwdCleared(env, |env.rules|) && BwdAborts(env))
  }

  /** The rule checkRules settles on: the selected rule (-1: none) with `index`, the value of
      `ruleindex` (the forward pass's selection, else -1), and the Min and Max rules. */
  datatype Selection = SelectionAborted | Selection(sel: int, index: int, selMin: int, selMax: int)

  /** Both passes of checkRules: the backward pass runs only when the forward pass selected
      nothing, and then starts from the Min/Max rules the forward pass recorded. */
  method SelectRule(env: Env) returns (r: Selection)
    requires env.WellSized()
    ensures r.Selection? ==> Selected(env, r.sel) && r.index == ForwardIndex(env, r.sel)
    ensures r.Selection? ==> -1 <= r.selMin < |env.rules| && Captured(env, MinOversteer, r.sel, r.selMin)
    ensures r.Selection? ==> -1 <= r.selMax < |env.rules| && Captured(env, MaxOversteer, r.sel, r.selMax)
    ensures r.SelectionAborted? ==> exists j :: 0 <= j < |env.rules| && env.Raises(j)
    ensures r.SelectionAborted? <==> SelectionAborts(env)
  {
    var f := ForwardPass(env);
    if f.ScanAborted? {
      return SelectionAborted;
    }
    if f.sel >= 0 && env.rules[f.sel].timeOp != From {
      return Selection(f.sel, f.sel, f.selMin, f.selMax);
    }
    var b := BackwardPass(env, f.selMin, f.selMax);
    if b.ScanAborted? {
      return SelectionAborted;
    }
    assert LastFwd(env, MinOversteer, |env.rules|, f.selMin) && LastFwd(env, MaxOversteer, |env.rules|, f.selMax);
    r := Selection(b.sel, -1, b.selMin, b.selMax);
  }

  /** Appending the next normalised rule keeps the list normalised. */
  lemma NormalisedExtend(rules: seq<Rule>, raws: seq<RawRule>, r: Rule)
    requires |rules| < |raws| && r == NormaliseBlind(raws[|rules|])
    requires forall k :: 0 <= k < |rules| ==> rules[k] == NormaliseBlind(raws[k])
    ensures forall k :: 0 <= k < |rules| + 1 ==> (rules + [r])[k] == NormaliseBlind(raws[k])
  {
    var s := rules + [r];
    assert forall k :: 0 <= k < |rules| ==> s[k] == rules[k];
  }

  /** What the rule loop of initialize knows after the first `|rules|` rules (`n` of them in
      all): the last Until rule and the first From rule, and whether one was found. */
  predicate Located(rules: seq<Rule>, n: int, lastUntil: int, firstFrom: int, checkFrom: bool)
  {
    LastUntilBelow(rules, |rules|, lastUntil, n - 1)
    && FirstFromBelow(rules, |rules|, firstFrom, n - 1)
    && (checkFrom <==> 0 <= firstFrom < |rules| && rules[firstFrom].timeOp == From)
  }

  /** One step of the rule loop keeps what it has located. */
  lemma LocatedExtend(rules: seq<Rule>, r: Rule, n: int, lastUntil: int, firstFrom: int, checkFrom: bool)
    requires Located(rules, n, lastUntil, firstFrom, checkFrom)
    ensures Located(rules + [r], n, if r.timeOp == Until then |rules| else lastUntil,
                    if r.timeOp == From && !checkFrom then |rules| else firstFrom,
                    checkFrom || r.timeOp == From)
  {
    LastUntilExtend(rules, r, lastUntil, n - 1);
    FirstFromExtend(rules, r, firstFrom, n - 1, checkFrom);
  }

  /** The rule loop of initialize: every rule normalised, and the last Until and first From
      rule located. */
  method InitRules(raws: seq<RawRule>) returns (rules: seq<Rule>, lastUntil: int, firstFrom: int)
    ensures |rules| == |raws|
    ensures forall i :: 0 <= i < |raws| ==> rules[i] == NormaliseBlind(raws[i])
    ensures IsLastUntil(rules, lastUntil)
    ensures IsFirstFrom(rules, firstFrom)
  {
    rules := [];
    lastUntil := |raws| - 1;
    firstFrom := lastUntil;
    var checkFrom := false;
    var i := 0;
    while i < |raws|
      invariant 0 <= i <= |raws| && |rules| == i
      invariant forall k :: 0 <= k < i ==> rules[k] == NormaliseBlind(raws[k])
      invariant Located(rules, |raws|, lastUntil, firstFrom, checkFrom)
    {
      var rule := NormaliseBlind(raws[i]);
      NormalisedExtend(rules, raws, rule);
      LocatedExtend(rules, rule, |raws|, lastUntil, firstFrom, checkFrom);
      rules := rules + [rule];
      if rule.timeOp == Until {
        lastUntil := i;
      }
      if rule.timeOp == From && !checkFrom {
        firstFrom := i;
        checkFrom := true;
      }
      i := i + 1;
    }
  }

  /** The level a Min/Max rule imposes: getBlindPosFromTI with default -1, kept only when
      it is above -1 (hasMinimum / hasMaximum). */
  function OversteerLevel(c: BlindData, r: Rule, prop: Num): (l: Option<int>)
    requires c.Valid()
    ensures l.Some? ==> l.value >= 0 && BlindPosFromTI(c, r.level, prop, N(-1)) == N(l.value)
    ensures l.None? ==> !Less(N(-1), BlindPosFromTI(c, r.level, prop, N(-1)))
  {
    var lev := BlindPosFromTI(c, r.level, prop, N(-1));
    if Less(N(-1), lev) then Some(lev.v) else None
  }

  /** What checkRules gives back: the rule id (its position from 1, -1: none), the level
      the rule asks for and whether it is active, the Min and Max levels, the reason code
      and the auto-trigger; or the exception a rule time raised. */
  datatype RuleResult =
    | RulesAborted
    | RuleResult(id: int, level: Num, active: bool, levelMinimum: Option<int>, levelMaximum: Option<int>,
                 code: int, trigger: Trigger)

  /** The auto trigger checkRules leaves for the selected rule `sel` (-1: none), starting
      from `at`: a time-limited selected rule whose time is still ahead lowers the delay to
      the time left until it (type 1); otherwise the later time-limited rules are searched,
      from the rule after the forward pass's selection, or from the first rule when the
      backward pass chose. A new delay is always the time left until some rule that is
      still ahead. */
  function AutoTrigger(env: Env, sel: int, at: Trigger): (t: Trigger)
    requires env.WellSized() && Selected(env, sel) && at.Trigger?
    ensures t.Trigger? ==> t.time <= at.time
    ensures t.Trigger? ==>
              (t.time == at.time
               || exists j :: 0 <= j < |env.rules| && Upcoming(env.rules, env.times, env.now, j) && t.time == Delay(env.times, env.now, j))
    ensures sel < 0 ==> t == at
    ensures t.TriggerAborted? ==> exists j :: 0 <= j < |env.rules| && env.Raises(j)
  {
    if sel < 0 then at
    else
      var td := RuleTimeData(env.times[sel]);
      if env.rules[sel].timeLimited && td.Timed? && td.ts > env.now.ts then
        assert Upcoming(env.rules, env.times, env.now, sel);
        Trigger(Min(at.time, td.ts - env.now.ts), 1)
      else
        assert forall j :: 0 <= j < |env.rules| && env.rules[j].timeLimited && RuleTimeData(env.times[j]).Thrown? ==> env.Raises(j);
        LaterTrigger(env.rules, env.times, env.now, ForwardIndex(env, sel) + 1, |env.rules|, at)
  }

  /** The level a Min/Max rule `k` (-1: none) imposes. */
  function OversteerAt(c: BlindData, env: Env, props: seq<Num>, k: int): Option<int>
    requires c.Valid() && env.WellSized() && |props| == |env.rules| && -1 <= k < |env.rules|
  {
    if k >= 0 then OversteerLevel(c, env.rules[k], props[k]) else None
  }

  /** What checkRules gives back when no rule time throws: the id of the selected rule
      (-1: none); for a rule with an absolute level that level (read with default -1),
      active when above -1; the default level, inactive, for the default and for a
      Min/Max-less rule of another level operator; reason 4 for a rule and 1 for the
      default; the levels of the Min and Max rules the passes ended with; and the auto
      trigger. */
  predicate Outcome(c: BlindData, env: Env, props: seq<Num>, levelDefault: Num, autoTrigger: bool, at: Trigger,
                    res: RuleResult)
    requires c.Valid() && env.WellSized() && |props| == |env.rules| && at.Trigger? && res.RuleResult?
  {
    var sel := IndexOf(res.id);
    -1 <= res.id <= |env.rules| && res.id != 0 && Selected(env, sel)
    && (sel == -1 ==> res.level == levelDefault && !res.active && res.code == 1)
    && (sel >= 0 ==>
          res.code == 4
          && (env.rules[sel].levelOp == Absolute ==>
                res.level == BlindPosFromTI(c, env.rules[sel].level, props[sel], N(-1)) && (res.active <==> Less(N(-1), res.level)))
          && (env.rules[sel].levelOp != Absolute ==> res.level == levelDefault && !res.active))
    && (exists k :: -1 <= k < |env.rules| && Captured(env, MinOversteer, sel, k) && res.levelMinimum == OversteerAt(c, env, props, k))
    && (exists k :: -1 <= k < |env.rules| && Captured(env, MaxOversteer, sel, k) && res.levelMaximum == OversteerAt(c, env, props, k))
    && res.trigger == (if autoTrigger then AutoTrigger(env, sel, at) else at)
  }

  /** checkRules throws: the passes throw, or they select a rule and the auto trigger's
      search of the rule times throws. */
  predicate Aborts(env: Env, autoTrigger: bool, at: Trigger)
    requires env.WellSized() && at.Trigger?
  {
    SelectionAborts(env)
    || (autoTrigger && exists sel :: -1 <= sel < |env.rules| && Selected(env, sel) && AutoTrigger(env, sel, at).TriggerAborted?)
  }

  /** Once the passes have selected `sel`, checkRules throws exactly when the auto
      trigger's search for `sel` does. */
  lemma AbortsAfterSelection(env: Env, autoTrigger: bool, at: Trigger, sel: int)
    requires env.WellSized() && at.Trigger? && Selected(env, sel) && !SelectionAborts(env)
    ensures Aborts(env, autoTrigger, at) <==> autoTrigger && AutoTrigger(env, sel, at).TriggerAborted?
  {
    forall s | -1 <= s < |env.rules| && Selected(env, s)
      ensures s == sel
    {
      SelectedUnique(env, s, sel);
    }
  }

  /** The auto-trigger part of checkRules for a selected rule; `index` is `ruleindex`. */
  method FindTrigger(env: Env, sel: int, index: int, at: Trigger) returns (trigger: Trigger)
    requires env.WellSized() && Selected(env, sel) && 0 <= sel && at.Trigger? && index == ForwardIndex(env, sel)
    ensures trigger == AutoTrigger(env, sel, at)
  {
    var td := RuleTimeData(env.times[sel]);
    if env.rules[sel].timeLimited && td.Timed? && td.ts > env.now.ts {
      trigger := Trigger(Min(at.time, td.ts - env.now.ts), 1);
    } else {
      trigger := NextRuleTrigger(env.rules, env.times, env.now, index + 1, |env.rules|, at.time, at.kind);
    }
  }

  /** The end of checkRules once the passes have settled on `s`: the auto trigger, then
      the result for the selected rule or the default. */
  method ResultFor(c: BlindData, env: Env, props: seq<Num>, levelDefault: Num, autoTrigger: bool, at: Trigger,
                   s: Selection) returns (res: RuleResult)
    requires c.Valid() && env.WellSized() && |props| == |env.rules| && at.Trigger? && s.Selection?
    requires Selected(env, s.sel) && s.index == ForwardIndex(env, s.sel)
    requires -1 <= s.selMin < |env.rules| && Captured(env, MinOversteer, s.sel, s.selMin)
    requires -1 <= s.selMax < |env.rules| && Captured(env, MaxOversteer, s.sel, s.selMax)
    ensures res.RulesAborted? <==> autoTrigger && AutoTrigger(env, s.sel, at).TriggerAborted?
    ensures res.RuleResult? ==> Outcome(c, env, props, levelDefault, autoTrigger, at, res)
    ensures res.RuleResult? ==> res.trigger.Trigger? && res.trigger.time <= at.time
  {
    var lmin := OversteerAt(c, env, props, s.selMin);
    var lmax := OversteerAt(c, env, props, s.selMax);
    if s.sel < 0 {
      return RuleResult(-1, levelDefault, false, lmin, lmax, 1, at);
    }
    var r := env.rules[s.sel];
    var trigger := at;
    if autoTrigger {
      trigger := FindTrigger(env, s.sel, s.index, at);
      if trigger.TriggerAborted? {
        return RulesAborted;
      }
    }
    var level, active;
    if r.levelOp == Absolute {
      level := BlindPosFromTI(c, r.level, props[s.sel], N(-1));
      active := Less(N(-1), level);
    } else {
      level, active := levelDefault, false;
    }
    res := RuleResult(s.sel + 1, level, active, lmin, lmax, 4, trigger);
  }

  /** checkRules of the blind controller. `props[i]` is the number a property-typed level of
      rule i reads; `autoTrigger` says whether the node has an auto trigger, whose delay and
      type so far are `at`. */
  method CheckRules(c: BlindData, env: Env, props: seq<Num>, levelDefault: Num, autoTrigger: bool, at: Trigger)
    returns (res: RuleResult)
    requires c.Valid() && env.WellSized() && |props| == |env.rules| && at.Trigger?
    ensures res.RulesAborted? ==> exists j :: 0 <= j < |env.rules| && env.Raises(j)
    ensures res.RulesAborted? <==> Aborts(env, autoTrigger, at)
    ensures res.RuleResult? ==> Outcome(c, env, props, levelDefault, autoTrigger, at, res)
    ensures res.RuleResult? ==> res.trigger.Trigger? && res.trigger.time <= at.time
  {
    var s := SelectRule(env);
    if s.SelectionAborted? {
      return RulesAborted;
    }
    AbortsAfterSelection(env, autoTrigger, at, s.sel);
    res := ResultFor(c, env, props, levelDefault, autoTrigger, at, s);
  }
}
