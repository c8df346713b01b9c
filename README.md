# Blind controller and clock timer: a verified model of the decision core

The node-red-contrib-sun-position package has two automation nodes. Each message they
receive leads to one decision:

- `blind-control` picks a blind level.
- `clock-timer` picks an arbitrary payload.

Both nodes run the same pipeline. A manual override with an importance and an expiry
comes first. Then a list of configured rules is read. Each rule can be limited by
conditions, by the time of day and by calendar filters. Scans over the rules pick the
one that applies, and compute when the node should next wake itself up (the "auto
trigger"). The blind controller adds three things:

- sun control, which maps the sun's depth in the room to a level;
- Min/Max ("oversteer") rules that bound the level;
- level arithmetic on the blind's range (rounding to the increment, mirroring, and
  percentages).

The model is written in Dafny:

| File | What it holds |
|---|---|
| `values.dfy` | JavaScript numbers that may be NaN, and payload values |
| `levels.dfy` | Level arithmetic, angle normalisation and the typed level parser |
| `overwrite.dfy` | The manual override as a class with its own state |
| `temp_cache.dfy` | The per-node property cache with its warn-once rule |
| `rules.dfy` | Rule records, time resolution with Min/Max alternatives, the per-rule acceptance test, both condition pre-passes and the start-up normalisation of rules |
| `blind_rules.dfy`, `clock_rules.dfy` | The two rule scans of each node, the auto-trigger search and the start-up rule loops |
| `sun.dfy` | The blind controller's sun control |
| `blind_control.dfy`, `clock_timer.dfy` | The two nodes as classes: start-up, the override check, and the input handler |

Some values come from the package's configuration node: the comparator outcomes of
the rule clauses, the resolved rule times, the values of typed properties, the sun
position and the payload a rule produces. Each message carries these as given data.

Levels are integers, and NaN ("unknown") is explicit. Dates are ordinal keys inside one
year.

## Model

| member | source | states |
|---|---|---|
| Levels.PosRound | nodes/blind-control.js:112-126 | whatever the requested position, the rounded level lies in [levelBottom, levelTop] |
| Levels.PosRoundOnGrid | nodes/blind-control.js:112-126 | unless the top or bottom cap applied, the rounded level is a multiple of the increment |
| Levels.PosRoundKeepsAligned | nodes/blind-control.js:112-126 | a level already inside the range and on the increment grid is left unchanged |
| Levels.PosRoundMonotone | nodes/blind-control.js:112-126 | a higher requested position never rounds to a lower level |
| Levels.ValidPositionIff | nodes/blind-control.js:27-66 | a requested level is accepted exactly when it is present, a number, inside [levelBottom, levelTop], an integer and a multiple of the increment; with integer settings the allowRound flag makes no difference |
| Levels.PosPrcToAbs | nodes/blind-control.js:73-75 | a fraction of the range becomes a level inside the range |
| Levels.PosPrcToAbsMonotone | nodes/blind-control.js:73-75 | a larger fraction never gives a lower level |
| Levels.PosAbsToPrc | nodes/blind-control.js:82-84 | the fraction is defined exactly when the range is not empty; multiplied by the range it gives the level's distance from the bottom |
| Levels.GetInversePos | nodes/blind-control.js:91-93 | a NaN level, or any level of an empty range, gives NaN; any other level gives top + bottom - level rounded to the grid, which lies inside the range |
| Levels.FractionScalesBack | nodes/blind-control.js:73-93 | a level's fraction scaled back over the range is the level itself; the complementary fraction gives top + bottom - level |
| Levels.InverseInvolutive | nodes/blind-control.js:91-93 | mirroring twice returns every level the blind can take, when both ends of the range lie on the grid |
| Levels.PercentRoundTrip | nodes/blind-control.js:73-84 | converting a level on the grid to a fraction and back gives the same level |
| Levels.AngleNorm | nodes/blind-control.js:132-140 | the result lies in [0, 360] and differs from the input by whole turns; an angle already in [0, 360] is returned unchanged |
| Levels.BlindPosFromTI | nodes/blind-control.js:246-283 | a 'none'/''/'levelND' type gives the default, with a default of 0 turned into NaN; a fixed percentage below 1 gives the bottom, above 99 the top, and otherwise that fraction of the range; a fixed text naming 'close' gives the bottom, else one naming 'open' the top, else the default; a property level is taken as read, or mirrored by getInversePos_ for a reversed blind |
| Levels.FixedLevelMonotone | nodes/blind-control.js:264-270 | a larger fixed percentage never gives a lower level |
| Overwrites.Overwrite.constructor | nodes/blind-control.js:1084-1088 | the override starts inactive, with importance 0, no expiry, no timer and the configured default expiry |
| Overwrites.Overwrite.Reset | nodes/blind-control.js:289-306 | afterwards the override is inactive, has importance 0, and has no expiry, expiry time or pending timer |
| Overwrites.Overwrite.SetExpiring | nodes/blind-control.js:314-347 | the old timer is cancelled; NaN stands for the configured default; the override expires exactly when the duration is finite and positive, and then at now + duration with a timer armed; active and importance are kept |
| Overwrites.Overwrite.CheckOverrideReset | nodes/blind-control.js:355-374 | an override past its expiry time is reset, and so is any override for a significant message that asks for a reset; otherwise nothing changes |
| Overwrites.Overwrite.ReasonCode | nodes/blind-control.js:379-402 | there is a reason exactly while the override is active: 3 when it has an expiry time, 2 otherwise |
| Overwrites.Overwrite.CheckImportance | nodes/blind-control.js:412-433 | with exact importance a message is significant iff its importance equals the stored one, otherwise iff the stored one is at most the message's; a message without importance is never significant but may still reset; the override blocks the message exactly when afterwards it is active with importance > 0 and the message is not significant |
| Overwrites.Overwrite.Refresh | nodes/blind-control.js:440-452 | a message with no new level for an active override re-arms the expiry only for a finite expire, and replaces the importance only with a positive one |
| Overwrites.Overwrite.Engage | nodes/blind-control.js:478-491 | a finite expire, or an importance ≤ 0, sets the expiry from the message; otherwise a rising importance (not exact) or a missing expiry time applies the default expiry; otherwise the old expiry stays; a positive importance is stored; the override ends up active |
| TempCache.Cache.constructor | nodes/blind-control.js:1041 | the cache, the warned set and the warning list start empty |
| TempCache.Cache.StartMessage | nodes/blind-control.js:1216-1217 | a new message forgets the warnings and keeps the cached values |
| TempCache.Cache.Eval | nodes/blind-control.js:184-203 | a present value is cached under `type.value` and returned; a missing one gives the cached value if any, leaving the warnings alone, else undefined with at most one warning per property and message; only present values are ever cached |
| TempCache.WarnOnce | nodes/clock-timer.js:28-47 | two reads of the same missing property in one message add exactly one warning |
| Rules.RuleTimeData | nodes/blind-control.js:697-769 | a time error gives -1 and no day; a missing time throws, and so does every Min or Max alternative that is not resolved; otherwise the result is one of the three times, at least the nominal and the Min time and at most the Max time, with the Max time winning |
| Rules.MinSwapKeepsNominalDay | nodes/blind-control.js:733-739 | after a Min swap the day identifier is still the nominal time's day |
| Rules.MaxSwapTakesReplacedDay | nodes/blind-control.js:759-765 | after a Max swap the day identifier is the day of the time that was replaced |
| Rules.FktCheck | nodes/blind-control.js:804-853 | a conditional rule whose condition is false never matches; a rule without a time limit always matches; a time-limited rule matches exactly when it passes the weekday, month, odd/even and date-window filters, its time lies on today's day identifier, is ≥ 0 and is on the pass's side of now; it aborts exactly when the rule gets past its condition and filters and resolving its time throws |
| Rules.FailedTimeNeverMatches | nodes/blind-control.js:847-852 | a time-limited rule whose time failed to resolve never matches |
| Rules.BlindCondIsAnyTrue | nodes/blind-control.js:635-683 | without a false AND clause, the blind controller's condition is true exactly when some clause is true |
| Rules.BlindTrueHasWitness | nodes/blind-control.js:635-683 | a true blind condition always rests on a true clause |
| Rules.FalseThenTrueAnd | nodes/blind-control.js:635-683 | any number of false OR clauses followed by a true AND clause as the last clause (Rules.FalseOrsThenTrueAnd) are true for the blind controller and false for the clock timer |
| Rules.ClockOrIsAnyTrue | nodes/clock-timer.js:272-305 | with OR joins only, the clock timer's condition is true exactly when some clause is true |
| Rules.ClockTrueHasWitness | nodes/clock-timer.js:272-305 | a true clock condition always rests on a true clause |
| Rules.ClockLeadingAndIsFalse | nodes/clock-timer.js:272-305 | a first clause joined by AND is never evaluated, so the condition is false |
| Rules.OrJoinsAgree | nodes/clock-timer.js:272-305 | with OR joins only, both nodes' pre-passes agree, and are true exactly when some clause is true |
| Rules.ClauseJoin | nodes/blind-control.js:1505-1546 | a clause is kept exactly when its operand type is not 'none' and its join, after the default, is not 0; the first clause defaults to OR |
| Rules.Window | nodes/blind-control.js:1486-1502 | a rule has a date window exactly when a start or an end is configured |
| Rules.NormaliseBlind | nodes/blind-control.js:1433-1547 | a rule is time-limited iff its time type is not 'none', and otherwise gets the no-time operator; level operators 3 and 4 become Min and Max without a level; odd and even together are both cleared; the rule is conditional exactly when a clause is kept |
| Rules.NormaliseClock | nodes/clock-timer.js:917-1061 | only a rule with a real time type is time-limited; one that is not loses its time operator and its calendar filters; importance and resetOverwrite are kept; odd and even together are both cleared |
| Rules.LaterTrigger | nodes/blind-control.js:949-960 | the reference for the auto-trigger search over rules lo..hi: it aborts exactly when one of those time-limited rules throws; otherwise the delay never grows, is at most the time left until every rule still ahead, equals the old delay or one of those times, and the type becomes 2 exactly when such a rule exists |
| Rules.NextRuleTrigger | nodes/blind-control.js:949-960 | the loop computes exactly Rules.LaterTrigger for the rules it scans and the delay and type it starts from |
| BlindRules.PrepareRules | nodes/blind-control.js:628-688 | each rule's condition is the blind controller's clause scan (Rules.BlindCondition) |
| BlindRules.ForwardPass | nodes/blind-control.js:855-885 | From rules are skipped; the selected rule is the first forward match that is not Min/Max; every earlier forward match is Min/Max, and the recorded Min and Max rules are the last such matches before it; a throw comes from the first rule the pass reached whose time throws, with every rule before it passed |
| BlindRules.BackwardPass | nodes/blind-control.js:887-906 | going down from the last rule, Until rules are skipped; the selected rule is the first backward match that is not Min/Max, and every backward match above it is Min/Max; the backward Min (Max) match nearest above the selection, the last one the pass meets, replaces the one from the forward pass; a throw comes from the first rule the pass reached whose time throws |
| BlindRules.SelectRule | nodes/blind-control.js:855-906 | the selection is BlindRules.Selected: the first forward match that is not Min/Max, else the first backward match from the top that is not Min/Max; ruleindex is the forward selection or -1; the Min (Max) rule is the last forward Min (Max) match before the forward selection, or, when the backward pass ran, the first backward one above the selection, falling back to the last forward one; the passes throw exactly when BlindRules.SelectionAborts holds: the forward pass reaches a rule whose time throws, or it gets through every rule without a selection and the backward pass reaches one |
| BlindRules.SelectedUnique | nodes/blind-control.js:855-906 | at most one rule satisfies BlindRules.Selected, so the passes' choice is determined |
| BlindRules.AutoTrigger | nodes/blind-control.js:942-961 | with no selection the auto trigger is kept; a selected time-limited rule whose time is ahead lowers the delay to the time left, with type 1; otherwise the later time-limited rules are searched from after ruleindex (Rules.LaterTrigger); the delay never grows and a new delay is the time left until a rule still ahead |
| BlindRules.InitRules | nodes/blind-control.js:1427-1557 | every rule is normalised, lastUntil is the last Until rule and firstFrom the first From rule, each defaulting to the last index |
| BlindRules.OversteerLevel | nodes/blind-control.js:908-941 | a Min/Max rule imposes its level only when that level is above -1 |
| BlindRules.CheckRules | nodes/blind-control.js:779-1015 | the result satisfies BlindRules.Outcome: the id is the selected rule (or -1); an absolute rule gives its level read with default -1, active iff above -1; any other rule and the default give the default level, inactive; code 4 for a rule, 1 for the default; the Min and Max levels are those of the captured Min/Max rules; the auto trigger is BlindRules.AutoTrigger; it throws exactly when BlindRules.Aborts holds: the passes throw, or with an auto trigger the search of the rule times for the selected rule throws; the throwing rule time is one the scans reach |
| BlindRules.ResultFor | nodes/blind-control.js:908-1015 | once the passes have settled, the result satisfies BlindRules.Outcome and throws exactly when, with an auto trigger, BlindRules.AutoTrigger for the selection throws |
| ClockRules.PrepareRules | nodes/clock-timer.js:265-305 | each rule's condition is the clock timer's clause scan (Rules.ClockCondition) |
| ClockRules.ForwardPass | nodes/clock-timer.js:480-502 | only rules up to lastUntil are scanned; From rules are skipped; the first forward match is selected, and none before it matches; a throw comes from the first rule the pass reached whose time throws |
| ClockRules.BackwardPass | nodes/clock-timer.js:504-517 | going down from the last rule, Until rules are skipped; the first backward match is selected, and no later rule matches; a throw comes from the first rule the pass reached whose time throws |
| ClockRules.SelectRule | nodes/clock-timer.js:480-517 | the selection is ClockRules.Selected: the first forward match up to lastUntil, else the first backward match from the top; ruleindex is the forward selection or -1; the passes throw exactly when ClockRules.SelectionAborts holds: the forward pass reaches a throwing rule time before any match up to lastUntil, or nothing matches forward and the backward pass reaches one before any match |
| ClockRules.SelectedUnique | nodes/clock-timer.js:480-517 | at most one rule satisfies ClockRules.Selected, so the passes' choice is determined |
| ClockRules.OutcomeUnique | nodes/clock-timer.js:404-630 | checkRules has one result: two results that satisfy ClockRules.Outcome for the same event are equal |
| ClockRules.OutcomeImportanceBound | nodes/clock-timer.js:914-924 | the importance of checkRules' result is at most the largest importance initialize computes |
| ClockRules.DefaultTrigger | nodes/clock-timer.js:619-627 | with no selection, the first time-limited rule and then, when different, the first From rule are looked at for the next day; the delay never grows and a new delay is the time left until a rule still ahead |
| ClockRules.SelectedTrigger | nodes/clock-timer.js:531-550 | a selected time-limited rule whose time is ahead lowers the delay to the time left, with type 1; otherwise the later rules are searched from after ruleindex, and the first time-limited rule only when none of them set type 2 |
| ClockRules.AutoTrigger | nodes/clock-timer.js:519-627 | the default or the selected-rule auto trigger; the delay never grows, a new delay is the time left until a rule still ahead, and an abort comes from a rule time |
| ClockRules.FindDefaultTrigger | nodes/clock-timer.js:619-627 | the code computes exactly ClockRules.DefaultTrigger |
| ClockRules.FindSelectedTrigger | nodes/clock-timer.js:531-550 | the code computes exactly ClockRules.SelectedTrigger |
| ClockRules.CheckRules | nodes/clock-timer.js:404-630 | the result satisfies ClockRules.Outcome: the id is the selected rule (or -1); a rule gives code 4 with its importance and reset flag, the default importance 0, no reset and code 1; the auto trigger is exactly ClockRules.AutoTrigger, never later than before, and any new delay is the time left until a rule still ahead; it throws exactly when ClockRules.Aborts holds: the passes throw, or with an auto trigger the search of the rule times for the selection (or the default) throws |
| ClockRules.InitRules | nodes/clock-timer.js:910-1062 | every rule is normalised; lastUntil is the last Until rule, firstFrom the first From rule (both defaulting to the last index) and firstTimeLimited the first time-limited rule (the rule count when there is none); maxImportance is the largest importance, at least 0; canResetOverwrite holds iff some rule resets |
| Sun.SunTrigger | nodes/blind-control.js:147-172 | the delay never grows; type 3 while the sun is down, 4 while it is behind the house (azimuth ≤ 72), both keeping the delay; while the sun approaches the window, type 5 with the delay cut to ten minutes; in the window, type 6 with the delay cut to the smooth time when one is set, else type 7 cut to five minutes; unchanged past the window |
| Sun.FirstHit | nodes/blind-control.js:211-237 | the first oversteer entry whose comparison holds, with every earlier comparison false; nothing when none holds before a comparison throws |
| Sun.SunGeometry | nodes/blind-control.js:561-575 | the level lies in the range: the bottom up to the window's bottom, the top from its top, and the interpolated level between them |
| Sun.SunGeometryMonotone | nodes/blind-control.js:561-575 | the deeper the sun shines into the room, the higher the level |
| Sun.SunGeometryInverse | nodes/blind-control.js:561-575 | at every height the inverse the geometry gives is getInversePos_ of its level, when both ends of the range lie on the grid |
| Sun.Smoothed | nodes/blind-control.js:577-600 | code 11 exactly while the smoothing time runs, keeping the previous level; otherwise code 14 exactly when a minimum delta is set, the change to the geometric level is below it and that level lies strictly inside the range, keeping the previous level; code 9 otherwise, taking the geometric level and restarting the smoothing time |
| Sun.ClampMinMax | nodes/blind-control.js:601-617 | a level below levelMin becomes levelMin (code 5); otherwise one above levelMax becomes levelMax (code 6); nothing changes otherwise; when levelMin ≤ levelMax the result lies between them |
| Sun.ClampIdempotent | nodes/blind-control.js:601-617 | clamping twice is clamping once |
| Sun.SunControl | nodes/blind-control.js:504-620 | the ladder in order: outside the window, levelMin with code 13 in winter mode and the level kept with code 8 otherwise; below the minimum altitude in summer mode, code 7; an oversteer hit, code 10; winter mode, levelMax with code 12; otherwise the smoothed and clamped geometric level |
| Sun.SunFollowsHeight | nodes/blind-control.js:561-600 | under free sun control the blind follows the sun's geometric level, and a deeper sun never lowers it |
| BlindControlNode.ExpiredMsg | nodes/blind-control.js:342-346 | the expiry message only triggers: no level, no importance, no reset |
| BlindControlNode.RuleLimit | nodes/blind-control.js:1257-1271 | below the rule minimum gives the minimum with code 15; otherwise above the rule maximum gives the maximum with code 26; the level is unchanged otherwise; when min ≤ max the result respects both |
| BlindControlNode.RangeLimit | nodes/blind-control.js:1272-1281 | a known level ends up inside [levelBottom, levelTop], and a changed one has the other end as inverse; NaN stays NaN |
| BlindControlNode.LimitsKeepRuleBounds | nodes/blind-control.js:1257-1281 | rule bounds inside the range survive the final range limit |
| BlindControlNode.Decided | nodes/blind-control.js:1252-1281 | the decided level lies in the range or is NaN, and respects a rule Min/Max inside the range whose minimum is not above its maximum |
| BlindControlNode.ManualLevels | nodes/blind-control.js:410-491 | the level the override check leaves: kept for a blocked or trigger-only message, a message without a level, an invalid level or an ignored repeat; unknown for -1; otherwise the message's level as level and inverse; a changed level is unknown or aligned to the increment |
| BlindControlNode.Payload | nodes/blind-control.js:1299-1305 | a reversed blind sends the inverse; a NaN level falls back to the previous one |
| BlindControlNode.SmoothTime | nodes/blind-control.js:1027-1040 | smoothing is on exactly for a finite time between 0 and 0x7FFFFFFF; otherwise the time reads as not positive |
| BlindControlNode.BlindControl.constructor | nodes/blind-control.js:1023-1161 | inverted open/closed settings are swapped and the blind marked reversed; default, minimum, maximum and oversteer levels come from the typed inputs; azimuths are normalised; rules are normalised with lastUntil and firstFrom; the level starts unknown, code 0, previous code -1 |
| BlindControlNode.BlindControl.SetOverwriteReason | nodes/blind-control.js:379-402 | it reports whether the override is active, and then sets its reason code |
| BlindControlNode.BlindControl.CheckBlindPosOverwrite | nodes/blind-control.js:410-495 | a blocking override keeps level and override; a trigger, or a message without a level, never starts an override; -1 makes the level unknown but keeps the override active; a message without a level refreshes an active, non-blocking override's expiry and importance; an invalid level leaves level and override alone; a valid level sets level and inverse to it, stores a positive importance, and activates; the answer is true exactly when the override is active and the message is not an invalid level (BlindControlNode.InvalidLevel); the level is BlindControlNode.ManualLevels of the message, whether the override blocked it, and the level before |
| BlindControlNode.BlindControl.SetManualLevel | nodes/blind-control.js:455-491 | the level is rejected exactly when it is not -1 and not a valid position; -1 forgets the level; a valid level becomes level and inverse unless the message ignores a repeat of the previous level; only a level that is set engages the override, storing a positive importance; otherwise level and override are unchanged |
| BlindControlNode.BlindControl.ApplyRules | nodes/blind-control.js:942-1011 | the rules' result satisfies BlindRules.Outcome for the event's rules and the auto trigger so far; the node takes its level with getInversePos_, its code and its auto trigger; it throws exactly when BlindRules.Aborts holds for the event, and then changes nothing |
| BlindControlNode.BlindControl.CalcBlindSunPosition | nodes/blind-control.js:504-620 | the node takes Sun.SunControl's level, code and smoothing time for the first oversteer hit, and Sun.SunTrigger's auto trigger |
| BlindControlNode.BlindControl.StartInput | nodes/blind-control.js:1216-1246 | a known level becomes the previous one; the reason is cleared; the auto trigger returns to its default; a requested mode between 0 and the configured one is taken |
| BlindControlNode.BlindControl.Decide | nodes/blind-control.js:1248-1282 | the override decides exactly when it is active and the message is not an invalid level (BlindControlNode.InvalidLevel); it decides with its reason and leaves the level BlindControlNode.ManualLevels gives; otherwise the handler throws exactly when BlindRules.Aborts holds, changing nothing, and else the rules' result satisfies BlindRules.Outcome, the level and code are BlindControlNode.Decided of it (rule or sun level, rule Min/Max, range), and the sun control's smoothing time and auto trigger are taken exactly when it runs |
| BlindControlNode.BlindControl.DecideByRules | nodes/blind-control.js:1252-1281 | the rules' result satisfies BlindRules.Outcome and the node takes BlindControlNode.Decided of it; it throws exactly when BlindRules.Aborts holds for the event, and then changes nothing |
| BlindControlNode.BlindControl.Input | nodes/blind-control.js:1200-1365 | the previous level and reason are recorded; the output carries the payload level and, as the inverse, the other one of the pair, each falling back to the previous value when unknown; an output is an override output exactly when the override is active and the message is not an invalid level, and it keeps the level BlindControlNode.ManualLevels gives; an exception happens only when BlindRules.Aborts holds for the configured auto-trigger time, and a rule output only when it does not; when the rules decide, some result of checkRules satisfies BlindRules.Outcome and gives the level and, outside the start delay, the code through BlindControlNode.Decided; a message goes out exactly when level and reason are known and level, reason or rule changed, so an input that leaves them as they were sends nothing; an exception changes neither the rule nor the timer |
| BlindControlNode.BlindControl.Handle | nodes/blind-control.js:1248-1365 | after the start of the handler: the decision and the end, with the same facts as Input in terms of the state the start left |
| BlindControlNode.BlindControl.Finish | nodes/blind-control.js:1299-1365 | the reason is cleared while the start delay runs; the output carries the payload level and the inverse payload (the inverse for a blind that is not reversed, the level for a reversed one, the previous value where it is unknown) and sends exactly when level and reason are known and level, reason or rule changed; the rule is recorded and the auto trigger re-armed |
| BlindControlNode.BlindControl.OnOverwriteExpired | nodes/blind-control.js:342-346 | the expiry resets the override, and the following input is not decided by it |
| BlindControlNode.BlindControl.OnStartDelay | nodes/blind-control.js:1559-1571 | the start delay ends before the trigger is handled |
| ClockTimerNode.ExpiredMsg | nodes/clock-timer.js:107-111 | the expiry message only triggers, with payload -1 |
| ClockTimerNode.OverrideData | nodes/clock-timer.js:199-213 | override data comes only from a payload under a 'manual'/'overwrite' topic, or from the `value` of an object payload that also gives `expires` or `importance`; a trigger or an undefined payload carries none; a null payload outside a manual topic throws |
| ClockTimerNode.Expire | nodes/clock-timer.js:214-217 | a 'noExpir' topic forces the expiry to -1 |
| ClockTimerNode.ClockTimer.constructor | nodes/clock-timer.js:637-685 | rules are normalised with their indexes, largest importance and reset flag; the payload starts undefined, code 0, previous code -1; the default auto trigger is 20 minutes |
| ClockTimerNode.ClockTimer.SetOverwriteReason | nodes/clock-timer.js:144-167 | it reports whether the override is active, and then sets its reason code |
| ClockTimerNode.ClockTimer.CheckPosOverwrite | nodes/clock-timer.js:175-256 | the answer is whether the override is active afterwards, with its reason code when true; a blocking override keeps payload and override; unreadable override data throws; a message without override data never starts an override; new data becomes the payload and activates the override; an active override without new data only has its expiry and importance refreshed |
| ClockTimerNode.ClockTimer.StartInput | nodes/clock-timer.js:738-755 | the payload type and reason become the previous ones, and a simple payload the previous value; the reason is cleared; the auto trigger returns to its default |
| ClockTimerNode.ClockTimer.EvaluateRules | nodes/clock-timer.js:404-630 | the rules' result satisfies ClockRules.Outcome for the event's rules and the auto trigger so far, and the node takes its auto trigger; it throws exactly when ClockRules.Aborts holds for the event, and then keeps the auto trigger |
| ClockTimerNode.ClockTimer.Arbitrate | nodes/clock-timer.js:766-783 | the rules are consulted exactly when there is no override, a rule can reset, or the largest importance beats the override's; a consulted result satisfies ClockRules.Outcome; a resetOverwrite rule clears the override only when it was not already the last input's rule; a rule applies only with no remaining override or a strictly larger importance, and then sets the rule's payload (the default for -1) and reason; it throws exactly when the rules are consulted and ClockRules.Aborts holds |
| ClockTimerNode.ClockTimer.SkippedRulesKeepOverride | nodes/clock-timer.js:766 | when an active override skips the rules (no rule can reset, and the largest importance does not beat the override's), no selected rule resets or outranks it |
| ClockTimerNode.ClockTimer.SelectedRuleDecides | nodes/clock-timer.js:766-783 | once checkRules has selected a rule, whether a rule resets or outranks the override is decided by that rule alone |
| ClockTimerNode.ClockTimer.Decide | nodes/clock-timer.js:758-783 | a rule decides exactly when no override remains active or the rule checkRules selects has a larger importance than it (ClockTimer.RuleOutranks); an override that blocked the message gives way exactly when the selected rule resets it or outranks it (ClockTimer.RuleOverrides), so an important override that no rule resets keeps the payload; the override keeps the payload it set (or the one before) with its reason; otherwise the rules' result satisfies ClockRules.Outcome and the payload is the selected rule's or the default, with its code; an unreadable override value that is not blocked always throws; otherwise the handler throws only when ClockRules.Aborts holds; a rule decision means the rules did not throw, and an override decision means the rules were not consulted or did not throw |
| ClockTimerNode.ClockTimer.Input | nodes/clock-timer.js:722-846 | a message goes out exactly when the payload is neither undefined, null nor 'none', the reason is known, and reason, rule, payload type or the last simple value changed, so an input that repeats reason, rule and a simple payload sends nothing; the rule id is -2 exactly when the override stays active and the selected rule (for the configured auto-trigger time) does not outrank it, and a blocking override gives way exactly when that rule resets or outranks it; rule id -2 keeps the override payload and, outside the start delay, the override's reason code; otherwise some result of checkRules for the configured auto-trigger time satisfies ClockRules.Outcome and gives payload and code; the rule is recorded and the auto trigger re-armed; an exception changes neither; an exception happens exactly for an unreadable override value that is not blocked, or else only when ClockRules.Aborts holds for the configured auto-trigger time; a rule output means the rules did not throw, and an override output that the rules were not consulted or did not throw |
| ClockTimerNode.ClockTimer.Handle | nodes/clock-timer.js:758-846 | after the start of the handler: the decision and the end, with the same facts as Input in terms of the state the start left |
| ClockTimerNode.ClockTimer.Finish | nodes/clock-timer.js:789-846 | the reason is cleared while the start delay runs; the output sends exactly when the payload is neither undefined, null nor 'none', the reason is known, and reason, rule, payload type or the last simple value changed; the rule is recorded and the auto trigger re-armed |
| ClockTimerNode.ClockTimer.OnOverwriteExpired | nodes/clock-timer.js:107-111 | the expiry resets the override, and the following input is not decided by it |
| ClockTimerNode.ClockTimer.OnStartDelay | nodes/clock-timer.js:1064-1076 | the start delay ends before the trigger is handled |

## Left out

- Node-RED plumbing is left out: node creation and registration, `send` and `done`, status colours, topics and `topicReplace`, localised reason texts, and logging.
- The external helpers are given data, not models: the configuration node's time resolution, comparator, typed-property reader, sun calculation and output-payload builder (`getOutDataProp`), and the message readers `getMsgNumberValue` and `getMsgBoolValue`.
- An exception thrown by `getOutDataProp` is not modelled.
- Timers are flags, not clocks. The pending override timer is `timerArmed`; the pending auto trigger is `atTimer`, holding its delay; the start delay is `startDelayPending`. The random start delay of 2 to 10 seconds, and its cap at 2147483646 ms, are not modelled.
- The synthetic input sent by the override timer is an argument of OnOverwriteExpired. That the message helpers read its topic as a trigger is taken as given.
- Floating point is not modelled:
  - levels, the increment and the auto-trigger delays are integers;
  - the `toFixed`/`countDecimals` precision steps are not modelled;
  - the projected height `tan(altitude) * floorLength` is an input.
- Calendar dates are in-year keys. `setFullYear` therefore changes nothing, and a date window's leap-day shift between years is not captured.
- The context-store persistence of the cache (`node.context().get/set`) is not modelled. Neither are the `isChecked` flag of the oversteer and the extra cache writes of the oversteer properties after the decision.
- Levels.ValidPosition: its last test, `level / increment` as an integer with the `toFixed` rounding, always passes once a level is an integer multiple of the increment, so `allowRound` has no effect here.
- BlindControlNode.BlindControl.constructor requires a positive increment. A zero or negative increment makes the rounding divide by zero in the original.
- BlindControlNode.SmoothTime: a time of 0x7FFFFFFF or more is deleted in the original, which leaves `changeAgain` NaN after a sun step. The model reads it as -1, which has the same effect on every test that uses it.
- BlindControlNode.BlindControl.CheckBlindPosOverwrite: a manual level sets the inverse to the same value, as the original does. An invalid level returns false even while the override stays active. The model keeps both.
- Rules.RuleTimeData: an unresolved Min or Max alternative always throws. The original reads its value before testing for the error, and the error branch names a field that does not exist. The model follows what the code does.
- In the backward pass of the blind controller, a Min/Max match replaces the one recorded by the forward pass, as in the code.
- Levels.AngleNorm keeps 360 itself, as the loops do, so its range is [0, 360].
- The clock timer's payload values are integers, strings, booleans and objects compared by identity. NaN and fractional payload numbers are not modelled.
- The updates to `node.autoTrigger` made before a rule time throws are discarded in the model. The original leaves them behind, but re-arms no timer.
- Rule names, `getName`/`getNameShort`, and the time and offset fields the configuration node reads are not modelled.
- `getRealLevel_` and `node.level.topic` feed only texts and topics, so they are not modelled.
