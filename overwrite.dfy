/** The manual override ("overwrite") both nodes keep: whether it is active, its importance,
    its expiry and the timer that ends it. The blind controller keeps it in
    `blindData.overwrite`, the clock timer in `nodeData.overwrite`; the timer is
    `node.timeOutObj`. */
module Overwrites {
  import opened Values

  class Overwrite {
    var active: bool
    var importance: int
    /** `expires`; absent reads as false. */
    var expires: bool
    /** `expireTs`; None when the property is deleted. */
    var expireTs: Option<int>
    /** A timer is pending that resets the override and sends the node an input. */
    var timerArmed: bool
    /** The configured default expiry (parseFloat of the setting; NaN when unset). */
    const expireDuration: MsgNumber

    /** An expiring override has its time and its timer, only an active override
        expires, and the importance is never negative. */
    predicate Valid()
      reads this
    {
      (expires <==> timerArmed) && (expires <==> expireTs.Some?) && (expires ==> active) && importance >= 0
    }

    /** `expireTs` read as a condition: present and not 0. */
    predicate HasExpireTs()
      reads this
    {
      expireTs.Some? && expireTs.value != 0
    }

    constructor(expireDuration: MsgNumber)
      ensures Valid() && this.expireDuration == expireDuration
      ensures !active && importance == 0 && !expires && expireTs.None? && !timerArmed
    {
      this.expireDuration := expireDuration;
      active, importance, expires, expireTs, timerArmed := false, 0, false, None, false;
    }

    /** The expiry a message asks for, NaN standing for the configured default. */
    function EffectiveExpiry(d: MsgNumber): MsgNumber
      reads this
    {
      if d.NotNumber? then expireDuration else d
    }

    /** setOverwriteReason: while the override is active, reason 3 when it has an expiry
        time and 2 otherwise; None means the function returns false. */
    function ReasonCode(): (r: Option<int>)
      reads this
      ensures r.Some? <==> active
      ensures r.Some? ==> r.value in {2, 3} && (r.value == 3 <==> HasExpireTs())
    {
      if !active then None else if HasExpireTs() then Some(3) else Some(2)
    }

    /** Whether a message importance `p` may touch the override: equal to the stored
        importance when `exact`, at least it otherwise. */
    predicate Significant(exact: bool, p: int)
      reads this
    {
      if exact then importance == p else importance <= p
    }

    /** blindPosOverwriteReset / posOverwriteReset. */
    method Reset()
      modifies this
      requires Valid()
      ensures Valid()
      ensures !active && importance == 0 && !expires && expireTs.None? && !timerArmed
    {
      active := false;
      importance := 0;
      if timerArmed {
        timerArmed := false;
      }
      if HasExpireTs() || expires {
        expires := false;
        expireTs := None;
      }
    }

    /** setExpiringOverwrite: the old timer is cancelled; NaN means the configured
        default; the override expires exactly when that is a finite number above 0, and then
        ends that long after now. Nothing else changes. */
    method SetExpiring(now: int, d: MsgNumber)
      modifies this
      ensures var e := old(EffectiveExpiry(d));
              expires == (e.Finite? && e.v > 0) && timerArmed == expires
              && expireTs == (if expires then Some(now + e.v) else None)
      ensures expires ==> expireTs.value > now
      ensures active == old(active) && importance == old(importance)
    {
      if timerArmed {
        timerArmed := false;
      }
      var e := if d.NotNumber? then expireDuration else d;
      expires := e.Finite? && e.v > 0;
      if !expires {
        expireTs := None;
        return;
      }
      expireTs := Some(now + e.v);
      timerArmed := true;
    }

    /** checkOverrideReset: an expired override is reset; so is any override when the
        message is significant and asks for a reset. */
    method CheckOverrideReset(now: int, significant: bool, resetFlag: bool)
      modifies this
      requires Valid()
      ensures Valid()
      ensures var expired := old(expires) && old(expireTs).value < now;
              if expired || (significant && resetFlag) then !active && importance == 0 && !expires
              else active == old(active) && importance == old(importance) && expires == old(expires)
                   && expireTs == old(expireTs) && timerArmed == old(timerArmed)
    {
      if expires && expireTs.value < now {
        Reset();
      }
      if significant && resetFlag {
        Reset();
      }
    }

    /** checkOverrideReset resets the override for a message with importance `p` (None:
        the message has none) and reset flag `resetFlag`: it has expired, or the message
        is significant, or has no importance, and asks for a reset. */
    predicate ResetBy(now: int, p: Option<int>, exact: bool, resetFlag: bool)
      reads this
    {
      (expires && expireTs.Some? && expireTs.value < now)
      || ((p.None? || Significant(exact, p.value)) && resetFlag)
    }

    /** The override holds the message off: it survives the reset check, is active with an
        importance, and the message's importance does not reach it. */
    predicate Blocks(now: int, p: Option<int>, exact: bool, resetFlag: bool)
      reads this
    {
      !ResetBy(now, p, exact, resetFlag) && active && importance > 0 && !(p.Some? && Significant(exact, p.value))
    }

    /** The importance prologue of checkBlindPosOverwrite / checkPosOverwrite: the
        message's importance (0 when it has none) and whether it is significant, with the
        reset check run for it. A message without importance is never significant, but
        may still reset the override. */
    method CheckImportance(now: int, p: Option<int>, exact: bool, resetFlag: bool)
      returns (significant: bool, nImportance: int)
      modifies this
      requires Valid()
      ensures Valid()
      ensures significant == (p.Some? && old(Significant(exact, p.value)))
      ensures nImportance == (if p.Some? then p.value else 0)
      ensures old(ResetBy(now, p, exact, resetFlag)) ==> !active && importance == 0 && !expires
      ensures !old(ResetBy(now, p, exact, resetFlag)) ==>
                active == old(active) && importance == old(importance) && expires == old(expires)
                && expireTs == old(expireTs) && timerArmed == old(timerArmed)
      ensures old(Blocks(now, p, exact, resetFlag)) <==> active && importance > 0 && !significant
    {
      if p.Some? {
        nImportance := p.value;
        significant := Significant(exact, nImportance);
        CheckOverrideReset(now, significant, resetFlag);
      } else {
        significant, nImportance := false, 0;
        CheckOverrideReset(now, true, resetFlag);
      }
    }

    /** A message without a new value for an active override: a finite expiry replaces the
        expiry, a positive importance the importance. */
    method Refresh(now: int, nExpire: MsgNumber, nImportance: int)
      modifies this
      requires Valid() && active
      ensures Valid() && active
      ensures nExpire.Finite? ==> expires == (nExpire.v > 0) && (expires ==> expireTs == Some(now + nExpire.v))
      ensures !nExpire.Finite? ==> expires == old(expires) && expireTs == old(expireTs)
      ensures importance == if nImportance > 0 then nImportance else old(importance)
    {
      if nExpire.Finite? {
        SetExpiring(now, nExpire);
      }
      if nImportance > 0 {
        importance := nImportance;
      }
    }

    /** A message that sets the override: the expiry is set from the message when it gives
        a finite one or no positive importance; otherwise the default expiry applies when
        the importance rises (not `exact`) or no expiry time is set yet, and the old expiry
        stays in the remaining case. A positive importance is stored. The override is
        active afterwards. */
    method Engage(now: int, nExpire: MsgNumber, nImportance: int, exact: bool)
      modifies this
      requires Valid()
      ensures Valid() && active
      ensures importance == if nImportance > 0 then nImportance else old(importance)
      ensures nExpire.Finite? || nImportance <= 0 ==>
                var e := old(EffectiveExpiry(nExpire));
                expires == (e.Finite? && e.v > 0) && (expires ==> expireTs == Some(now + e.v))
      ensures !(nExpire.Finite? || nImportance <= 0) && ((!exact && old(importance) < nImportance) || !old(HasExpireTs())) ==>
                expires == (expireDuration.Finite? && expireDuration.v > 0)
                && (expires ==> expireTs == Some(now + expireDuration.v))
      ensures !(nExpire.Finite? || nImportance <= 0) && !((!exact && old(importance) < nImportance) || !old(HasExpireTs())) ==>
                expires == old(expires) && expireTs == old(expireTs)
    {
      if nExpire.Finite? || nImportance <= 0 {
        SetExpiring(now, nExpire);
      } else if (!exact && importance < nImportance) || !HasExpireTs() {
        SetExpiring(now, NotNumber);
      }
      if nImportance > 0 {
        importance := nImportance;
      }
      active := true;
    }
  }
}
