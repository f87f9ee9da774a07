/**
 * The per-code usage history: for every code that has been verified at least
 * once, its remaining uses and the times of its last reset and last use. The
 * module also holds the cooldown reset, the one operation the server performs
 * on a record before consuming from it.
 */
module UsageHistory {
  import opened AccessCodes

  /** A usage record; times are milliseconds since the epoch. */
  datatype Usage = Usage(uses: Uses, lastReset: int, lastUsed: int)

  type History = map<string, Usage>

  /** A remaining count agrees with its nominal count: unlimited codes stay
      unlimited, finite codes stay between zero and the nominal count. */
  predicate Bounded(nominal: Uses, u: Uses)
  {
    match nominal
    case Unlimited => u == Unlimited
    case Finite(n) => u.Finite? && 0 <= u.n <= n
  }

  /** The invariant of the server state: records exist only for known codes,
      and every record is bounded by its code's nominal count. */
  predicate Consistent(t: Table, h: History)
  {
    forall code :: code in h ==> code in t && Bounded(t[code].uses, h[code].uses)
  }

  /** `h'` differs from `h` at most in the record of `code`. */
  predicate SameElsewhere(h: History, h': History, code: string)
  {
    && (forall c :: c in h && c != code ==> c in h' && h'[c] == h[c])
    && (forall c :: c in h' && c != code ==> c in h)
  }

  /** The cooldown of `def` has fully elapsed since the record's last reset. */
  predicate ResetDue(def: CodeDef, u: Usage, now: int)
  {
    def.HasCooldown() && now - u.lastReset >= def.cooldown.ms
  }

  /** Restores the uses of `code` to the nominal count of `def` once its
      cooldown has elapsed. The result is true when there is no record at all or
      when the record was reset. */
  function CheckAndResetCooldown(code: string, def: CodeDef, h: History, now: int): (r: (bool, History))
    ensures r.1.Keys == h.Keys
    ensures SameElsewhere(h, r.1, code)
    ensures r.0 <==> code !in h || ResetDue(def, h[code], now)
    ensures !r.0 ==> r.1 == h
    ensures r.1 != h ==> code in h && ResetDue(def, h[code], now)
    ensures code in h && r.0 ==> r.1[code].uses == def.uses && r.1[code].lastReset == now
    ensures code in h ==> r.1[code].lastUsed == h[code].lastUsed
  {
    if code !in h then (true, h)
    else if ResetDue(def, h[code], now) then
      (true, h[code := Usage(def.uses, now, h[code].lastUsed)])
    else (false, h)
  }

  /** A reset of a well-formed code keeps the state consistent. */
  lemma ResetKeepsConsistent(t: Table, h: History, code: string, now: int)
    requires WellFormed(t) && Consistent(t, h)
    requires code in t
    ensures Consistent(t, CheckAndResetCooldown(code, t[code], h, now).1)
  {
  }
}
