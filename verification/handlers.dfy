/**
 * The state logic of the three request handlers of the server, each a pure
 * step from the code table, the usage history and the current time to a reply
 * and the next usage history.
 */
module Handlers {
  import opened AccessCodes
  import opened UsageHistory
  import opened ProviderErrors

  /** Reply of the verify-access handler; the description text is not modelled. */
  datatype VerifyReply = Granted(kind: string, usesLeft: Uses) | Denied

  /** Verifies `code` at time `now`. A first use creates the record and
      consumes one use; a later use applies the cooldown reset, then consumes
      one use if any are left. An unlimited code is never decremented. */
  function VerifyAccess(t: Table, h: History, code: string, now: int): (r: (VerifyReply, History))
    // unknown codes are refused and change nothing
    ensures code !in t ==> r.0 == Denied && r.1 == h
    // only the record of a known code can change or appear
    ensures r.1.Keys == h.Keys + (if code in t then {code} else {})
    ensures SameElsewhere(h, r.1, code)
    // first use: the record starts at one use below the nominal count and the
    // reply reports the stored count
    ensures code in t && code !in h ==>
      && r.0 == Granted(t[code].kind, r.1[code].uses)
      && r.1[code] == Usage(t[code].uses.Minus1(), now, now)
      && (t[code].uses.Finite? ==> r.1[code].uses.n == t[code].uses.n - 1)
    // later use: granted exactly when the record, after the reset step, still
    // has uses or the code is unlimited
    ensures code in t && code in h ==>
      var after := CheckAndResetCooldown(code, t[code], h, now).1[code];
      && (r.0.Granted? <==> after.uses.Positive() || t[code].uses.Unlimited?)
      && (r.0.Granted? ==>
            && r.0 == Granted(t[code].kind, after.uses)
            && r.1[code].lastUsed == now
            && r.1[code].lastReset == after.lastReset
            && (t[code].uses.Unlimited? ==> r.1[code].uses == Unlimited)
            && (t[code].uses.Finite? && after.uses.Finite? ==> r.1[code].uses == Finite(after.uses.n - 1)))
    // a refused later use keeps whatever the reset step wrote
    ensures code in t && code in h && r.0.Denied? ==> r.1 == CheckAndResetCooldown(code, t[code], h, now).1
    // a refusal changes nothing, given a nominal count of at least one
    ensures r.0.Denied? && (code in t ==> t[code].NominalOk()) ==> r.1 == h
  {
    if code !in t then (Denied, h)
    else
      var def := t[code];
      if code !in h then
        (Granted(def.kind, def.uses.Minus1()), h[code := Usage(def.uses.Minus1(), now, now)])
      else
        var h1 := CheckAndResetCooldown(code, def, h, now).1;
        var u := h1[code];
        if u.uses.Positive() || def.uses.Unlimited? then
          var left := if def.uses.Unlimited? then Unlimited else u.uses.Minus1();
          (Granted(def.kind, u.uses), h1[code := u.(uses := left, lastUsed := now)])
        else
          (Denied, h1)
  }

  /** Outcome of the chat-completion call, which the model does not perform. */
  datatype ProviderOutcome = Completion(content: string) | ProviderFailure(message: string)

  /** A provider failure carries its classification and the text sent to the user. */
  datatype ChatError = InvalidCode | OutOfUses | Provider(kind: ErrorKind, text: string)

  datatype ChatReply = Answer(content: string, usesLeft: Uses, kind: string) | ChatFailed(error: ChatError)

  /** The chat gate: a record may chat when its code is unlimited or when it
      still has uses above zero; a finite code at or below zero is refused. */
  predicate MayChat(def: CodeDef, u: Usage)
  {
    u.uses.Positive() || def.uses.Unlimited?
  }

  /** Handles a chat request for `code`, as one atomic step. The gate refuses
      unknown codes, codes without a record and exhausted finite codes; the
      provider is then consulted through `outcome`, and a completion finishing
      at time `doneAt` only refreshes the record's last-use time. */
  function Chat(t: Table, h: History, code: string, outcome: ProviderOutcome, doneAt: int): (r: (ChatReply, History))
    ensures code !in t ==> r.0 == ChatFailed(InvalidCode)
    ensures code in t && (code !in h || !MayChat(t[code], h[code])) ==> r.0 == ChatFailed(OutOfUses)
    ensures r.0.Answer? <==> code in t && code in h && MayChat(t[code], h[code]) && outcome.Completion?
    ensures r.0.Answer? ==> r.0 == Answer(outcome.content, h[code].uses, t[code].kind)
    ensures r.0.ChatFailed? && r.0.error.Provider? ==>
      outcome.ProviderFailure? && r.0.error.kind == Classify(outcome.message)
    // a provider failure past the gate is always reported through the classifier
    ensures code in t && code in h && MayChat(t[code], h[code]) && outcome.ProviderFailure? ==>
      r.0 == ChatFailed(Provider(Classify(outcome.message), Text(Classify(outcome.message))))
    // chat never creates a record and never touches uses or reset times
    ensures r.1.Keys == h.Keys
    ensures SameElsewhere(h, r.1, code)
    ensures code in h ==> r.1[code] == h[code].(lastUsed := r.1[code].lastUsed)
    ensures r.0.Answer? ==> r.1[code].lastUsed == doneAt
    ensures r.0.ChatFailed? ==> r.1 == h
  {
    if code !in t then (ChatFailed(InvalidCode), h)
    else if code !in h || !MayChat(t[code], h[code]) then (ChatFailed(OutOfUses), h)
    else
      match outcome
      case Completion(content) =>
        (Answer(content, h[code].uses, t[code].kind), h[code := h[code].(lastUsed := doneAt)])
      case ProviderFailure(message) =>
        var kind := Classify(message);
        (ChatFailed(Provider(kind, Text(kind))), h)
  }

  /** Reply of the status handler; the description text is not modelled. */
  datatype StatusReply = StatusOk(usesLeft: Uses, timeToReset: int, kind: string) | StatusFailed

  /** Reports the stored uses of `code` and the time left until its next
      reset. It is read-only: no reset is applied before reporting. */
  function CheckStatus(t: Table, h: History, code: string, now: int): (r: StatusReply)
    ensures r.StatusOk? <==> code in t && code in h
    ensures r.StatusOk? ==> r.usesLeft == h[code].uses && r.kind == t[code].kind
    ensures r.StatusOk? ==> r.timeToReset >= 0
    ensures r.StatusOk? && !t[code].HasCooldown() ==> r.timeToReset == 0
    // for a code with a cooldown the reported wait ends exactly when a reset
    // becomes due
    ensures r.StatusOk? && t[code].HasCooldown() ==>
      && (r.timeToReset == 0 <==> ResetDue(t[code], h[code], now))
      && ResetDue(t[code], h[code], now + r.timeToReset)
      && (r.timeToReset > 0 ==> !ResetDue(t[code], h[code], now + r.timeToReset - 1))
      && (now >= h[code].lastReset ==> r.timeToReset <= t[code].cooldown.ms)
  {
    if code in t && code in h then
      var def := t[code];
      var left := if def.HasCooldown() then Max(0, def.cooldown.ms - (now - h[code].lastReset)) else 0;
      StatusOk(h[code].uses, left, def.kind)
    else
      StatusFailed
  }

  function Max(a: int, b: int): int
  {
    if a >= b then a else b
  }
}
