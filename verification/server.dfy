/**
 * The server as a state machine over the usage history: one request at a
 * time, each with its own time stamp, and the invariants that hold after any
 * sequence of requests.
 */
module Server {
  import opened AccessCodes
  import opened UsageHistory
  import opened Handlers

  /** A request together with the time(s) the server reads while handling it. */
  datatype Request =
    | VerifyRequest(code: string, now: int)
    | ChatRequest(code: string, outcome: ProviderOutcome, doneAt: int)
    | StatusRequest(code: string, now: int)

  datatype Response =
    | Verified(verify: VerifyReply)
    | Chatted(chat: ChatReply)
    | Reported(status: StatusReply)

  /** Handles one request. */
  function Step(t: Table, h: History, req: Request): (r: (Response, History))
    // only the requested code's record can change, and only a known code's
    ensures SameElsewhere(h, r.1, req.code)
    ensures r.1.Keys == h.Keys || (req.code in t && r.1.Keys == h.Keys + {req.code})
    // status queries are read-only
    ensures req.StatusRequest? ==> r.1 == h
    // only verify-access creates a record or consumes a use
    ensures !req.VerifyRequest? && req.code in h ==> r.1[req.code].uses == h[req.code].uses
    ensures !req.VerifyRequest? ==> r.1.Keys == h.Keys
  {
    match req
    case VerifyRequest(code, now) =>
      var (v, h') := VerifyAccess(t, h, code, now);
      (Verified(v), h')
    case ChatRequest(code, outcome, doneAt) =>
      var (c, h') := Chat(t, h, code, outcome, doneAt);
      (Chatted(c), h')
    case StatusRequest(code, now) =>
      (Reported(CheckStatus(t, h, code, now)), h)
  }

  /** Handles `reqs` in order, returning every response and the final history. */
  function Run(t: Table, h: History, reqs: seq<Request>): (r: (seq<Response>, History))
    ensures |r.0| == |reqs|
    decreases |reqs|
  {
    if |reqs| == 0 then ([], h)
    else
      var (resp, h1) := Step(t, h, reqs[0]);
      var (rest, h2) := Run(t, h1, reqs[1..]);
      ([resp] + rest, h2)
  }

  /** One request keeps the state consistent. */
  lemma StepKeepsConsistent(t: Table, h: History, req: Request)
    requires WellFormed(t) && Consistent(t, h)
    ensures Consistent(t, Step(t, h, req).1)
  {
  }

  /** The invariant holds after any sequence of requests: finite remaining
      uses stay between zero and the nominal count, unlimited ones stay
      unlimited, and no unknown code ever gets a record. */
  lemma {:induction false} RunKeepsConsistent(t: Table, h: History, reqs: seq<Request>)
    requires WellFormed(t) && Consistent(t, h)
    ensures Consistent(t, Run(t, h, reqs).1)
    decreases |reqs|
  {
    if |reqs| > 0 {
      StepKeepsConsistent(t, h, reqs[0]);
      RunKeepsConsistent(t, Step(t, h, reqs[0]).1, reqs[1..]);
    }
  }

  /** Starting from an empty history, the server's own table keeps every
      finite count within bounds and the unlimited code unlimited. */
  lemma ServerKeepsUsesBounded(reqs: seq<Request>)
    ensures var h := Run(Codes(), map[], reqs).1;
      && Consistent(Codes(), h)
      && ("UNLIMITED123" in h ==> h["UNLIMITED123"].uses == Unlimited)
  {
    RunKeepsConsistent(Codes(), map[], reqs);
  }

  /** Records are never removed, and the only new records are of known codes. */
  lemma {:induction false} RunKeys(t: Table, h: History, reqs: seq<Request>)
    ensures h.Keys <= Run(t, h, reqs).1.Keys <= h.Keys + t.Keys
    decreases |reqs|
  {
    if |reqs| > 0 {
      RunKeys(t, Step(t, h, reqs[0]).1, reqs[1..]);
    }
  }

  /** A code that is not in the table fails in every handler and leaves the
      history unchanged. */
  lemma UnknownCodeChangesNothing(t: Table, h: History, req: Request)
    requires req.code !in t
    ensures Step(t, h, req).1 == h
    ensures match Step(t, h, req).0
      case Verified(v) => v == Denied
      case Chatted(c) => c == ChatFailed(InvalidCode)
      case Reported(s) => s == StatusFailed
  {
  }

  /** A reset happens only on verify-access, only once the cooldown has fully
      elapsed since the last reset, and it moves the reset time to the request's
      time. */
  lemma ResetOnlyWhenDue(t: Table, h: History, req: Request)
    requires req.code in h
    requires Step(t, h, req).1[req.code].lastReset != h[req.code].lastReset
    ensures req.VerifyRequest? && req.code in t
    ensures ResetDue(t[req.code], h[req.code], req.now)
    ensures Step(t, h, req).1[req.code].lastReset == req.now
  {
  }

  /** Codes without a cooldown keep the reset time of their first use forever;
      in particular the unlimited code is never reset. */
  lemma {:induction false} NoCooldownNeverResets(t: Table, h: History, reqs: seq<Request>, code: string)
    requires code in t && !t[code].HasCooldown() && code in h
    ensures code in Run(t, h, reqs).1
    ensures Run(t, h, reqs).1[code].lastReset == h[code].lastReset
    decreases |reqs|
  {
    if |reqs| > 0 {
      var h1 := Step(t, h, reqs[0]).1;
      assert code in h1;
      if h1[code].lastReset != h[code].lastReset {
        ResetOnlyWhenDue(t, h, reqs[0]);
        assert false;
      }
      NoCooldownNeverResets(t, h1, reqs[1..], code);
    }
  }

  /** Verify-access requests for `code` at the given times. */
  function VerifyRequests(code: string, times: seq<int>): seq<Request>
  {
    seq(|times|, i requires 0 <= i < |times| => VerifyRequest(code, times[i]))
  }

  /** The number of granted verify-access replies among `rs`. */
  function GrantedCount(rs: seq<Response>): nat
  {
    if |rs| == 0 then 0
    else (if rs[0].Verified? && rs[0].verify.Granted? then 1 else 0) + GrantedCount(rs[1..])
  }

  function Min(a: int, b: int): int
  {
    if a <= b then a else b
  }

  /** Within one cooldown window a finite code with `k` uses left grants
      exactly `min(k, n)` of `n` verify-access requests: no use is spent twice
      and no refused request costs a use. */
  lemma {:induction false} VerifiesWithinWindow(t: Table, h: History, code: string, times: seq<int>)
    requires code in t && t[code].uses.Finite?
    requires code in h && h[code].uses.Finite? && h[code].uses.n >= 0
    requires forall i :: 0 <= i < |times| ==> !ResetDue(t[code], h[code], times[i])
    ensures var (rs, h') := Run(t, h, VerifyRequests(code, times));
      && GrantedCount(rs) == Min(h[code].uses.n, |times|)
      && code in h'
      && h'[code].uses == Finite(h[code].uses.n - GrantedCount(rs))
      && h'[code].lastReset == h[code].lastReset
    decreases |times|
  {
    var reqs := VerifyRequests(code, times);
    if |times| > 0 {
      var (resp, h1) := Step(t, h, reqs[0]);
      assert reqs[1..] == VerifyRequests(code, times[1..]);
      assert !ResetDue(t[code], h[code], times[0]);
      assert h1[code].lastReset == h[code].lastReset;
      forall i | 0 <= i < |times[1..]|
        ensures !ResetDue(t[code], h1[code], times[1..][i])
      {
        assert times[1..][i] == times[i + 1];
      }
      VerifiesWithinWindow(t, h1, code, times[1..]);
      var (rest, h2) := Run(t, h1, reqs[1..]);
      assert Run(t, h, reqs).0 == [resp] + rest;
      assert ([resp] + rest)[1..] == rest;
    }
  }

  /** Once the cooldown has elapsed, verify-access on a finite code succeeds
      again whatever its remaining uses were, reporting the full nominal count
      and leaving one use fewer. */
  lemma VerifyAfterCooldownRefills(t: Table, h: History, code: string, now: int)
    requires WellFormed(t)
    requires code in t && t[code].uses.Finite? && code in h
    requires ResetDue(t[code], h[code], now)
    ensures var (v, h') := VerifyAccess(t, h, code, now);
      && v == Granted(t[code].kind, t[code].uses)
      && h'[code] == Usage(Finite(t[code].uses.n - 1), now, now)
  {
  }

  /** The reply of verify-access is off by one between the two paths: a
      first use reports the count left after consuming, a later use reports the
      count before consuming. So the verify that grants the last use of a
      finite code reports one use left, yet a chat right after it is refused. */
  lemma LastGrantedUseCannotChat(t: Table, h: History, code: string, now: int, outcome: ProviderOutcome, doneAt: int)
    requires WellFormed(t) && Consistent(t, h)
    requires code in t && t[code].uses.Finite? && code in h
    requires VerifyAccess(t, h, code, now).0 == Granted(t[code].kind, Finite(1))
    ensures VerifyAccess(t, h, code, now).1[code].uses == Finite(0)
    ensures Chat(t, VerifyAccess(t, h, code, now).1, code, outcome, doneAt).0 == ChatFailed(OutOfUses)
  {
  }
}
