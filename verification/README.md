# Access-code usage model of the chat server

The server lets a browser front-end chat with a language-model provider when the
user holds an access code. It has a static table of five codes. `UNLIMITED123`
never runs out. `PREMIUM50`, `TURBO25`, `TRIAL10` and `VIP100` have a finite
number of uses, which are restored once a cooldown has passed since the last reset.
The server keeps one usage record per code: remaining uses, last reset time and
last use time.

This project models that usage bookkeeping as pure step functions. Time is an
input; the server reads it from the clock.

- `AccessCodes` holds the code table. A use count is `Unlimited | Finite(n)`,
  not the numeric `Infinity` sentinel. A cooldown is `NoCooldown | Every(ms)`.
- `UsageHistory` holds the usage record, the invariant `Consistent`, and
  `CheckAndResetCooldown`.
- `Handlers` models the state logic of `/verify-access`, `/chat` and
  `/check-status`.
- `ProviderErrors` models how a provider failure message is classified.
- `Server` treats the handlers as one state machine over request sequences and
  proves the invariants that hold after any sequence of requests.

Behaviour of the server that the model keeps as written:

- Only verify-access consumes uses. Chat checks the record but never
  decrements it.
- Chat does not apply the cooldown reset. An exhausted code is refused by chat
  until a verify-access after the cooldown refills it.
- Verify-access reports `usesLeft` differently on its two paths:
  - A first use reports the count after consuming.
  - A later use reports the count before consuming.

  So the verify that grants the last use of a finite code reports one use left.
  A chat right after that verify is refused (`Server.LastGrantedUseCannotChat`).
- On a refused verify, the server keeps whatever the reset step wrote. With
  nominal counts of at least one, a reset always leads to a grant. So a refusal
  leaves the history unchanged (`Handlers.VerifyAccess`).

## Model

| member | source | states |
|---|---|---|
| AccessCodes.Codes | server.js:23-53 | Every code in the table grants at least one use. The unlimited code has no cooldown. Every finite code has one. |
| UsageHistory.CheckAndResetCooldown | server.js:59-76 | With no record it returns true and changes nothing. Once the cooldown has elapsed since `lastReset`, it restores the nominal uses, sets `lastReset` to now, keeps `lastUsed` and returns true. Otherwise it returns false and changes nothing. No other record is touched. |
| UsageHistory.ResetKeepsConsistent | server.js:66-71 | A cooldown reset keeps every record within its nominal bounds. |
| ProviderErrors.IncludesIffOccurs | server.js:173-175 | The substring test used on provider error messages is true exactly when the pattern occurs at some index of the message. |
| ProviderErrors.Classify | server.js:171-177 | The quota message is chosen exactly when `insufficient_quota` occurs, even if `model not found` also occurs. The model-access message is chosen exactly when only `model not found` occurs. The generic message is chosen otherwise. |
| Handlers.VerifyAccess | server.js:82-130 | An unknown code is refused and changes nothing. A first use creates the record with nominal minus one use and `lastReset = lastUsed = now`, and reports that count. A later use applies the reset step and is granted iff uses remain or the code is unlimited. A grant consumes exactly one finite use, keeps unlimited codes unlimited, sets `lastUsed`, keeps `lastReset` and reports the count before consuming. A refused later use keeps exactly what the reset step wrote; with a nominal count of at least one, that is the unchanged history. No other record changes. |
| Handlers.Chat | server.js:132-184 | Refuses unknown codes. Refuses a code with no record, or a finite code at zero or below, as out of uses. Answers exactly when the gate passes and the provider completes. A provider failure past the gate is always reported with the classifier's kind and its user-facing text, and changes nothing. Chat never creates a record and never changes uses or `lastReset`. A completion only sets `lastUsed`. |
| Handlers.CheckStatus | server.js:187-210 | Succeeds iff the code is known and has a record. Reports the stored uses without applying a reset. `timeToReset` is never negative and is 0 for codes without a cooldown. For cooldown codes it is 0 exactly when a reset is due, and it ends exactly when a reset becomes due. It is at most the cooldown when `now >= lastReset`. |
| Server.Step | server.js:82-210 | One request changes at most the requested code's record. Only a known code can gain a record. Status queries change nothing. Only verify-access creates records or changes uses. |
| Server.StepKeepsConsistent | server.js:86-161 | Under a well-formed table, every request keeps finite uses within `0..nominal`, keeps unlimited codes unlimited, and creates records only for known codes. |
| Server.RunKeepsConsistent | server.js:23-161 | The same invariant holds after any sequence of requests. |
| Server.ServerKeepsUsesBounded | server.js:23-56 | From an empty history and the server's own table, every finite count stays within its nominal bounds. `UNLIMITED123` stays unlimited after any sequence of requests. |
| Server.RunKeys | server.js:86-96 | Records are never removed. The only records ever added belong to codes of the table. |
| Server.UnknownCodeChangesNothing | server.js:82-210 | A code outside the table fails in verify-access, chat and check-status. It leaves the history unchanged. |
| Server.ResetOnlyWhenDue | server.js:59-76 | `lastReset` changes only on verify-access of a known code, only once its cooldown has elapsed, and then becomes the request time. |
| Server.NoCooldownNeverResets | server.js:66-72 | A code without a cooldown keeps the reset time of its first use after any sequence of requests. So the unlimited code is never reset. |
| Server.VerifiesWithinWindow | server.js:106-126 | Within one cooldown window, a finite code with `k` uses left grants exactly `min(k, n)` of `n` verify requests. It ends with `k` minus the grants and the same `lastReset`. |
| Server.VerifyAfterCooldownRefills | server.js:106-124 | Once the cooldown has elapsed, verify-access on a finite code is granted whatever was left. It reports the full nominal count and stores one less, with both times set to now. |
| Server.LastGrantedUseCannotChat | server.js:111-147 | A verify that grants a finite code with `usesLeft` 1 leaves 0 uses stored. The next chat is then refused as out of uses. |

## Left out

- HTTP plumbing is not modelled: Express setup, routing, JSON body parsing, static files and `app.listen`.
- The API-key check and `process.exit` at start-up are environment handling outside the usage logic.
- The OpenAI client and the completion call are a foreign library. A chat request carries the provider's outcome as a parameter, either a completion or a failure message.
- Handlers.Chat: modelled as one atomic step. The server reads the record before awaiting the provider and writes it back afterwards, so a verify-access that runs in between can lose its decrement. That is a concurrency effect.
- `Date.now()` is not modelled. Each request carries its time. `checkAndResetCooldown` reads the clock again inside verify-access, and the model uses the request's time for it. Chat's post-completion clock reading is a separate `doneAt` parameter.
- JSON serialisation of replies is not modelled. The model reports `Unlimited` where verify-access and check-status would serialise `Infinity` as `null`. Chat reports the string `'Unlimited'`.
- Description strings, the completion's internal structure and console logging are not modelled.
- A provider error without a `message` string is not modelled. In the server it would make the error handler itself throw.
- JavaScript numbers are doubles. Counts and timestamps are modelled as unbounded integers, which is exact for the values the server handles.
