/**
 * Classification of a failed chat-completion call into the message shown to
 * the user. Only the error's message text matters; the quota check is made
 * first, so a message naming both causes is reported as a quota problem.
 */
module ProviderErrors {

  /** `sub` occurs in `s` starting at index `i`. */
  predicate OccursAt(s: string, sub: string, i: nat)
  {
    i + |sub| <= |s| && s[i..i + |sub|] == sub
  }

  /** JavaScript's `String.prototype.includes`, by testing every suffix for the
      prefix `sub`. */
  function Includes(s: string, sub: string): bool
    decreases |s|
  {
    if sub <= s then true
    else if |s| == 0 then false
    else Includes(s[1..], sub)
  }

  /** The suffix scan finds exactly the occurrences of `sub` in `s`. */
  lemma {:induction false} IncludesIffOccurs(s: string, sub: string)
    ensures Includes(s, sub) <==> exists i: nat :: OccursAt(s, sub, i)
    decreases |s|
  {
    if sub <= s {
      assert OccursAt(s, sub, 0);
    } else if |s| == 0 {
    } else {
      IncludesIffOccurs(s[1..], sub);
      if exists i: nat :: OccursAt(s, sub, i) {
        var i: nat :| OccursAt(s, sub, i);
        assert i != 0;
        assert s[1..][i - 1..i - 1 + |sub|] == s[i..i + |sub|];
        assert OccursAt(s[1..], sub, i - 1);
      }
      if exists j: nat :: OccursAt(s[1..], sub, j) {
        var j: nat :| OccursAt(s[1..], sub, j);
        assert s[1..][j..j + |sub|] == s[j + 1..j + 1 + |sub|];
        assert OccursAt(s, sub, j + 1);
      }
    }
  }

  datatype ErrorKind = QuotaExceeded | ModelUnavailable | Generic

  const Quota: string := "insufficient_quota"
  const ModelNotFound: string := "model not found"

  /** Chooses the user-facing error for a provider failure with `message`. */
  function Classify(message: string): (k: ErrorKind)
    ensures k == QuotaExceeded <==> exists i: nat :: OccursAt(message, Quota, i)
    ensures k == ModelUnavailable <==>
      (forall i: nat :: !OccursAt(message, Quota, i)) && exists i: nat :: OccursAt(message, ModelNotFound, i)
    ensures k == Generic <==>
      (forall i: nat :: !OccursAt(message, Quota, i)) && (forall i: nat :: !OccursAt(message, ModelNotFound, i))
  {
    IncludesIffOccurs(message, Quota);
    IncludesIffOccurs(message, ModelNotFound);
    if Includes(message, Quota) then QuotaExceeded
    else if Includes(message, ModelNotFound) then ModelUnavailable
    else Generic
  }

  /** The text the server sends for each kind of provider failure. */
  function Text(k: ErrorKind): string
  {
    match k
    case QuotaExceeded => "API quota exceeded. Please try again later."
    case ModelUnavailable => "Model access not available. Please check your API key permissions."
    case Generic => "Error communicating with ChatGPT"
  }
}
