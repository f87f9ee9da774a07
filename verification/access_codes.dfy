/**
 * The static access-code table of the chat server: every known code with its
 * nominal number of uses, its type label and an optional cooldown after which
 * the code's uses are restored. The table is read-only for the lifetime of the
 * server.
 */
module AccessCodes {

  /** A use count. `Unlimited` replaces the numeric `Infinity` sentinel of the
      server; `Finite` counts are plain integers, so that the model states that
      they never go negative instead of building it into the type. */
  datatype Uses = Unlimited | Finite(n: int)
  {
    /** The server's test `uses > 0`; `Infinity > 0` holds. */
    predicate Positive()
    {
      Unlimited? || n > 0
    }

    /** The server's `uses - 1`; `Infinity - 1` is still `Infinity`. */
    function Minus1(): Uses
    {
      match this
      case Unlimited => Unlimited
      case Finite(k) => Finite(k - 1)
    }
  }

  /** Milliseconds that must pass after the last reset before a code's uses are
      restored. */
  datatype Cooldown = NoCooldown | Every(ms: nat)

  /** One entry of the table. The human-readable description is not modelled. */
  datatype CodeDef = CodeDef(uses: Uses, kind: string, cooldown: Cooldown)
  {
    /** The server tests `codeData.cooldown` for truthiness, so an absent
        cooldown and a cooldown of 0 both mean "never reset". */
    predicate HasCooldown()
    {
      cooldown.Every? && cooldown.ms > 0
    }

    /** A nominal count is either unlimited or at least one use. */
    predicate NominalOk()
    {
      uses.Unlimited? || uses.n >= 1
    }
  }

  type Table = map<string, CodeDef>

  /** Every code of the table grants at least one use. */
  predicate WellFormed(t: Table)
  {
    forall code :: code in t ==> t[code].NominalOk()
  }

  /** The table the server starts with. */
  function Codes(): (t: Table)
    ensures WellFormed(t)
    ensures forall code :: code in t && t[code].uses.Unlimited? ==> !t[code].HasCooldown()
    ensures forall code :: code in t && t[code].uses.Finite? ==> t[code].HasCooldown()
    ensures "UNLIMITED123" in t && t["UNLIMITED123"].uses.Unlimited?
  {
    map[
      "UNLIMITED123" := CodeDef(Unlimited, "UNLIMITED", NoCooldown),
      "PREMIUM50" := CodeDef(Finite(50), "PREMIUM", Every(3600000)),
      "TURBO25" := CodeDef(Finite(25), "TURBO", Every(1800000)),
      "TRIAL10" := CodeDef(Finite(10), "TRIAL", Every(3600000)),
      "VIP100" := CodeDef(Finite(100), "VIP", Every(7200000))
    ]
  }
}
