/**
  The environment toggle for the synthetic publisher: `parseBoolOrDefault`
  over Go's `strconv.ParseBool`.
 */
module Config {
  import opened Wrappers

  /** The literals `strconv.ParseBool` reads as true. */
  const TrueLiterals: set<string> := {"1", "t", "T", "TRUE", "true", "True"}

  /** The literals `strconv.ParseBool` reads as false. */
  const FalseLiterals: set<string> := {"0", "f", "F", "FALSE", "false", "False"}

  /**
    `strconv.ParseBool`: `None` stands for its syntax error. It accepts exactly
    the twelve literals and reads each one by the list it is on.
   */
  function ParseBool(s: string): (r: Option<bool>)
    ensures r.Some? <==> s in TrueLiterals + FalseLiterals
    ensures r == Some(true) <==> s in TrueLiterals
    ensures r == Some(false) <==> s in FalseLiterals
  {
    match s
    case "1" => Some(true)
    case "t" => Some(true)
    case "T" => Some(true)
    case "TRUE" => Some(true)
    case "true" => Some(true)
    case "True" => Some(true)
    case "0" => Some(false)
    case "f" => Some(false)
    case "F" => Some(false)
    case "FALSE" => Some(false)
    case "false" => Some(false)
    case "False" => Some(false)
    case _ => None
  }

  /**
    `parseBoolOrDefault` as written: any string ParseBool accepts yields `true`,
    whatever it says; anything else yields the default.
   */
  function ParseBoolOrDefault(value: string, default: bool): (b: bool)
    ensures value in TrueLiterals + FalseLiterals ==> b
    ensures value !in TrueLiterals + FalseLiterals ==> b == default
  {
    if ParseBool(value).None? then default else true
  }

  /** Corrected reading: the parsed value when `value` is a literal, the default otherwise. */
  function ParseBoolOrDefaultCorrected(value: string, default: bool): (b: bool)
    ensures value in TrueLiterals ==> b
    ensures value in FalseLiterals ==> !b
    ensures value !in TrueLiterals + FalseLiterals ==> b == default
  {
    match ParseBool(value)
    case Some(x) => x
    case None => default
  }

  /** The two readings differ exactly on the false literals. */
  lemma CorrectedDiffersOnFalseLiterals(value: string, default: bool)
    ensures ParseBoolOrDefault(value, default) != ParseBoolOrDefaultCorrected(value, default)
      <==> value in FalseLiterals
  {
  }

  /**
    Whether the mock publisher runs, from the text of `ENABLE_MOCK_PUBLISHER`
    (`os.Getenv` gives `""` when the variable is unset).
   */
  function MockPublisherEnabled(env: string): (enabled: bool)
    ensures env == "" ==> !enabled
    ensures env in FalseLiterals ==> enabled
    ensures enabled <==> env in TrueLiterals + FalseLiterals
  {
    ParseBoolOrDefault(env, false)
  }

  /** The toggle as evidently intended: on for a true literal, off for a false literal or an unset variable. */
  function MockPublisherEnabledCorrected(env: string): (enabled: bool)
    ensures env in TrueLiterals ==> enabled
    ensures env in FalseLiterals ==> !enabled
    ensures env !in TrueLiterals + FalseLiterals ==> !enabled
  {
    ParseBoolOrDefaultCorrected(env, false)
  }
}
