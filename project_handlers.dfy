/** project/src/streaming/handlers.rs: the streaming server's own reading
    of `DEV_NUMBER`, which falls back to the default instead of panicking. */
module ProjectHandlers {
  import opened RustCore
  import Utils

  const DEFAULT_DEV_NUMBER: int := 0

  /** `get_dev_number_from_env`: the value when `parse::<i32>` accepts it,
      the default when the variable is unset or does not parse. */
  function GetDevNumberFromEnv(env: Option<string>): (n: int)
    ensures IsI32(n)
  {
    match env
    case None => DEFAULT_DEV_NUMBER
    case Some(s) =>
      match ParseI32(s)
      case Some(devNumber) => devNumber
      case None => DEFAULT_DEV_NUMBER
  }

  /** The two readers agree wherever `utils::get_dev_number` returns, and
      where it panics this one answers the default. */
  lemma AgreesWithGetDevNumber(env: Option<string>)
    ensures Utils.GetDevNumber(env).Returns? ==> GetDevNumberFromEnv(env) == Utils.GetDevNumber(env).value
    ensures Utils.GetDevNumber(env).Panics? ==> GetDevNumberFromEnv(env) == DEFAULT_DEV_NUMBER
  {
  }

  /** Every `i32`, written in decimal, is read back as itself; anything else
      that a set variable may hold and that does not parse (the empty
      string, an out-of-range number) gives device 0. */
  lemma GetDevNumberFromEnvValues(n: int)
    ensures GetDevNumberFromEnv(None) == 0
    ensures IsI32(n) ==> GetDevNumberFromEnv(Some(ToDecimal(n))) == n
    ensures !IsI32(n) ==> GetDevNumberFromEnv(Some(ToDecimal(n))) == 0
    ensures GetDevNumberFromEnv(Some("")) == 0
  {
    if IsI32(n) {
      ParseI32RoundTrip(n);
    } else {
      ParseI32Overflow(n);
    }
    ParseI32Rejects();
  }
}
