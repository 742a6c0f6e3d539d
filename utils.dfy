/** src/camera/utils.rs: the frame and environment helpers the capture
    side uses.  The environment variable `DEV_NUMBER` is an input: `None`
    when it is not set (or not Unicode), `Some(s)` when it holds `s`. */
module Utils {
  import opened RustCore
  import opened Cv

  const DEFAULT_DEV_NUMBER: int := 0
  const INVALID_DEV_NUMBER_PANIC: string := "Error: DEV_NUMBER is invalid"

  /** `is_grayscale`: a one-channel frame; it never returns an `Err`. */
  function IsGrayscale(f: Frame): (r: Result<bool, CvError>)
    ensures r.Ok?
    ensures r.value <==> f.channels == 1
  {
    Ok(f.channels == 1)
  }

  /** `get_dev_number`: the default when the variable is unset, its value
      when `parse::<i32>` accepts it, and a panic otherwise. */
  function GetDevNumber(env: Option<string>): (o: Outcome<int>)
    ensures o.Returns? ==> IsI32(o.value)
    ensures o.Panics? ==> o.message == INVALID_DEV_NUMBER_PANIC
  {
    match env
    case None => Returns(DEFAULT_DEV_NUMBER)
    case Some(s) =>
      match ParseI32(s)
      case Some(devNumber) => Returns(devNumber)
      case None => Panics(INVALID_DEV_NUMBER_PANIC)
  }

  /** An unset variable gives device 0; a set one panics exactly when it
      does not parse as an `i32`. */
  lemma GetDevNumberCases(env: Option<string>)
    ensures env.None? ==> GetDevNumber(env) == Returns(0)
    ensures env.Some? ==> (GetDevNumber(env).Panics? <==> ParseI32(env.value).None?)
    ensures env.Some? && ParseI32(env.value).Some? ==> GetDevNumber(env) == Returns(ParseI32(env.value).value)
  {
  }

  /** Every `i32`, written in decimal, is read back as itself; every integer
      outside the range is refused with a panic. */
  lemma GetDevNumberOfDecimal(n: int)
    ensures IsI32(n) ==> GetDevNumber(Some(ToDecimal(n))) == Returns(n)
    ensures !IsI32(n) ==> GetDevNumber(Some(ToDecimal(n))) == Panics(INVALID_DEV_NUMBER_PANIC)
  {
    if IsI32(n) {
      ParseI32RoundTrip(n);
    } else {
      ParseI32Overflow(n);
    }
  }

  /** The empty string, a lone sign and surrounding white space panic. */
  lemma GetDevNumberRejects()
    ensures GetDevNumber(Some("")) == Panics(INVALID_DEV_NUMBER_PANIC)
    ensures GetDevNumber(Some("-")) == Panics(INVALID_DEV_NUMBER_PANIC)
    ensures GetDevNumber(Some(" 14")) == Panics(INVALID_DEV_NUMBER_PANIC)
    ensures GetDevNumber(Some("14 ")) == Panics(INVALID_DEV_NUMBER_PANIC)
  {
    ParseI32Rejects();
  }
}
