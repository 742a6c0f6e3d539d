/** src/keyboard/keyboard.rs: the keys the viewer reacts to, decoded from
    the integer key code `wait_key` reports. */
module Keyboard {
  import opened RustCore

  /** `KeyNum`, whose discriminants are the key codes. */
  datatype KeyNum = Esc | Num1 | Num2 | Num3 | Num4

  /** `k as i32`: the declared discriminant. */
  function Code(k: KeyNum): int {
    match k
    case Esc => 27
    case Num1 => 49
    case Num2 => 50
    case Num3 => 51
    case Num4 => 52
  }

  /** `<KeyNum as TryFrom<i32>>::try_from`: the five codes are decoded, every
      other integer is `Err(())`. */
  function TryFrom(value: int): (r: Result<KeyNum, ()>)
    ensures r.Ok? <==> value in {27, 49, 50, 51, 52}
    ensures r.Ok? ==> Code(r.value) == value
  {
    match value
    case 27 => Ok(Esc)
    case 49 => Ok(Num1)
    case 50 => Ok(Num2)
    case 51 => Ok(Num3)
    case 52 => Ok(Num4)
    case _ => Err(())
  }

  /** Decoding a key's own code gives the key back. */
  lemma RoundTrip(k: KeyNum)
    ensures TryFrom(Code(k)) == Ok(k)
  {
  }

  /** Distinct accepted codes decode to distinct keys. */
  lemma DecodingIsInjective(a: int, b: int)
    requires TryFrom(a).Ok? && TryFrom(b).Ok? && a != b
    ensures TryFrom(a).value != TryFrom(b).value
  {
  }
}
