/** The pieces of Rust's core and standard library that the model relies on:
    `Option`, `Result`, panics, the `i32` range and `str::parse::<i32>`. */
module RustCore {

  datatype Option<+T> = None | Some(value: T)

  datatype Result<+T, +E> = Ok(value: T) | Err(error: E)

  /** What a Rust call does: it returns a value (which may itself be a
      `Result`) or it panics with a message. */
  datatype Outcome<+T> = Returns(value: T) | Panics(message: string)

  /** The message of `Result::unwrap` on `Err` (without the error's `Debug` text). */
  const RESULT_UNWRAP_PANIC: string := "called `Result::unwrap()` on an `Err` value"

  /** The message of `Option::unwrap` on `None`. */
  const OPTION_UNWRAP_PANIC: string := "called `Option::unwrap()` on a `None` value"

  const I32_MIN: int := -0x8000_0000
  const I32_MAX: int := 0x7fff_ffff

  predicate IsI32(n: int) {
    I32_MIN <= n <= I32_MAX
  }

  predicate IsDigit(c: char) {
    '0' <= c <= '9'
  }

  predicate AllDigits(s: string) {
    forall i :: 0 <= i < |s| ==> IsDigit(s[i])
  }

  /** The value of a string of decimal digits, most significant first. */
  function DigitsValue(ds: string): nat
    requires AllDigits(ds)
  {
    if ds == [] then 0
    else DigitsValue(ds[..|ds| - 1]) * 10 + (ds[|ds| - 1] as int - '0' as int)
  }

  /** `str::parse::<i32>`: an optional `+` or `-`, then one or more ASCII
      digits whose value lies in the `i32` range.  Nothing else is accepted:
      not the empty string, not a lone sign, not white space, not a value
      that overflows. */
  function ParseI32(s: string): (r: Option<int>)
    ensures r.Some? ==> IsI32(r.value)
    ensures r.Some? ==> |s| > 0 && (IsDigit(s[0]) || s[0] == '+' || s[0] == '-')
    ensures r.Some? ==> forall i :: 0 < i < |s| ==> IsDigit(s[i])
    ensures r.Some? ==> (r.value < 0 ==> s[0] == '-')
  {
    var negative := |s| > 0 && s[0] == '-';
    var digits := if |s| > 0 && (s[0] == '-' || s[0] == '+') then s[1..] else s;
    if digits == [] || !AllDigits(digits) then None
    else
      var v: int := if negative then -(DigitsValue(digits) as int) else DigitsValue(digits);
      if IsI32(v) then Some(v) else None
  }

  lemma DigitsSnoc(ds: string, c: char)
    requires AllDigits(ds) && IsDigit(c)
    ensures AllDigits(ds + [c])
    ensures DigitsValue(ds + [c]) == DigitsValue(ds) * 10 + (c as int - '0' as int)
  {
    assert (ds + [c])[..|ds|] == ds;
  }

  /** Decimal rendering of a natural number, without sign or leading zeros. */
  function Digits(n: nat): (s: string)
    ensures |s| > 0 && AllDigits(s)
  {
    var d := [('0' as int + n % 10) as char];
    if n < 10 then d else Digits(n / 10) + d
  }

  /** Decimal rendering of an integer, as Rust's `to_string` writes it. */
  function ToDecimal(n: int): string {
    if n < 0 then "-" + Digits(-n) else Digits(n)
  }

  lemma {:induction false} DigitsValueOfDigits(n: nat)
    ensures DigitsValue(Digits(n)) == n
  {
    var d := [('0' as int + n % 10) as char];
    if n >= 10 {
      DigitsValueOfDigits(n / 10);
      var s := Digits(n / 10) + d;
      assert s[..|s| - 1] == Digits(n / 10);
    }
  }

  /** Parsing what `to_string` writes gives the number back, for every `i32`. */
  lemma ParseI32RoundTrip(n: int)
    requires IsI32(n)
    ensures ParseI32(ToDecimal(n)) == Some(n)
  {
    var s := ToDecimal(n);
    if n < 0 {
      var ds := Digits(-n);
      DigitsValueOfDigits(-n);
      assert s == "-" + ds;
      assert s[0] == '-' && s[1..] == ds;
    } else {
      var ds := Digits(n);
      DigitsValueOfDigits(n);
      assert s == ds && IsDigit(s[0]);
    }
  }

  /** An integer outside the `i32` range, written in decimal, is refused. */
  lemma ParseI32Overflow(n: int)
    requires !IsI32(n)
    ensures ParseI32(ToDecimal(n)) == None
  {
    var s := ToDecimal(n);
    if n < 0 {
      var ds := Digits(-n);
      DigitsValueOfDigits(-n);
      assert s == "-" + ds;
      assert s[0] == '-' && s[1..] == ds;
      assert -(DigitsValue(ds) as int) == n;
    } else {
      var ds := Digits(n);
      DigitsValueOfDigits(n);
      assert s == ds && IsDigit(s[0]);
      assert DigitsValue(ds) == n;
    }
  }

  /** The strings the parser refuses besides out-of-range values: empty, a
      lone sign, surrounding white space, a doubled sign. */
  lemma ParseI32Rejects()
    ensures ParseI32("") == None
    ensures ParseI32("+") == None && ParseI32("-") == None
    ensures ParseI32(" 14") == None && ParseI32("14 ") == None
    ensures ParseI32("+-1") == None
  {
  }

  /** A leading `+` and leading zeros are accepted. */
  lemma ParseI32Accepts()
    ensures ParseI32("+014") == Some(14)
    ensures ParseI32("-0") == Some(0)
  {
    DigitsSnoc("0", '1');
    DigitsSnoc("01", '4');
    assert "014" == "01" + ['4'];
    assert "01" == "0" + ['1'];
  }
}
