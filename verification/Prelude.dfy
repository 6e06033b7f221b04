/** Small datatypes and facts shared by every component. */
module Prelude {

  datatype Option<+T> = None | Some(value: T) {
    predicate IsFailure() {
      None?
    }

    function PropagateFailure<U>(): Option<U>
      requires None?
    {
      None
    }

    function Extract(): T
      requires Some?
    {
      value
    }
  }

  datatype Result<+T, +E> = Ok(value: T) | Err(error: E) {
    predicate IsFailure() {
      Err?
    }

    function PropagateFailure<U>(): Result<U, E>
      requires Err?
    {
      Err(error)
    }

    function Extract(): T
      requires Ok?
    {
      value
    }
  }

  // The bounds of Rust's i64.
  const I64_MIN: int := -0x8000_0000_0000_0000
  const I64_MAX: int := 0x7FFF_FFFF_FFFF_FFFF

  predicate FitsI64(n: int) {
    I64_MIN <= n <= I64_MAX
  }

  // ---------- Decimal numerals ----------

  function Decimal(n: nat): string {
    var digit := ['0' + (n % 10) as char];
    if n < 10 then digit else Decimal(n / 10) + digit
  }

  function ReadDecimal(s: string): int {
    if s == [] then 0 else ReadDecimal(s[..|s| - 1]) * 10 + (s[|s| - 1] as int - '0' as int)
  }

  lemma {:induction false} DecimalRoundTrip(n: nat)
    ensures ReadDecimal(Decimal(n)) == n
  {
    var s := Decimal(n);
    if n < 10 {
      assert s[..|s| - 1] == [];
    } else {
      DecimalRoundTrip(n / 10);
      assert s[..|s| - 1] == Decimal(n / 10);
    }
  }

  lemma {:induction false} DecimalShape(n: nat)
    ensures Decimal(n) != "" && (forall c :: c in Decimal(n) ==> '0' <= c <= '9') && (n >= 10 ==> Decimal(n)[0] != '0')
  {
    if n >= 10 {
      DecimalShape(n / 10);
      assert n / 10 < 10 ==> Decimal(n / 10) == ['0' + (n / 10 % 10) as char];
    }
  }

  // Integers, with a minus sign where they have one.
  function Numeral(n: int): string {
    if n < 0 then "-" + Decimal(-n) else Decimal(n)
  }

  function ReadNumeral(s: string): int {
    if s != "" && s[0] == '-' then -ReadDecimal(s[1..]) else ReadDecimal(s)
  }

  lemma NumeralRoundTrip(n: int)
    ensures ReadNumeral(Numeral(n)) == n
  {
    DecimalShape(if n < 0 then -n else n);
    DecimalRoundTrip(if n < 0 then -n else n);
    assert n >= 0 ==> Decimal(n)[0] in Decimal(n);
  }

  lemma NumeralInjective(a: int, b: int)
    ensures Numeral(a) == Numeral(b) ==> a == b
  {
    NumeralRoundTrip(a);
    NumeralRoundTrip(b);
  }

  lemma DecimalInjective(a: nat, b: nat)
    ensures Decimal(a) == Decimal(b) ==> a == b
  {
    DecimalRoundTrip(a);
    DecimalRoundTrip(b);
  }
}
