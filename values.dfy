/** Request values as the data-access layer receives them: route parameters
    and query strings are strings, JSON bodies may also carry numbers, and a
    missing key reads as `undefined`. */
module RequestValues {

  datatype Value = Str(s: string) | Num(n: int) | Absent

  predicate IsDigit(c: char) {
    '0' <= c <= '9'
  }

  predicate AllDigits(s: string) {
    forall i :: 0 <= i < |s| ==> IsDigit(s[i])
  }

  predicate IsSign(c: char) {
    c == '-' || c == '+'
  }

  /** An optionally signed, non-empty run of decimal digits. */
  predicate IsIntegerLiteral(s: string) {
    if |s| > 0 && IsSign(s[0]) then |s| > 1 && AllDigits(s[1..])
    else |s| > 0 && AllDigits(s)
  }

  /** JavaScript's `isNaN` on the values this model admits: `undefined` is
      NaN, a number is not, and a string is numeric exactly when it is an
      integer literal. */
  predicate IsNaN(v: Value) {
    match v
    case Absent => true
    case Num(_) => false
    case Str(s) => !IsIntegerLiteral(s)
  }

  /** JavaScript truthiness: `undefined`, `""` and `0` are falsy. */
  predicate Truthy(v: Value) {
    match v
    case Absent => false
    case Num(n) => n != 0
    case Str(s) => s != ""
  }

  function DigitValue(c: char): (d: nat)
    requires IsDigit(c)
    ensures d < 10
  {
    c as int - '0' as int
  }

  function DigitChar(d: nat): (c: char)
    requires d < 10
    ensures IsDigit(c) && DigitValue(c) == d
  {
    ('0' as int + d) as char
  }

  /** The number a run of decimal digits denotes (most significant first). */
  function DigitsValue(s: string): nat
    requires AllDigits(s)
  {
    if s == [] then 0
    else DigitsValue(s[..|s| - 1]) * 10 + DigitValue(s[|s| - 1])
  }

  /** The integer an integer literal denotes, as `Number(s)` and PostgreSQL's
      integer input both read it. */
  function ParseInteger(s: string): int
    requires IsIntegerLiteral(s)
  {
    if s[0] == '-' then -(DigitsValue(s[1..]) as int)
    else if s[0] == '+' then DigitsValue(s[1..])
    else DigitsValue(s)
  }

  /** The integer a numeric request value reaches the database as. */
  function NumValue(v: Value): int
    requires !IsNaN(v)
  {
    match v
    case Num(n) => n
    case Str(s) => ParseInteger(s)
  }

  /** The shortest decimal digits of a natural number. */
  function Digits(n: nat): (s: string)
    ensures |s| > 0 && AllDigits(s)
  {
    if n < 10 then [DigitChar(n)] else Digits(n / 10) + [DigitChar(n % 10)]
  }

  /** `String(n)` for an integer. */
  function Decimal(n: int): (s: string)
    ensures IsIntegerLiteral(s)
  {
    if n < 0 then "-" + Digits(-n) else Digits(n)
  }

  /** The text a defined request value is bound as when it is passed to a
      text column (`slug`, `username`, `body`). */
  function Text(v: Value): string
    requires !v.Absent?
  {
    match v
    case Str(s) => s
    case Num(n) => Decimal(n)
  }

  lemma {:induction false} DigitsRoundTrip(n: nat)
    ensures DigitsValue(Digits(n)) == n
  {
    if n >= 10 {
      var s := Digits(n);
      assert s[..|s| - 1] == Digits(n / 10);
      DigitsRoundTrip(n / 10);
    }
  }

  /** Rendering a number and reading it back is the identity, so a number
      sent as text is the same number to the database. */
  lemma DecimalRoundTrip(n: int)
    ensures !IsNaN(Str(Decimal(n)))
    ensures NumValue(Str(Decimal(n))) == n
  {
    if n < 0 {
      assert Decimal(n)[1..] == Digits(-n);
      DigitsRoundTrip(-n);
    } else {
      DigitsRoundTrip(n);
    }
  }

  /** A string holding a letter is NaN, whatever else it holds. */
  lemma LetterIsNaN(s: string, i: nat)
    requires i < |s| && ('a' <= s[i] <= 'z' || 'A' <= s[i] <= 'Z')
    ensures IsNaN(Str(s))
  {
    if |s| > 0 && IsSign(s[0]) && |s| > 1 {
      assert !IsDigit(s[1..][i - 1]);
    } else if |s| > 0 {
      assert !IsDigit(s[i]);
    }
  }

  /** A non-empty string of decimal digits is numeric and denotes its digits. */
  lemma DigitStringIsNumeric(s: string)
    requires s != [] && AllDigits(s)
    ensures !IsNaN(Str(s)) && NumValue(Str(s)) == DigitsValue(s)
  {
  }
}
