/** The two string-to-integer conversions the system relies on -- PHP's `(int)`
    cast, applied by the listing endpoint to query parameters, and JavaScript's
    `parseInt`, applied by the create form to number inputs -- together with
    the decimal rendering of an integer that a number input displays. */
module Numerals {
  import opened Base

  predicate IsDigit(c: char) {
    '0' <= c <= '9'
  }

  predicate IsHexDigit(c: char) {
    IsDigit(c) || 'a' <= c <= 'f' || 'A' <= c <= 'F'
  }

  predicate AllDigits(s: string) {
    forall i | 0 <= i < |s| :: IsDigit(s[i])
  }

  predicate AllHexDigits(s: string) {
    forall i | 0 <= i < |s| :: IsHexDigit(s[i])
  }

  function DigitValue(c: char): (d: nat)
    requires IsHexDigit(c)
    ensures d < 16
    ensures IsDigit(c) <==> d < 10
  {
    if IsDigit(c) then c as int - '0' as int
    else if 'a' <= c <= 'f' then c as int - 'a' as int + 10
    else c as int - 'A' as int + 10
  }

  /** The value of a run of digits read most significant first in base `radix`. */
  function ValueIn(radix: nat, ds: string): nat
    requires radix == 10 || radix == 16
    requires AllHexDigits(ds)
    requires radix == 10 ==> AllDigits(ds)
  {
    if |ds| == 0 then 0
    else radix * ValueIn(radix, ds[..|ds| - 1]) + DigitValue(ds[|ds| - 1])
  }

  function DigitChar(d: nat): (c: char)
    requires d < 10
    ensures IsDigit(c) && DigitValue(c) == d
  {
    ('0' as int + d) as char
  }

  /** The decimal numeral of a natural number, without leading zeros. */
  function NatDecimal(n: nat): (s: string)
    ensures |s| >= 1 && AllDigits(s)
    decreases n
  {
    if n < 10 then [DigitChar(n)] else NatDecimal(n / 10) + [DigitChar(n % 10)]
  }

  /** How JavaScript's `String(n)` renders an integer (a leading `-` for negatives). */
  function Decimal(n: int): string {
    if n < 0 then "-" + NatDecimal(-n) else NatDecimal(n)
  }

  /** Whitespace PHP skips before a numeric string: space, tab, newline,
      carriage return, vertical tab and form feed. */
  predicate IsPhpNumericSpace(c: char) {
    c == ' ' || c == '\t' || c == '\n' || c == '\r' || c == 11 as char || c == 12 as char
  }

  /** The StrWhiteSpaceChar set JavaScript's `parseInt` skips: the ECMAScript
      white space and line terminator code points. */
  predicate IsJsSpace(c: char) {
    c == '\t' || c == 11 as char || c == 12 as char || c == ' ' || c == 0xA0 as char
    || c == 0xFEFF as char || c == 0x1680 as char || (0x2000 <= c as int <= 0x200A)
    || c == 0x202F as char || c == 0x205F as char || c == 0x3000 as char
    || c == '\n' || c == '\r' || c == 0x2028 as char || c == 0x2029 as char
  }

  /** The range of a PHP integer on a 64-bit build. */
  const PhpIntMax: int := 0x7FFF_FFFF_FFFF_FFFF
  const PhpIntMin: int := -0x8000_0000_0000_0000

  /** `n` is a PHP integer: a JSON integer outside this range decodes as a
      float instead. */
  predicate IsPhpInt(n: int) {
    PhpIntMin <= n <= PhpIntMax
  }

  /** 2^1024 - 2^970: the least magnitude an IEEE 754 double rounds to
      infinity (halfway between the largest finite double and 2^1024). */
  const DoubleOverflow: int := 0xFFFF_FFFF_FFFF_FC00_0000_0000_0000_0000_0000_0000_0000_0000_0000_0000_0000_0000_0000_0000_0000_0000_0000_0000_0000_0000_0000_0000_0000_0000_0000_0000_0000_0000_0000_0000_0000_0000_0000_0000_0000_0000_0000_0000_0000_0000_0000_0000_0000_0000_0000_0000_0000_0000_0000_0000_0000_0000_0000_0000_0000_0000_0000_0000_0000_0000

  /** What the cast makes of the integer a numeral spells. One outside the
      64-bit range is read as a double, and a finite double beyond the range
      saturates to its nearer end, while an infinite one becomes 0. */
  function PhpIntOfNumeral(m: int): (n: int)
    ensures PhpIntMin <= n <= PhpIntMax
  {
    if m >= DoubleOverflow || m <= -DoubleOverflow then 0
    else if m > PhpIntMax then PhpIntMax
    else if m < PhpIntMin then PhpIntMin
    else m
  }

  /** PHP's `(int)` cast of a string: leading whitespace is skipped, an optional
      sign is read, then the longest run of decimal digits; a string with no
      such digits casts to 0, and the result always fits 64 bits. */
  function PhpIntCast(s: string): (n: int)
    ensures PhpIntMin <= n <= PhpIntMax
    ensures var t := DropWhile(s, IsPhpNumericSpace);
            (|t| == 0 || (!IsDigit(t[0]) && t[0] != '-' && t[0] != '+')) ==> n == 0
  {
    var t := DropWhile(s, IsPhpNumericSpace);
    if |t| > 0 && (t[0] == '-' || t[0] == '+') then
      var body := t[1..];
      var m: int := ValueIn(10, body[..SpanLength(body, IsDigit)]);
      PhpIntOfNumeral(if t[0] == '-' then -m else m)
    else
      PhpIntOfNumeral(ValueIn(10, t[..SpanLength(t, IsDigit)]))
  }

  /** Blank text (empty once `trim()` has run) casts to 0: what PHP skips as
      leading whitespace is followed by nothing or by a NUL. */
  lemma BlankCastsToZero(s: string)
    requires IsBlank(s)
    ensures PhpIntCast(s) == 0
  {
    var t := DropWhile(s, IsPhpNumericSpace);
    if |t| > 0 {
      assert t[0] == s[|s| - |t|];
    }
  }

  /** JavaScript's `parseInt(s)` with no radix argument: leading whitespace is
      skipped, an optional sign is read, a `0x`/`0X` prefix switches to base 16,
      then the longest run of digits of that base is read. `None` stands for
      `NaN`, the result when that run is empty. */
  function JsParseInt(s: string): (r: Option<int>)
    ensures var t := DropWhile(s, IsJsSpace);
            (|t| == 0 || (!IsDigit(t[0]) && t[0] != '-' && t[0] != '+')) ==> r.None?
  {
    var t := DropWhile(s, IsJsSpace);
    if |t| > 0 && (t[0] == '-' || t[0] == '+') then
      match Magnitude(t[1..])
      case None => None
      case Some(m) => var v: int := m; Some(if t[0] == '-' then -v else v)
    else
      Magnitude(t)
  }

  /** The unsigned part of `parseInt`: hexadecimal after a `0x`/`0X` prefix,
      decimal otherwise; `None` when no digit follows. */
  function Magnitude(u: string): (r: Option<nat>)
    ensures |u| == 0 || !IsDigit(u[0]) ==> r.None?
  {
    var hex := |u| >= 2 && u[0] == '0' && (u[1] == 'x' || u[1] == 'X');
    var body := if hex then u[2..] else u;
    var k := if hex then SpanLength(body, IsHexDigit) else SpanLength(body, IsDigit);
    if k == 0 then None
    else Some(ValueIn(if hex then 16 else 10, body[..k]))
  }

  lemma {:induction false} NatDecimalValue(n: nat)
    ensures ValueIn(10, NatDecimal(n)) == n
    ensures NatDecimal(n)[0] == '0' ==> n == 0
    decreases n
  {
    if n >= 10 {
      var s := NatDecimal(n);
      NatDecimalValue(n / 10);
      assert s[..|s| - 1] == NatDecimal(n / 10);
      assert s[0] == NatDecimal(n / 10)[0];
    }
  }

  /** Reading back what a number input displays: `parseInt(String(n)) == n`. */
  lemma ParseDecimal(n: int)
    ensures JsParseInt(Decimal(n)) == Some(n)
  {
    var m: nat := if n < 0 then -n else n;
    var ds := NatDecimal(m);
    NatDecimalValue(m);
    MagnitudeOfDigits(ds);
    var t := Decimal(n);
    assert !IsJsSpace(t[0]);
    assert DropWhile(t, IsJsSpace) == t;
    if n < 0 {
      assert t[1..] == ds;
    }
  }

  /** A run of decimal digits is read whole: its second character is a digit,
      not the `x` of a hex prefix, and nothing follows it. */
  lemma MagnitudeOfDigits(ds: string)
    requires |ds| > 0 && AllDigits(ds)
    ensures Magnitude(ds) == Some(ValueIn(10, ds))
  {
    SpanOfDigits(ds);
    assert ds[..|ds|] == ds;
  }

  lemma {:induction false} SpanOfDigits(ds: string)
    requires AllDigits(ds)
    ensures SpanLength(ds, IsDigit) == |ds|
  {
    if |ds| > 0 {
      SpanOfDigits(ds[1..]);
    }
  }

  /** PHP reads back the decimal numeral of every 64-bit integer:
      `(int)"<n>" == n`. A numeral beyond that range saturates to the nearer
      end of it, and one too large for a double casts to 0. */
  lemma PhpCastDecimal(n: int)
    ensures PhpIntMin <= n <= PhpIntMax ==> PhpIntCast(Decimal(n)) == n
    ensures PhpIntMax < n < DoubleOverflow ==> PhpIntCast(Decimal(n)) == PhpIntMax
    ensures -DoubleOverflow < n < PhpIntMin ==> PhpIntCast(Decimal(n)) == PhpIntMin
    ensures n >= DoubleOverflow || n <= -DoubleOverflow ==> PhpIntCast(Decimal(n)) == 0
  {
    CastOfNumeral(n);
  }

  lemma CastOfNumeral(n: int)
    ensures PhpIntCast(Decimal(n)) == PhpIntOfNumeral(n)
  {
    var m: nat := if n < 0 then -n else n;
    var ds := NatDecimal(m);
    NatDecimalValue(m);
    SpanOfDigits(ds);
    assert !IsPhpNumericSpace(Decimal(n)[0]);
    assert DropWhile(Decimal(n), IsPhpNumericSpace) == Decimal(n);
    assert ds[..|ds|] == ds;
  }
}
