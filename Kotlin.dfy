/** The pieces of the Kotlin/JVM platform the gateway leans on: fixed-width
    integers, nullable values, `String.isBlank`, `Integer.toHexString`,
    `String.toInt(16)` and `Long.toString`. */
module Kotlin {

  const IntMin: int := -0x8000_0000
  const IntMax: int := 0x7fff_ffff

  /** Kotlin `Int`. */
  newtype int32 = x: int | -0x8000_0000 <= x < 0x8000_0000

  /** Kotlin `Long`. */
  newtype int64 = x: int | -0x8000_0000_0000_0000 <= x < 0x8000_0000_0000_0000

  /** A nullable value `T?`. */
  datatype Option<+T> = None | Some(value: T) {
    /** The elvis operator `this ?: default`. */
    function GetOr(default: T): (r: T)
      ensures Some? ==> r == value
      ensures None? ==> r == default
    {
      match this
      case Some(v) => v
      case None => default
    }
  }

  // ---------------------------------------------------------------------------
  // String.isBlank

  /** `Char.isWhitespace()` on the JVM: `Character.isWhitespace` or
      `Character.isSpaceChar`. */
  predicate IsWhitespace(c: char) {
    || c == ' '
    || '\t' <= c <= '\r'
    || '\U{1C}' <= c <= '\U{1F}'
    || c == '\U{A0}' || c == '\U{1680}'
    || '\U{2000}' <= c <= '\U{200A}'
    || c == '\U{2028}' || c == '\U{2029}' || c == '\U{202F}'
    || c == '\U{205F}' || c == '\U{3000}'
  }

  /** `String.isBlank()`: empty, or whitespace only. A blank string holds no
      digit of any base-16 number. */
  predicate IsBlank(s: string)
    ensures s == [] ==> IsBlank(s)
    ensures IsBlank(s) ==> forall i | 0 <= i < |s| :: !IsHexDigit(s[i])
  {
    forall i | 0 <= i < |s| :: IsWhitespace(s[i])
  }

  // ---------------------------------------------------------------------------
  // Integer.toHexString

  /** The lower-case digit `Integer.toHexString` writes for `d`. */
  function HexDigit(d: nat): (c: char)
    requires d < 16
    ensures IsHexDigit(c) && HexDigitValue(c) == d
  {
    if d < 10 then '0' + d as char else 'a' + (d - 10) as char
  }

  /** `n` in base 16 with no leading zeros ("0" for zero). */
  function HexDigits(n: nat): string
    decreases n
  {
    if n < 16 then [HexDigit(n)] else HexDigits(n / 16) + [HexDigit(n % 16)]
  }

  /** `Integer.toHexString(n)`: the unsigned 32-bit value of `n` in base 16,
      so a negative `n` is written as `n + 2^32`. */
  function ToHexString(n: int32): (s: string)
    ensures |s| > 0 && AllHexDigits(s)
    ensures HexValue(s) == if n < 0 then n as int + 0x1_0000_0000 else n as int
    ensures forall i | 0 <= i < |s| :: '0' <= s[i] <= '9' || 'a' <= s[i] <= 'f'
    ensures |s| > 1 ==> s[0] != '0'
  {
    var u := if n < 0 then n as int + 0x1_0000_0000 else n as int;
    HexDigitsAreDigits(u);
    HexDigitsCanonical(u);
    HexDigits(u)
  }

  // ---------------------------------------------------------------------------
  // String.toInt(16)

  /** `Character.digit(c, 16) >= 0`: ASCII and full-width hexadecimal digits. */
  predicate IsHexDigit(c: char) {
    || '0' <= c <= '9' || 'a' <= c <= 'f' || 'A' <= c <= 'F'
    || '\U{FF10}' <= c <= '\U{FF19}'
    || '\U{FF41}' <= c <= '\U{FF46}' || '\U{FF21}' <= c <= '\U{FF26}'
  }

  /** `Character.digit(c, 16)` for a digit. */
  function HexDigitValue(c: char): (d: nat)
    requires IsHexDigit(c)
    ensures d < 16
  {
    if '0' <= c <= '9' then (c - '0') as nat
    else if 'a' <= c <= 'f' then (c - 'a') as nat + 10
    else if 'A' <= c <= 'F' then (c - 'A') as nat + 10
    else if '\U{FF10}' <= c <= '\U{FF19}' then (c - '\U{FF10}') as nat
    else if '\U{FF41}' <= c <= '\U{FF46}' then (c - '\U{FF41}') as nat + 10
    else (c - '\U{FF21}') as nat + 10
  }

  predicate AllHexDigits(s: string) {
    forall i | 0 <= i < |s| :: IsHexDigit(s[i])
  }

  /** The magnitude a string of hexadecimal digits denotes. */
  function HexValue(s: string): nat
    requires AllHexDigits(s)
  {
    if s == [] then 0 else HexValue(s[..|s| - 1]) * 16 + HexDigitValue(s[|s| - 1])
  }

  /** `String.toInt(16)`, with `None` where it throws `NumberFormatException`:
      an optional `-` or `+`, at least one digit, and a value that fits an `Int`. */
  function ParseInt16(s: string): (r: Option<int32>)
    ensures r.Some? ==> |s| > 0 && !IsWhitespace(s[0])
    ensures r.Some? && r.value < 0 ==> s[0] == '-'
    ensures |s| > 0 && AllHexDigits(s) && HexValue(s) <= IntMax ==> r == Some(HexValue(s) as int32)
    ensures |s| > 0 && AllHexDigits(s) && HexValue(s) > IntMax ==> r.None?
    ensures (exists i | 0 < i < |s| :: !IsHexDigit(s[i])) ==> r.None?
    ensures r.Some? ==>
      var digits := if s[0] == '-' || s[0] == '+' then s[1..] else s;
      && |digits| > 0 && AllHexDigits(digits)
      && r.value as int == if s[0] == '-' then -(HexValue(digits) as int) else HexValue(digits) as int
  {
    if |s| == 0 then None
    else
      var signed := s[0] == '-' || s[0] == '+';
      var digits := if signed then s[1..] else s;
      if |digits| == 0 || !AllHexDigits(digits) then None
      else
        var v := if s[0] == '-' then -(HexValue(digits) as int) else HexValue(digits) as int;
        if IntMin <= v <= IntMax then Some(v as int32) else None
  }

  lemma {:induction false} HexDigitsAreDigits(n: nat)
    ensures |HexDigits(n)| > 0 && AllHexDigits(HexDigits(n))
    ensures HexValue(HexDigits(n)) == n
    decreases n
  {
    if n >= 16 {
      HexDigitsAreDigits(n / 16);
      var s := HexDigits(n);
      assert s[..|s| - 1] == HexDigits(n / 16);
    }
  }

  /** The digits are lower-case ASCII, with no leading zero unless the number
      is zero. */
  lemma {:induction false} HexDigitsCanonical(n: nat)
    ensures forall i | 0 <= i < |HexDigits(n)| :: '0' <= HexDigits(n)[i] <= '9' || 'a' <= HexDigits(n)[i] <= 'f'
    ensures |HexDigits(n)| > 1 ==> HexDigits(n)[0] != '0'
    decreases n
  {
    if n >= 16 {
      HexDigitsCanonical(n / 16);
      assert HexDigits(n)[0] == HexDigits(n / 16)[0];
    }
  }

  /** `toHexString` followed by `toInt(16)` gives back every non-negative `Int`. */
  lemma HexRoundTrip(n: int32)
    requires n >= 0
    ensures ParseInt16(ToHexString(n)) == Some(n)
  {
  }

  /** A negative `Int` goes through `toHexString` as a value above `Int.MAX_VALUE`,
      so `toInt(16)` rejects what `toHexString` wrote. */
  lemma HexOfNegativeDoesNotParse(n: int32)
    requires n < 0
    ensures ParseInt16(ToHexString(n)).None?
  {
    var s := ToHexString(n);
    assert s[0] != '-' && s[0] != '+' by { assert IsHexDigit(s[0]); }
  }

  /** Distinct non-negative ids never share a hexadecimal name. */
  lemma HexStringInjective(a: int32, b: int32)
    requires a >= 0 && b >= 0 && ToHexString(a) == ToHexString(b)
    ensures a == b
  {
    HexRoundTrip(a);
    HexRoundTrip(b);
  }

  /** A blank key never parses: `toInt(16)` throws on it. */
  lemma BlankDoesNotParse(s: string)
    requires IsBlank(s)
    ensures ParseInt16(s).None?
  {
    if |s| > 0 {
      assert IsWhitespace(s[0]);
    }
  }

  // ---------------------------------------------------------------------------
  // Long.toString

  function DecimalDigits(n: nat): string
    decreases n
  {
    if n < 10 then ['0' + n as char] else DecimalDigits(n / 10) + ['0' + (n % 10) as char]
  }

  predicate AllDecimalDigits(s: string) {
    forall i | 0 <= i < |s| :: '0' <= s[i] <= '9'
  }

  function DecimalValue(s: string): nat
    requires AllDecimalDigits(s)
  {
    if s == [] then 0 else DecimalValue(s[..|s| - 1]) * 10 + (s[|s| - 1] - '0') as nat
  }

  /** `Long.toString()` in base 10, as a string template writes it: a '-'
      exactly for negative values, then the decimal digits of the magnitude. */
  function LongToString(n: int64): (s: string)
    ensures |s| > 0 && (s[0] == '-' <==> n < 0)
    ensures var digits := if n < 0 then s[1..] else s;
      |digits| > 0 && AllDecimalDigits(digits) && DecimalValue(digits) == if n < 0 then -(n as int) else n as int
  {
    var m := if n < 0 then -(n as int) else n as int;
    DecimalDigitsAreDigits(m);
    if n < 0 then "-" + DecimalDigits(m) else DecimalDigits(m)
  }

  lemma {:induction false} DecimalDigitsAreDigits(n: nat)
    ensures |DecimalDigits(n)| > 0 && AllDecimalDigits(DecimalDigits(n))
    ensures DecimalValue(DecimalDigits(n)) == n
    decreases n
  {
    if n >= 10 {
      DecimalDigitsAreDigits(n / 10);
      var s := DecimalDigits(n);
      assert s[..|s| - 1] == DecimalDigits(n / 10);
    }
  }

  /** Distinct `Long`s are written as distinct strings. */
  lemma LongToStringInjective(a: int64, b: int64)
    requires LongToString(a) == LongToString(b)
    ensures a == b
  {
  }
}
