/** Decimal text as the converter reads and writes it: integer rendering (Rust's `Display`
    for integers), the integer and float parsers it calls (`str::parse`), and `join`. */
module Text {

  datatype Option<T> = None | Some(value: T)

  /** Largest `usize` on the 64-bit targets the application is built for. */
  const USIZE_MAX: nat := 0xFFFF_FFFF_FFFF_FFFF

  predicate IsDigit(c: char) { '0' <= c <= '9' }

  predicate AllDigits(s: string) { forall i :: 0 <= i < |s| ==> IsDigit(s[i]) }

  function DigitChar(d: nat): (c: char)
    requires d < 10
    ensures IsDigit(c) && DigitValue(c) == d
  {
    (('0' as int) + d) as char
  }

  function DigitValue(c: char): (d: nat)
    requires IsDigit(c)
    ensures d < 10
  {
    (c as int) - ('0' as int)
  }

  /** Value of a run of decimal digits, most significant first. */
  function DigitsValue(s: string): nat
    requires AllDigits(s)
  {
    if s == [] then 0 else DigitsValue(s[..|s| - 1]) * 10 + DigitValue(s[|s| - 1])
  }

  function Pow10(n: nat): (p: nat)
    ensures p >= 1
  {
    if n == 0 then 1 else 10 * Pow10(n - 1)
  }

  /** Decimal rendering of a natural number: digits only, and no leading zero unless the
      number is zero itself. */
  function NatToString(n: nat): (s: string)
    ensures |s| > 0 && AllDigits(s)
    ensures (s[0] == '0') == (n == 0)
    ensures |s| > 1 ==> s[0] != '0'
    decreases n
  {
    if n < 10 then [DigitChar(n)] else NatToString(n / 10) + [DigitChar(n % 10)]
  }

  /** Rendering of a signed integer: a minus sign before the magnitude when negative. */
  function IntToString(i: int): (s: string)
  {
    if i < 0 then "-" + NatToString(-i) else NatToString(i)
  }

  /** Reading the digits of `NatToString(n)` back gives `n`. */
  lemma {:induction false} NatToStringRoundTrip(n: nat)
    ensures DigitsValue(NatToString(n)) == n
    decreases n
  {
    if n >= 10 {
      var s := NatToString(n);
      NatToStringRoundTrip(n / 10);
      assert s[..|s| - 1] == NatToString(n / 10);
    }
  }

  /** Two naturals with the same rendering are equal. */
  lemma NatToStringInjective(m: nat, n: nat)
    requires NatToString(m) == NatToString(n)
    ensures m == n
  {
    NatToStringRoundTrip(m);
    NatToStringRoundTrip(n);
  }

  /** `s.parse::<usize>()`: an optional leading '+', then at least one ASCII digit and nothing
      else, and a value that fits in a `usize`; anything else is an error (`None`). */
  function ParseUsize(s: string): (r: Option<nat>)
    ensures r.Some? ==> r.value <= USIZE_MAX
  {
    var digits := if |s| > 0 && s[0] == '+' then s[1..] else s;
    if digits == [] || !AllDigits(digits) then None
    else if DigitsValue(digits) > USIZE_MAX then None
    else Some(DigitsValue(digits))
  }

  /** Every `usize` reads back from its own rendering. */
  lemma ParseUsizeRoundTrip(n: nat)
    requires n <= USIZE_MAX
    ensures ParseUsize(NatToString(n)) == Some(n)
  {
    NatToStringRoundTrip(n);
  }

  /** Number of leading decimal digits of `s`. */
  function LeadingDigits(s: string): (k: nat)
    ensures k <= |s| && AllDigits(s[..k])
    ensures k < |s| ==> !IsDigit(s[k])
  {
    if s == [] || !IsDigit(s[0]) then 0
    else
      var k := 1 + LeadingDigits(s[1..]);
      assert s[..k] == [s[0]] + s[1..][..k - 1];
      k
  }

  /** Value of the digits after a decimal point. */
  function FractionValue(d: string): real
    requires AllDigits(d)
  {
    (DigitsValue(d) as real) / (Pow10(|d|) as real)
  }

  /** An unsigned decimal numeral: digits, a point with digits after it, or both
      (`12`, `12.`, `.5`, `12.5`); a lone point or the empty text is not a number. */
  function ParseUnsignedDecimal(s: string): Option<real>
  {
    var k := LeadingDigits(s);
    var whole := DigitsValue(s[..k]) as real;
    if k == |s| then
      if k > 0 then Some(whole) else None
    else if s[k] == '.' && AllDigits(s[k + 1..]) && (k > 0 || k + 1 < |s|) then
      Some(whole + FractionValue(s[k + 1..]))
    else None
  }

  /** `s.parse::<f64>()` on plain decimal text: an optional sign, then an unsigned decimal
      numeral. The value is exact (no rounding to the nearest double). */
  function ParseFloat(s: string): Option<real>
  {
    if |s| > 0 && (s[0] == '+' || s[0] == '-') then
      match ParseUnsignedDecimal(s[1..])
      case None => None
      case Some(v) => Some(if s[0] == '-' then -v else v)
    else ParseUnsignedDecimal(s)
  }

  /** Text that starts with neither a sign, a digit nor a point is not a number. */
  lemma NotANumber(s: string)
    requires |s| > 0 && !IsDigit(s[0]) && s[0] !in "+-."
    ensures ParseFloat(s) == None
  {
    assert LeadingDigits(s) == 0;
  }

  /** The rendering of every integer reads back, as a float, to that integer. */
  lemma IntToStringReadsBack(i: int)
    ensures ParseFloat(IntToString(i)) == Some(i as real)
  {
    var m: nat := if i < 0 then -i else i;
    NatToStringReadsBack(m);
    if i < 0 {
      assert IntToString(i)[1..] == NatToString(m);
    }
  }

  /** The rendering of a natural number reads back, as an unsigned numeral, to that number. */
  lemma NatToStringReadsBack(m: nat)
    ensures ParseUnsignedDecimal(NatToString(m)) == Some(m as real)
  {
    var digits := NatToString(m);
    NatToStringRoundTrip(m);
    assert LeadingDigits(digits) == |digits|;
    assert digits[..|digits|] == digits;
  }

  /** The rendering of an integer never holds a decimal point. */
  lemma IntToStringHasNoPoint(i: int)
    ensures '.' !in IntToString(i)
  {
    var m: nat := if i < 0 then -i else i;
    var digits := NatToString(m);
    assert forall j :: 0 <= j < |digits| ==> digits[j] != '.';
    if i < 0 {
      assert forall j :: 0 <= j < |IntToString(i)| ==> IntToString(i)[j] != '.' by {
        forall j | 0 <= j < |IntToString(i)| ensures IntToString(i)[j] != '.' {
          if j > 0 { assert IntToString(i)[j] == digits[j - 1]; }
        }
      }
    }
  }

  /** `parts.join(sep)`: the parts in order with `sep` between neighbours. */
  function Join(parts: seq<string>, sep: string): string
  {
    if |parts| == 0 then ""
    else if |parts| == 1 then parts[0]
    else parts[0] + sep + Join(parts[1..], sep)
  }

  /** Plain concatenation of the parts in order. */
  function Concat(parts: seq<string>): string
  {
    if parts == [] then "" else parts[0] + Concat(parts[1..])
  }

  /** Joining with the empty separator is plain concatenation in order. */
  lemma {:induction false} JoinWithoutSeparator(parts: seq<string>)
    ensures Join(parts, "") == Concat(parts)
  {
    if |parts| > 1 {
      JoinWithoutSeparator(parts[1..]);
    } else if |parts| == 1 {
      assert Concat(parts[1..]) == "";
    }
  }
}
