/**
 * Go's `strconv.ParseInt(s, 10, 64)` as the parser uses it: the value is
 * kept and the error dropped, so a syntax error reads as 0 and an
 * out-of-range number as the nearest int64 bound.
 *
 * `ParseInt` strips one sign and hands the rest to `ParseUint`, whose loop
 * reads the digits left to right and stops at the first byte that is not a
 * digit (syntax error) or at the first digit that takes the value past the
 * uint64 maximum (range error), whichever comes first.
 */
module GoStrconv {

  const MaxUint64: int := 0xFFFF_FFFF_FFFF_FFFF
  const MaxInt64: int := 0x7FFF_FFFF_FFFF_FFFF
  const MinInt64: int := -0x8000_0000_0000_0000

  predicate IsDigit(c: char) {
    '0' <= c <= '9'
  }

  predicate AllDigits(s: string) {
    forall i :: 0 <= i < |s| ==> IsDigit(s[i])
  }

  function DigitValue(c: char): nat
    requires IsDigit(c)
  {
    c as int - '0' as int
  }

  /** The decimal value of the digits `s` read after the digits already worth `n`. */
  function Accumulate(n: nat, s: string): nat
    requires AllDigits(s)
    decreases |s|
  {
    if s == [] then n else Accumulate(n * 10 + DigitValue(s[0]), s[1..])
  }

  /** The decimal value of an all-digit string. */
  function DecimalValue(s: string): nat
    requires AllDigits(s)
  {
    Accumulate(0, s)
  }

  /** What the loop of `ParseUint` returns. */
  datatype UintResult = Value(n: nat) | SyntaxError | RangeError

  /**
   * The loop of `ParseUint`, continuing from the value `n` read so far: a
   * value is returned only when every byte is a digit, and it is the decimal
   * value they make, within uint64.
   */
  function ScanUint(n: nat, s: string): (r: UintResult)
    requires n <= MaxUint64
    ensures r.Value? ==> AllDigits(s) && r.n == Accumulate(n, s) && r.n <= MaxUint64
    decreases |s|
  {
    if s == [] then Value(n)
    else if !IsDigit(s[0]) then SyntaxError
    else
      var n1 := n * 10 + DigitValue(s[0]);
      if n1 > MaxUint64 then RangeError else ScanUint(n1, s[1..])
  }

  /**
   * Go's `strconv.ParseUint(s, 10, 64)`: an empty string is a syntax error,
   * and a value is returned only for a non-empty run of digits, as its
   * decimal value.
   */
  function ParseUint(s: string): (r: UintResult)
    ensures s == [] ==> r == SyntaxError
    ensures r.Value? ==> s != [] && AllDigits(s) && r.n == DecimalValue(s) <= MaxUint64
  {
    if s == [] then SyntaxError else ScanUint(0, s)
  }

  /** Go's `strconv.ParseInt(s, 10, 64)`, keeping only the returned value. */
  function ParseInt(s: string): (r: int)
    ensures MinInt64 <= r <= MaxInt64
  {
    if s == [] then 0
    else
      var neg := s[0] == '-';
      var digits := if s[0] == '+' || s[0] == '-' then s[1..] else s;
      match ParseUint(digits)
      case SyntaxError => 0
      case RangeError => if neg then MinInt64 else MaxInt64
      case Value(u) =>
        if !neg && u > MaxInt64 then MaxInt64
        else if neg && u > -MinInt64 then MinInt64
        else if neg then -(u as int)
        else u
  }

  /** Reading more digits never lowers the value. */
  lemma {:induction false} AccumulateGrows(n: nat, s: string)
    requires AllDigits(s)
    ensures n <= Accumulate(n, s)
    decreases |s|
  {
    if s != [] {
      AccumulateGrows(n * 10 + DigitValue(s[0]), s[1..]);
    }
  }

  /** All digits, and the number fits: the loop returns its decimal value. */
  lemma {:induction false} ScanUintFits(n: nat, s: string)
    requires n <= MaxUint64
    requires AllDigits(s) && Accumulate(n, s) <= MaxUint64
    ensures ScanUint(n, s) == Value(Accumulate(n, s))
    decreases |s|
  {
    if s != [] {
      var n1 := n * 10 + DigitValue(s[0]);
      AccumulateGrows(n1, s[1..]);
      ScanUintFits(n1, s[1..]);
    }
  }

  /**
   * The digits at the front already pass the uint64 maximum: the loop reports
   * a range error whatever follows them, even bytes that are not digits.
   */
  lemma {:induction false} ScanUintOverflows(n: nat, p: string, t: string)
    requires n <= MaxUint64
    requires AllDigits(p) && Accumulate(n, p) > MaxUint64
    ensures ScanUint(n, p + t) == RangeError
    decreases |p|
  {
    assert p != [];
    var n1 := n * 10 + DigitValue(p[0]);
    assert (p + t)[0] == p[0] && (p + t)[1..] == p[1..] + t;
    if n1 <= MaxUint64 {
      ScanUintOverflows(n1, p[1..], t);
    }
  }

  /** A byte that is not a digit, reached before any overflow, makes the loop a syntax error. */
  lemma {:induction false} ScanUintStops(n: nat, p: string, t: string)
    requires n <= MaxUint64
    requires AllDigits(p) && Accumulate(n, p) <= MaxUint64
    requires t != [] && !IsDigit(t[0])
    ensures ScanUint(n, p + t) == SyntaxError
    decreases |p|
  {
    if p == [] {
      assert p + t == t;
    } else {
      var n1 := n * 10 + DigitValue(p[0]);
      assert (p + t)[0] == p[0] && (p + t)[1..] == p[1..] + t;
      AccumulateGrows(n1, p[1..]);
      ScanUintStops(n1, p[1..], t);
    }
  }

  /** The optional sign `ParseInt` accepts. */
  predicate IsSign(sign: string) {
    sign == "" || sign == "+" || sign == "-"
  }

  /** The value a sign and a digit string denote, before any clamping. */
  function SignedValue(sign: string, digits: string): int
    requires AllDigits(digits)
  {
    if sign == "-" then -(DecimalValue(digits) as int) else DecimalValue(digits)
  }

  /** Sign and digits that denote an int64: `ParseInt` returns exactly that number. */
  lemma ParseIntExact(sign: string, digits: string)
    requires IsSign(sign) && digits != [] && AllDigits(digits)
    requires MinInt64 <= SignedValue(sign, digits) <= MaxInt64
    ensures ParseInt(sign + digits) == SignedValue(sign, digits)
  {
    var s := sign + digits;
    assert s[0] == (if sign == "" then digits[0] else sign[0]);
    assert (if sign == "" then s else s[1..]) == digits;
    ScanUintFits(0, digits);
  }

  /** Sign and digits beyond the int64 range: `ParseInt` clamps to the bound on that side. */
  lemma ParseIntClamps(sign: string, digits: string)
    requires IsSign(sign) && digits != [] && AllDigits(digits)
    requires !(MinInt64 <= SignedValue(sign, digits) <= MaxInt64)
    ensures ParseInt(sign + digits) == if sign == "-" then MinInt64 else MaxInt64
  {
    var s := sign + digits;
    assert s[0] == (if sign == "" then digits[0] else sign[0]);
    assert (if sign == "" then s else s[1..]) == digits;
    if DecimalValue(digits) <= MaxUint64 {
      ScanUintFits(0, digits);
    } else {
      assert digits + [] == digits;
      ScanUintOverflows(0, digits, []);
    }
  }

  /**
   * A byte that is not a digit after the sign and a run of digits that does
   * not overflow uint64, or no digit at all: `ParseInt` returns 0.
   */
  lemma ParseIntMalformed(sign: string, digits: string, rest: string)
    requires IsSign(sign) && AllDigits(digits) && DecimalValue(digits) <= MaxUint64
    requires rest == [] ==> digits == []
    requires rest != [] ==> !IsDigit(rest[0])
    requires sign == "" && digits == [] && rest != [] ==> rest[0] != '+' && rest[0] != '-'
    ensures ParseInt(sign + digits + rest) == 0
  {
    var s := sign + digits + rest;
    if s != [] {
      var unsigned := digits + rest;
      assert s == sign + unsigned;
      assert s[0] == (if sign == "" then unsigned[0] else sign[0]);
      assert (if s[0] == '+' || s[0] == '-' then s[1..] else s) == unsigned;
      if rest != [] {
        ScanUintStops(0, digits, rest);
      }
    }
  }

  /**
   * Go's quirk: digits that overflow uint64 are clamped even when junk
   * follows them, because the loop stops at the overflow before it sees the
   * junk. The sign picks the bound.
   */
  lemma ParseIntOverflowBeforeJunk(sign: string, digits: string, rest: string)
    requires IsSign(sign) && digits != [] && AllDigits(digits) && DecimalValue(digits) > MaxUint64
    ensures ParseInt(sign + digits + rest) == if sign == "-" then MinInt64 else MaxInt64
  {
    var s := sign + digits + rest;
    var unsigned := digits + rest;
    assert s == sign + unsigned;
    assert s[0] == (if sign == "" then unsigned[0] else sign[0]);
    assert (if s[0] == '+' || s[0] == '-' then s[1..] else s) == unsigned;
    ScanUintOverflows(0, digits, rest);
  }
}
