/** `DurationPrecision::format` and `parse_decimal_duration`. */
module Durations {
  import opened Results
  import opened Bytes
  import opened Decimals
  import opened Delimited
  import opened KvpErrors

  const NANOS_PER_SECOND: nat := 1_000_000_000
  const U32_LIMIT: nat := 0x1_0000_0000

  datatype Duration = Duration(secs: nat, nanos: nat) {
    predicate Valid() {
      secs < U64_LIMIT && nanos < NANOS_PER_SECOND
    }
  }

  datatype DurationPrecision = Seconds | Millis | Micros | Nanos {
    function Digits(): nat {
      match this
      case Seconds => 0
      case Millis => 3
      case Micros => 6
      case Nanos => 9
    }
  }

  /** `{n:0width$}`: at least `width` digits. */
  function Padded(n: nat, width: nat): (s: Text)
    ensures AllDigits(s)
  {
    var s := Decimal(n);
    if |s| < width then seq(width - |s|, _ => ZERO) + s else s
  }

  function Quotient(n: nat, unit: nat): (q: nat)
    requires unit > 0
    ensures q * unit <= n
  {
    n / unit
  }

  function Format(d: Duration, precision: DurationPrecision): Text {
    if precision.Seconds? then Decimal(d.secs)
    else
      var digits := precision.Digits();
      Decimal(d.secs) + [DOT] + Padded(Quotient(d.nanos, Pow10(9 - digits)), digits)
  }

  /** The duration with the digits below the precision discarded. */
  function Truncated(d: Duration, precision: DurationPrecision): Duration {
    var unit := Pow10(9 - precision.Digits());
    Duration(d.secs, Quotient(d.nanos, unit) * unit)
  }

  function ParseFraction(fraction: Text): (r: Result<nat, DecodeError>) {
    if fraction == [] || |fraction| > 9 || !AllDigits(fraction) then Err(Malformed)
    else if DigitsValue(fraction) >= U32_LIMIT then Err(Malformed)
    else Ok(DigitsValue(fraction) * Pow10(9 - |fraction|))
  }

  function ParseDecimalDuration(value: Text): Result<Duration, DecodeError> {
    match SplitOnce(value, DOT)
    case None =>
      var secs :- ParseUnsigned(value);
      Ok(Duration(secs, 0))
    case Some((seconds, fraction)) =>
      var secs :- ParseUnsigned(seconds);
      var nanos :- ParseFraction(fraction);
      Ok(Duration(secs, nanos))
  }

  lemma Pow10Nine()
    ensures Pow10(9) == NANOS_PER_SECOND
  {
    assert Pow10(3) == 10 * Pow10(2) && Pow10(2) == 10 * Pow10(1);
    assert Pow10(6) == 10 * Pow10(5) && Pow10(5) == 10 * Pow10(4) && Pow10(4) == 10 * Pow10(3);
    assert Pow10(9) == 10 * Pow10(8) && Pow10(8) == 10 * Pow10(7) && Pow10(7) == 10 * Pow10(6);
  }

  lemma {:induction false} LeadingZeros(k: nat, s: Text)
    requires AllDigits(s)
    ensures DigitsValue(seq(k, _ => ZERO) + s) == DigitsValue(s)
    decreases |s|, k
  {
    var z := seq(k, _ => ZERO);
    var t := z + s;
    if s != [] {
      assert t[..|t| - 1] == z + s[..|s| - 1];
      LeadingZeros(k, s[..|s| - 1]);
    } else if k > 0 {
      assert t[..|t| - 1] == seq(k - 1, _ => ZERO) + s;
      LeadingZeros(k - 1, s);
    }
  }

  lemma PaddedDigits(n: nat, width: nat)
    requires width > 0 && n < Pow10(width)
    ensures |Padded(n, width)| == width && DigitsValue(Padded(n, width)) == n
  {
    DecimalLength(n, width);
    if |Decimal(n)| < width {
      LeadingZeros(width - |Decimal(n)|, Decimal(n));
    }
  }

  lemma DigitsHaveNoDot(s: Text)
    requires AllDigits(s)
    ensures DOT !in s && BAR !in s && NUL !in s
  {
  }

  /** The fraction's u32 arithmetic never overflows, and gives the exact number of nanoseconds. */
  lemma FractionExact(fraction: Text)
    ensures ParseFraction(fraction).Ok? <==> 0 < |fraction| <= 9 && AllDigits(fraction)
    ensures ParseFraction(fraction).Ok? ==>
              && ParseFraction(fraction).value < NANOS_PER_SECOND < U32_LIMIT
              && ParseFraction(fraction).value * Pow10(|fraction|) == DigitsValue(fraction) * NANOS_PER_SECOND
  {
    if 0 < |fraction| <= 9 && AllDigits(fraction) {
      var n := |fraction|;
      DigitsValueBound(fraction);
      Pow10Add(n, 9 - n);
      Pow10Nine();
      Scaled(DigitsValue(fraction), Pow10(n), Pow10(9 - n));
    }
  }

  lemma Scaled(v: nat, a: nat, b: nat)
    requires v < a && b > 0
    ensures v < a * b && v * b < a * b && v * b * a == v * (a * b)
  {
    ScaleBelow(v, a, b);
    assert v * b * a == v * (b * a) == v * (a * b);
  }

  lemma ScaleBelow(v: nat, a: nat, b: nat)
    requires v < a && b > 0
    ensures v * b < a * b && a <= a * b
  {
  }

  /** Formatting then parsing gives the duration, truncated to the precision. */
  lemma DurationRoundTrip(d: Duration, precision: DurationPrecision)
    requires d.Valid()
    ensures ParseDecimalDuration(Format(d, precision)) == Ok(Truncated(d, precision))
    ensures Truncated(d, precision).Valid()
    ensures Format(d, precision) != [] && BAR !in Format(d, precision) && NUL !in Format(d, precision)
  {
    var s := Decimal(d.secs);
    DigitsHaveNoDot(s);
    Pow10Nine();
    if precision.Seconds? {
      FindNone(s, DOT);
    } else {
      var digits := precision.Digits();
      var unit := Pow10(9 - digits);
      var n := Quotient(d.nanos, unit);
      Pow10Add(digits, 9 - digits);
      assert n < Pow10(digits) by {
        QuotientBelow(d.nanos, unit, Pow10(digits));
      }
      var f := Padded(n, digits);
      PaddedDigits(n, digits);
      DigitsHaveNoDot(f);
      SplitOnceAt(s, DOT, f);
      FractionExact(f);
    }
  }

  /** `whole` is the number of seconds in plain decimal. */
  predicate PlainDigits(whole: Text, n: nat) {
    && whole != [] && (forall i :: 0 <= i < |whole| ==> 48 <= whole[i] <= 57)
    && DigitsValue(whole) == n && (whole[0] == 48 ==> |whole| == 1)
  }

  /** `whole`, a point, and `n` in exactly this many digits. */
  ghost predicate PointText(text: Text, whole: Text, n: nat, digits: nat) {
    exists fraction: Text ::
      && text == whole + Ascii(".") + fraction && |fraction| == digits
      && AllDigits(fraction) && DigitsValue(fraction) == n
  }

  /** The text of a duration: whole seconds, or a point and 3, 6 or 9 digits, the rest discarded. */
  ghost predicate IsDurationText(d: Duration, precision: DurationPrecision, text: Text) {
    exists whole: Text :: PlainDigits(whole, d.secs) &&
      match precision
      case Seconds => text == whole
      case Millis => PointText(text, whole, d.nanos / 1_000_000, 3)
      case Micros => PointText(text, whole, d.nanos / 1_000, 6)
      case Nanos => PointText(text, whole, d.nanos, 9)
  }

  lemma UnitsOfPowers()
    ensures Pow10(0) == 1 && Pow10(3) == 1_000 && Pow10(6) == 1_000_000 && Pow10(9) == 1_000_000_000
  {
    Pow10Nine();
    assert Pow10(3) == 10 * Pow10(2) && Pow10(2) == 10 * Pow10(1);
    assert Pow10(6) == 10 * Pow10(5) && Pow10(5) == 10 * Pow10(4) && Pow10(4) == 10 * Pow10(3);
  }

  lemma FractionText(d: Duration, whole: Text, digits: nat, unit: nat)
    requires d.Valid() && 0 < digits <= 9 && unit == Pow10(9 - digits)
    ensures PointText(whole + [DOT] + Padded(Quotient(d.nanos, unit), digits), whole, d.nanos / unit, digits)
  {
    Pow10Nine();
    Pow10Add(digits, 9 - digits);
    QuotientBelow(d.nanos, unit, Pow10(digits));
    PaddedDigits(Quotient(d.nanos, unit), digits);
    assert Ascii(".") == [DOT];
  }

  /** What a duration is written as. */
  lemma FormattedText(d: Duration, precision: DurationPrecision)
    requires d.Valid()
    ensures IsDurationText(d, precision, Format(d, precision))
  {
    hide Padded, Quotient, Pow10, PointText;
    var whole := Decimal(d.secs);
    DecimalPlain(d.secs);
    assert PlainDigits(whole, d.secs);
    UnitsOfPowers();
    match precision
    case Seconds =>
    case Millis => FractionText(d, whole, 3, 1_000_000);
    case Micros => FractionText(d, whole, 6, 1_000);
    case Nanos =>
      FractionText(d, whole, 9, 1);
      assert d.nanos / 1 == d.nanos;
  }

  /** And what it is read back as: whole seconds, milliseconds, microseconds or nanoseconds. */
  lemma FormattedParses(d: Duration, precision: DurationPrecision)
    requires d.Valid()
    ensures var unit := match precision
                        case Seconds => 1_000_000_000
                        case Millis => 1_000_000
                        case Micros => 1_000
                        case Nanos => 1;
            ParseDecimalDuration(Format(d, precision)) == Ok(Duration(d.secs, d.nanos / unit * unit))
  {
    hide Pow10, ParseDecimalDuration, Format;
    DurationRoundTrip(d, precision);
    UnitsOfPowers();
  }

  lemma QuotientBelow(n: nat, unit: nat, k: nat)
    requires unit > 0 && n < k * unit
    ensures Quotient(n, unit) < k
  {
    var q := Quotient(n, unit);
    assert q < k || q * unit >= k * unit;
  }

  /** Without a point the parser accepts exactly the 64-bit numbers, read as whole seconds. */
  lemma ParseWhole(value: Text)
    requires DOT !in value
    ensures ParseDecimalDuration(value) ==
            if value != [] && AllDigits(value) && DigitsValue(value) < U64_LIMIT
            then Ok(Duration(DigitsValue(value), 0)) else Err(Malformed)
  {
    FindNone(value, DOT);
  }

  /** With a point it wants one to nine digits behind it, and reads the exact decimal value. */
  lemma ParsePoint(seconds: Text, fraction: Text)
    requires DOT !in seconds
    ensures var r := ParseDecimalDuration(seconds + [DOT] + fraction);
            && (r.Ok? <==> seconds != [] && AllDigits(seconds) && DigitsValue(seconds) < U64_LIMIT
                           && 0 < |fraction| <= 9 && AllDigits(fraction))
            && (r.Ok? ==>
                  && r.value.Valid() && r.value.secs == DigitsValue(seconds)
                  && r.value.nanos * Pow10(|fraction|) == DigitsValue(fraction) * NANOS_PER_SECOND)
  {
    SplitOnceAt(seconds, DOT, fraction);
    FractionExact(fraction);
  }
}
