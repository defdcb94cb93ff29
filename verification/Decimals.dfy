/** Decimal rendering and `parse_unsigned`. */
module Decimals {
  import opened Results
  import opened Bytes
  import opened KvpErrors

  const U64_LIMIT: nat := 0x1_0000_0000_0000_0000

  predicate IsDigit(b: byte) {
    ZERO <= b <= ZERO + 9
  }

  predicate AllDigits(s: Text) {
    forall i :: 0 <= i < |s| ==> IsDigit(s[i])
  }

  function DigitValue(b: byte): nat
    requires IsDigit(b)
  {
    (b - ZERO) as nat
  }

  /** The number a run of digits denotes; leading zeros do not matter. */
  function DigitsValue(s: Text): nat
    requires AllDigits(s)
  {
    if s == [] then 0 else 10 * DigitsValue(s[..|s| - 1]) + DigitValue(s[|s| - 1])
  }

  lemma DigitText(b: byte)
    ensures IsDigit(b) <==> b in Ascii("0123456789")
  {
    assert Ascii("0123456789") == [48, 49, 50, 51, 52, 53, 54, 55, 56, 57];
  }

  /** The digits are `0` to `9`, the most significant one first. */
  lemma DigitsExactly(s: Text, b: byte)
    ensures AllDigits(s) <==> forall i :: 0 <= i < |s| ==> s[i] in Ascii("0123456789")
    ensures AllDigits(s) && b in Ascii("0123456789") ==>
              AllDigits(s + [b]) && DigitsValue(s + [b]) == 10 * DigitsValue(s) + (b as nat - 48)
    ensures DigitsValue([]) == 0
  {
    hide Ascii;
    DigitText(b);
    forall i | 0 <= i < |s|
      ensures IsDigit(s[i]) <==> s[i] in Ascii("0123456789")
    {
      DigitText(s[i]);
    }
    assert (s + [b])[..|s|] == s;
  }

  function Decimal(n: nat): (s: Text)
    ensures |s| > 0 && AllDigits(s)
    ensures DigitsValue(s) == n
  {
    if n < 10 then [ZERO + n as byte]
    else
      var s := Decimal(n / 10);
      var t := s + [ZERO + (n % 10) as byte];
      assert t[..|t| - 1] == s;
      t
  }

  function Pow10(k: nat): (p: nat)
    ensures p > 0
  {
    if k == 0 then 1 else 10 * Pow10(k - 1)
  }

  lemma {:induction false} Pow10Add(a: nat, b: nat)
    ensures Pow10(a + b) == Pow10(a) * Pow10(b)
  {
    if a > 0 {
      Pow10Add(a - 1, b);
      assert Pow10(a + b) == 10 * Pow10(a - 1 + b);
    }
  }

  lemma {:induction false} DigitsValueBound(s: Text)
    requires AllDigits(s)
    ensures DigitsValue(s) < Pow10(|s|)
  {
    if s != [] {
      DigitsValueBound(s[..|s| - 1]);
    }
  }

  /** A number below a power of ten has no more digits than that. */
  lemma {:induction false} DecimalLength(n: nat, k: nat)
    requires 0 < k && n < Pow10(k)
    ensures |Decimal(n)| <= k
  {
    if n >= 10 {
      assert Pow10(k) == 10 * Pow10(k - 1);
      DecimalLength(n / 10, k - 1);
    }
  }

  /** No leading zero. */
  lemma {:induction false} DecimalPlain(n: nat)
    ensures Decimal(n)[0] == 48 ==> Decimal(n) == [48]
    ensures n > 0 ==> Decimal(n)[0] != 48
  {
    if n >= 10 {
      DecimalPlain(n / 10);
    }
  }

  /** A larger number has at least as many digits. */
  lemma {:induction false} DecimalGrows(a: nat, b: nat)
    requires a <= b
    ensures |Decimal(a)| <= |Decimal(b)|
  {
    if a >= 10 {
      DecimalGrows(a / 10, b / 10);
    }
  }

  /** `parse_unsigned`: a non-empty run of digits that fits 64 bits. */
  function ParseUnsigned(s: Text): (r: Result<nat, DecodeError>)
    ensures r.Ok? <==> s != [] && AllDigits(s) && DigitsValue(s) < 18_446_744_073_709_551_616
    ensures r.Ok? ==> r.value == DigitsValue(s)
  {
    if s == [] || !AllDigits(s) then Err(Malformed)
    else if DigitsValue(s) < U64_LIMIT then Ok(DigitsValue(s))
    else Err(Malformed)
  }

  /** Parsing undoes rendering for every 64-bit number. */
  lemma ParseDecimal(n: nat)
    ensures ParseUnsigned(Decimal(n)) == if n < U64_LIMIT then Ok(n) else Err(Malformed)
  {
  }
}
