/**
 Decimal integer parsing as done by Rust's `str::parse::<i64>()` and
 `str::parse::<usize>()`, which the bencode decoder relies on.

 Rust parses the UTF-8 bytes of the text: an empty text is an error, a sign
 alone is an error, a leading `+` is skipped, a leading `-` is skipped only
 for a signed target type, and the remaining bytes must all be ASCII digits.
 The value is accumulated from the left with checked multiplication and
 addition (subtraction for a negative number), so any intermediate overflow
 is an error. Leading zeros are accepted.
 */
module IntParse {

  /** One byte of a UTF-8 encoded string. */
  newtype byte = x: int | 0 <= x < 256

  datatype Option<+T> = None | Some(value: T)

  const PLUS: byte := 43   // '+'
  const MINUS: byte := 45  // '-'
  const ZERO: byte := 48   // '0'

  const I64_MIN: int := -0x8000_0000_0000_0000
  const I64_MAX: int := 0x7FFF_FFFF_FFFF_FFFF
  /** `usize` on a 64-bit target. */
  const USIZE_MAX: int := 0xFFFF_FFFF_FFFF_FFFF

  newtype i64 = x: int | -0x8000_0000_0000_0000 <= x <= 0x7FFF_FFFF_FFFF_FFFF

  predicate IsDigit(b: byte) {
    ZERO <= b <= ZERO + 9
  }

  function DigitValue(b: byte): (d: nat)
    requires IsDigit(b)
    ensures d < 10
  {
    (b - ZERO) as nat
  }

  predicate AllDigits(s: seq<byte>) {
    forall i :: 0 <= i < |s| ==> IsDigit(s[i])
  }

  /** A non-empty run of ASCII digits. */
  predicate IsDigits(s: seq<byte>) {
    |s| > 0 && AllDigits(s)
  }

  /** The number a run of decimal digits denotes, most significant first. */
  function DecimalValue(s: seq<byte>): nat
    requires AllDigits(s)
  {
    if |s| == 0 then 0 else DecimalValue(s[..|s| - 1]) * 10 + DigitValue(s[|s| - 1])
  }

  function Signed(negative: bool, magnitude: nat): int {
    if negative then -(magnitude as int) else magnitude
  }

  // ---------------------------------------------------------------------
  // Reference grammar
  // ---------------------------------------------------------------------

  /** `text` is an optional `+` or `-` followed by at least one digit, and denotes `n`. */
  ghost predicate IsSignedDecimal(text: seq<byte>, n: int) {
    || (IsDigits(text) && n == DecimalValue(text))
    || (|text| > 0 && text[0] == PLUS && IsDigits(text[1..]) && n == DecimalValue(text[1..]))
    || (|text| > 0 && text[0] == MINUS && IsDigits(text[1..]) && n == -(DecimalValue(text[1..]) as int))
  }

  /** `text` is an optional `+` followed by at least one digit, and denotes `n`. */
  ghost predicate IsUnsignedDecimal(text: seq<byte>, n: int) {
    || (IsDigits(text) && n == DecimalValue(text))
    || (|text| > 0 && text[0] == PLUS && IsDigits(text[1..]) && n == DecimalValue(text[1..]))
  }

  // ---------------------------------------------------------------------
  // The parser
  // ---------------------------------------------------------------------

  /**
   The digit loop: reads `ds` left to right, multiplying the running value
   by ten and adding (or, for a negative number, subtracting) each digit,
   failing on a non-digit or as soon as a step leaves [lo, hi].
   Written over the prefix so that the last step is the outermost call.
   */
  function Accumulate(ds: seq<byte>, negative: bool, lo: int, hi: int): (r: Option<int>)
    requires lo <= 0 <= hi
    ensures r.Some? ==> lo <= r.value <= hi
  {
    if |ds| == 0 then Some(0)
    else
      match Accumulate(ds[..|ds| - 1], negative, lo, hi)
      case None => None
      case Some(acc) =>
        var last := ds[|ds| - 1];
        if !IsDigit(last) then None
        else if !(lo <= acc * 10 <= hi) then None
        else
          var next := if negative then acc * 10 - DigitValue(last) else acc * 10 + DigitValue(last);
          if lo <= next <= hi then Some(next) else None
  }

  /** Sign handling in front of the digit loop. */
  function ParseInteger(s: seq<byte>, signedType: bool, lo: int, hi: int): (r: Option<int>)
    requires lo <= 0 <= hi
    ensures r.Some? ==> lo <= r.value <= hi
  {
    if |s| == 0 then None
    else if |s| == 1 && (s[0] == PLUS || s[0] == MINUS) then None
    else if s[0] == PLUS then Accumulate(s[1..], false, lo, hi)
    else if s[0] == MINUS && signedType then Accumulate(s[1..], true, lo, hi)
    else Accumulate(s, false, lo, hi)
  }

  /** `text.parse::<i64>()`: succeeds exactly on a signed decimal text
      whose value fits in 64 signed bits, and returns that value. */
  function ParseI64(text: seq<byte>): (r: Option<i64>)
    ensures r.Some? ==> IsSignedDecimal(text, r.value as int)
    ensures forall n :: IsSignedDecimal(text, n) && I64_MIN <= n <= I64_MAX ==> r == Some(n as i64)
  {
    ParseIntegerCorrect(text, true, I64_MIN, I64_MAX);
    match ParseInteger(text, true, I64_MIN, I64_MAX)
    case None => None
    case Some(n) => Some(n as i64)
  }

  /** `text.parse::<usize>()`: succeeds exactly on an unsigned decimal text
      whose value fits in a 64-bit `usize`, and returns that value. */
  function ParseUsize(text: seq<byte>): (r: Option<nat>)
    ensures r.Some? ==> IsUnsignedDecimal(text, r.value) && r.value <= USIZE_MAX
    ensures forall n :: IsUnsignedDecimal(text, n) && 0 <= n <= USIZE_MAX ==> r == Some(n as nat)
  {
    ParseIntegerCorrect(text, false, 0, USIZE_MAX);
    match ParseInteger(text, false, 0, USIZE_MAX)
    case None => None
    case Some(n) => Some(n as nat)
  }

  // ---------------------------------------------------------------------
  // The parser against the reference grammar
  // ---------------------------------------------------------------------

  /** The checked digit loop yields exactly the value of the digits, or fails
      exactly when a byte is not a digit or the value is outside [lo, hi]. */
  lemma {:induction false} AccumulateCorrect(ds: seq<byte>, negative: bool, lo: int, hi: int)
    requires lo <= 0 <= hi
    ensures Accumulate(ds, negative, lo, hi) ==
      if AllDigits(ds) && lo <= Signed(negative, DecimalValue(ds)) <= hi
      then Some(Signed(negative, DecimalValue(ds)))
      else None
  {
    if |ds| > 0 {
      var prefix := ds[..|ds| - 1];
      AccumulateCorrect(prefix, negative, lo, hi);
      assert AllDigits(ds) ==> AllDigits(prefix);
      if AllDigits(ds) {
        assert DecimalValue(ds) == DecimalValue(prefix) * 10 + DigitValue(ds[|ds| - 1]);
        assert DecimalValue(prefix) <= DecimalValue(ds);
      }
    }
  }

  /** The grammar `ParseInteger` accepts: an optional `+` or `-` for a
      signed type, an optional `+` for an unsigned one, then digits. */
  ghost predicate IsDecimalOf(text: seq<byte>, signedType: bool, n: int) {
    if signedType then IsSignedDecimal(text, n) else IsUnsignedDecimal(text, n)
  }

  /** The sign handling and the digit loop together accept exactly the
      decimal texts whose value lies in [lo, hi], and return that value. */
  lemma ParseIntegerCorrect(text: seq<byte>, signedType: bool, lo: int, hi: int)
    requires lo <= 0 <= hi
    ensures ParseInteger(text, signedType, lo, hi).Some?
            ==> IsDecimalOf(text, signedType, ParseInteger(text, signedType, lo, hi).value)
    ensures forall n ::
              IsDecimalOf(text, signedType, n) && lo <= n <= hi ==> ParseInteger(text, signedType, lo, hi) == Some(n)
  {
    AccumulateCorrect(text, false, lo, hi);
    if |text| > 0 {
      AccumulateCorrect(text[1..], false, lo, hi);
      AccumulateCorrect(text[1..], true, lo, hi);
    }
  }

  /** `parse::<i64>` succeeds with `n` exactly when the text is a signed
      decimal denoting `n` and `n` fits in 64 signed bits. */
  lemma ParseI64Correct(text: seq<byte>, n: int)
    ensures (ParseI64(text).Some? && ParseI64(text).value as int == n)
            <==> (IsSignedDecimal(text, n) && I64_MIN <= n <= I64_MAX)
  {
  }

  /** `parse::<usize>` succeeds with `n` exactly when the text is an unsigned
      decimal denoting `n` and `n` fits in a 64-bit `usize`. */
  lemma ParseUsizeCorrect(text: seq<byte>, n: int)
    ensures (ParseUsize(text).Some? && ParseUsize(text).value == n)
            <==> (IsUnsignedDecimal(text, n) && n <= USIZE_MAX)
  {
  }

  /** Whatever `parse::<usize>` accepts starts with `+` or a digit. */
  lemma ParseUsizeLeadingByte(text: seq<byte>)
    ensures ParseUsize(text).Some? ==> |text| > 0 && (text[0] == PLUS || IsDigit(text[0]))
  {
    if ParseUsize(text).Some? {
      ParseUsizeCorrect(text, ParseUsize(text).value);
    }
  }

  // ---------------------------------------------------------------------
  // Canonical decimal text, the inverse of parsing
  // ---------------------------------------------------------------------

  /** The shortest decimal digits of `n`. */
  function Digits(n: nat): (s: seq<byte>)
    ensures IsDigits(s) && DecimalValue(s) == n
  {
    if n < 10 then [ZERO + n as byte]
    else
      var high := Digits(n / 10);
      var s := high + [ZERO + (n % 10) as byte];
      assert s[..|s| - 1] == high;
      s
  }

  /** The decimal text of `n`, with a `-` in front when it is negative. */
  function Decimal(n: int): (s: seq<byte>)
    ensures IsSignedDecimal(s, n)
    ensures forall i :: 0 <= i < |s| ==> s[i] == MINUS || IsDigit(s[i])
  {
    if n < 0 then
      var s := [MINUS] + Digits(-n);
      assert s[1..] == Digits(-n);
      s
    else Digits(n)
  }

  /** Parsing the decimal text of any 64-bit integer gives it back. */
  lemma ParseI64Decimal(n: i64)
    ensures ParseI64(Decimal(n as int)) == Some(n)
  {
    ParseI64Correct(Decimal(n as int), n as int);
  }

  /** Parsing the digits of any `usize` gives it back. */
  lemma ParseUsizeDigits(n: nat)
    requires n <= USIZE_MAX
    ensures ParseUsize(Digits(n)) == Some(n)
  {
    ParseUsizeCorrect(Digits(n), n);
  }

  // ---------------------------------------------------------------------
  // Leading zeros are accepted and not normalised away as an error
  // ---------------------------------------------------------------------

  function Zeros(k: nat): (s: seq<byte>)
    ensures |s| == k && forall i :: 0 <= i < k ==> s[i] == ZERO
  {
    if k == 0 then [] else [ZERO] + Zeros(k - 1)
  }

  /** A leading `0` does not change the value of a run of digits. */
  lemma {:induction false} LeadingZeroValue(ds: seq<byte>)
    requires AllDigits(ds)
    ensures AllDigits([ZERO] + ds) && DecimalValue([ZERO] + ds) == DecimalValue(ds)
  {
    var z := [ZERO] + ds;
    if |ds| > 0 {
      assert z[..|z| - 1] == [ZERO] + ds[..|ds| - 1];
      LeadingZeroValue(ds[..|ds| - 1]);
    }
  }

  /** Any number of leading zeros leaves the value unchanged. */
  lemma {:induction false} LeadingZerosValue(k: nat, ds: seq<byte>)
    requires AllDigits(ds)
    ensures AllDigits(Zeros(k) + ds) && DecimalValue(Zeros(k) + ds) == DecimalValue(ds)
  {
    if k > 0 {
      LeadingZerosValue(k - 1, ds);
      assert Zeros(k) + ds == [ZERO] + (Zeros(k - 1) + ds);
      LeadingZeroValue(Zeros(k - 1) + ds);
    } else {
      assert Zeros(k) + ds == ds;
    }
  }

  function SignText(negative: bool): seq<byte> {
    if negative then [MINUS] else []
  }

  /** `parse::<i64>` accepts leading zeros after an optional sign: the text
      `sign 0…0 digits(n)` denotes `n` (or `-n`), including `-0`. */
  lemma ParseI64LeadingZeros(k: nat, negative: bool, n: nat)
    requires I64_MIN <= Signed(negative, n) <= I64_MAX
    ensures ParseI64(SignText(negative) + Zeros(k) + Digits(n)) == Some(Signed(negative, n) as i64)
  {
    var body := Zeros(k) + Digits(n);
    LeadingZerosValue(k, Digits(n));
    assert IsDigits(body);
    var text := SignText(negative) + Zeros(k) + Digits(n);
    if negative {
      assert text == [MINUS] + body;
      assert text[1..] == body;
    } else {
      assert text == body;
    }
    ParseI64Correct(text, Signed(negative, n));
  }
}
