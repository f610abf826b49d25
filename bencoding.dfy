/**
 The bencode value decoder of `src/bencoding.rs`.

 It knows only two of bencode's forms: an integer `i<decimal>e` and a byte
 string `<length>:<bytes>`. There is no remainder output, no list and no
 dictionary. Every panic of `bencode_decode` is the single failure
 outcome `None`.

 The input `&str` is taken as its UTF-8 bytes. The sigils `i`, `e` and `:`
 are ASCII, and an ASCII byte never occurs inside a multi-byte UTF-8
 sequence, so searching bytes finds the same positions that Rust's
 `strip_prefix` and `split_once` find on characters. Slicing `rest[..len]`
 is by byte position, as in Rust, including Rust's panic when `len` is past
 the end or not on a character boundary.
 */
module Bencoding {
  import opened IntParse

  const LOWER_I: byte := 105  // 'i'
  const LOWER_E: byte := 101  // 'e'
  const COLON: byte := 58     // ':'

  /** `BencodingValue`: a decoded byte string or a decoded 64-bit integer. */
  datatype Value = String(bytes: seq<byte>) | Integer(n: i64)

  // ---------------------------------------------------------------------
  // The string operations the decoder is built from
  // ---------------------------------------------------------------------

  /** `s.strip_prefix(c)`: the rest of `s` when it starts with `c`. */
  function StripPrefix(s: seq<byte>, c: byte): (r: Option<seq<byte>>)
    ensures r.Some? <==> |s| > 0 && s[0] == c
    ensures r.Some? ==> s == [c] + r.value
  {
    if |s| > 0 && s[0] == c then Some(s[1..]) else None
  }

  /** The position of the first `c` in `s`. */
  function IndexOf(s: seq<byte>, c: byte): (r: Option<nat>)
    ensures r.Some? ==> FirstIndex(s, c, r.value)
    ensures r.None? ==> c !in s
  {
    if |s| == 0 then None
    else if s[0] == c then Some(0)
    else
      match IndexOf(s[1..], c)
      case None => None
      case Some(k) =>
        assert s[..k + 1] == [s[0]] + s[1..][..k];
        Some(k + 1)
  }

  /** `s.split_once(c)`: the text before the first `c` and the text after it. */
  function SplitOnce(s: seq<byte>, c: byte): (r: Option<(seq<byte>, seq<byte>)>)
    ensures r.None? <==> c !in s
    ensures r.Some? ==> s == r.value.0 + [c] + r.value.1 && c !in r.value.0
  {
    match IndexOf(s, c)
    case None => None
    case Some(k) =>
      assert s == s[..k] + [c] + s[k + 1..];
      Some((s[..k], s[k + 1..]))
  }

  /** Rust's `str::is_char_boundary`: position 0, the end, or a byte that
      does not continue a multi-byte UTF-8 sequence (0x80..0xBF). */
  predicate IsCharBoundary(s: seq<byte>, index: nat): (b: bool)
    ensures b ==> index <= |s|
    ensures index < |s| && s[index] < 0x80 ==> b
  {
    index == 0 || index == |s| || (index < |s| && !(0x80 <= s[index] < 0xC0))
  }

  /** `&s[..end]`, or `None` where Rust panics: `end` past the end of `s`
      or inside a multi-byte character. */
  function SlicePrefix(s: seq<byte>, end: nat): (r: Option<seq<byte>>)
    ensures r.Some? <==> IsCharBoundary(s, end)
    ensures r.Some? ==> |r.value| == end && r.value <= s
  {
    if IsCharBoundary(s, end) then Some(s[..end]) else None
  }

  // ---------------------------------------------------------------------
  // bencode_decode
  // ---------------------------------------------------------------------

  /** The integer branch: strip `i`, cut at the first following `e`, parse
      the text in between as an `i64`; the text after that `e` is dropped. */
  function IntegerBranch(input: seq<byte>): (r: Option<i64>)
    ensures r.Some? ==> |input| > 1 && input[0] == LOWER_I && LOWER_E in input[1..]
  {
    match StripPrefix(input, LOWER_I)
    case None => None
    case Some(rest) =>
      match SplitOnce(rest, LOWER_E)
      case None => None
      case Some((num, _)) => ParseI64(num)
  }

  /** `bencode_decode`. `None` stands for every panic: the final `panic!`
      when neither branch returns, and the out-of-range slice. */
  function Decode(input: seq<byte>): (r: Option<Value>)
    ensures r.Some? && r.value.Integer? ==> |input| > 0 && input[0] == LOWER_I
    ensures r.Some? && r.value.String? ==> |input| > 0 && input[0] != LOWER_I
    ensures r.Some? && r.value.String? ==> |r.value.bytes| < |input|
  {
    match IntegerBranch(input)
    case Some(n) => Some(Integer(n))
    case None =>
      match SplitOnce(input, COLON)
      case None => None
      case Some((len, rest)) =>
        match ParseUsize(len)
        case None => None
        case Some(l) =>
          ParseUsizeLeadingByte(len);
          match SlicePrefix(rest, l)
          case None => None
          case Some(payload) => Some(String(payload))
  }

  // ---------------------------------------------------------------------
  // What the decoder accepts, stated without reference to its code
  // ---------------------------------------------------------------------

  /** `k` is the position of the first `c` in `s`. */
  ghost predicate FirstIndex(s: seq<byte>, c: byte, k: int) {
    0 <= k < |s| && s[k] == c && c !in s[..k]
  }

  /** `input` is `i`, then a text without `e` that is a signed decimal
      denoting `n` within the i64 range, then `e`, then anything. */
  ghost predicate IntegerForm(input: seq<byte>, n: int) {
    && |input| > 0 && input[0] == LOWER_I
    && exists k :: FirstIndex(input[1..], LOWER_E, k)
                   && IsSignedDecimal(input[1..][..k], n) && I64_MIN <= n <= I64_MAX
  }

  /** `input` is a text without `:` that is an unsigned decimal `L` within
      the usize range, then `:`, then at least `L` bytes of which the first
      `L` are `payload`, and the cut after them is on a character boundary. */
  ghost predicate StringForm(input: seq<byte>, payload: seq<byte>) {
    exists k :: FirstIndex(input, COLON, k) && LengthPrefixed(input[..k], input[k + 1..], payload)
  }

  ghost predicate LengthPrefixed(header: seq<byte>, rest: seq<byte>, payload: seq<byte>) {
    && IsUnsignedDecimal(header, |payload|) && |payload| <= USIZE_MAX
    && |payload| <= |rest| && payload == rest[..|payload|]
    && IsCharBoundary(rest, |payload|)
  }

  lemma FirstIndexUnique(s: seq<byte>, c: byte, k: int)
    requires FirstIndex(s, c, k)
    ensures IndexOf(s, c) == Some(k)
  {
  }

  /** A string-form input never starts with `i`: its length text starts
      with `+` or a digit. */
  lemma StringFormNotInteger(input: seq<byte>, payload: seq<byte>)
    requires StringForm(input, payload)
    ensures |input| > 0 && input[0] != LOWER_I
  {
    var k :| FirstIndex(input, COLON, k) && LengthPrefixed(input[..k], input[k + 1..], payload);
    assert input[..k][0] == input[0];
  }

  /** The integer branch returns `n` exactly for the integer form. */
  lemma IntegerBranchIff(input: seq<byte>, n: int)
    ensures (IntegerBranch(input).Some? && IntegerBranch(input).value as int == n) <==> IntegerForm(input, n)
  {
    DecodeIntegerIff(input, n);
  }

  /** The integer branch, and only it, yields `Integer(n)`: exactly for the
      integer form, whatever follows the first `e`. */
  lemma DecodeIntegerIff(input: seq<byte>, n: int)
    ensures (Decode(input).Some? && Decode(input).value.Integer? && Decode(input).value.n as int == n)
            <==> IntegerForm(input, n)
  {
    if Decode(input).Some? && Decode(input).value.Integer? && Decode(input).value.n as int == n {
      var rest := input[1..];
      var k := IndexOf(rest, LOWER_E).value;
      ParseI64Correct(rest[..k], n);
      assert FirstIndex(rest, LOWER_E, k);
    }
    if IntegerForm(input, n) {
      var k :| FirstIndex(input[1..], LOWER_E, k)
               && IsSignedDecimal(input[1..][..k], n) && I64_MIN <= n <= I64_MAX;
      FirstIndexUnique(input[1..], LOWER_E, k);
      ParseI64Correct(input[1..][..k], n);
    }
  }

  /** The string branch yields `String(payload)` exactly for the string
      form; the length text ends at the first `:`, so the payload itself
      may contain `:`. */
  lemma DecodeStringIff(input: seq<byte>, payload: seq<byte>)
    ensures Decode(input) == Some(String(payload)) <==> StringForm(input, payload)
  {
    if Decode(input) == Some(String(payload)) {
      var k := IndexOf(input, COLON).value;
      var l := ParseUsize(input[..k]).value;
      ParseUsizeCorrect(input[..k], l);
      assert FirstIndex(input, COLON, k);
      assert LengthPrefixed(input[..k], input[k + 1..], payload);
    }
    if StringForm(input, payload) {
      var k :| FirstIndex(input, COLON, k) && LengthPrefixed(input[..k], input[k + 1..], payload);
      StringFormNotInteger(input, payload);
      FirstIndexUnique(input, COLON, k);
      ParseUsizeCorrect(input[..k], |payload|);
    }
  }

  /** Decoding fails exactly when the input has neither form. */
  lemma DecodeFailsIff(input: seq<byte>)
    ensures Decode(input).None?
            <==> (forall n :: !IntegerForm(input, n)) && (forall p :: !StringForm(input, p))
  {
    if Decode(input).Some? {
      match Decode(input).value
      case Integer(n) => DecodeIntegerIff(input, n as int);
      case String(p) => DecodeStringIff(input, p);
    } else {
      forall n ensures !IntegerForm(input, n) {
        DecodeIntegerIff(input, n);
      }
      forall p ensures !StringForm(input, p) {
        DecodeStringIff(input, p);
      }
    }
  }

  /** An input that starts with `i` decodes to an integer or fails: the
      fallback string branch gets a length text starting with `i`.
      This follows from the first two ensures of `Decode`. */
  lemma StartsWithINeverString(input: seq<byte>)
    requires |input| > 0 && input[0] == LOWER_I
    ensures Decode(input).None? || Decode(input).value.Integer?
  {
  }

  // ---------------------------------------------------------------------
  // Encodings the decoder inverts
  // ---------------------------------------------------------------------

  /** `i`, a text without `e` that parses as `n`, `e`, then anything,
      decodes to `Integer(n)`. */
  lemma DecodeIntegerParsed(num: seq<byte>, n: i64, trailing: seq<byte>)
    requires ParseI64(num) == Some(n) && LOWER_E !in num
    ensures Decode([LOWER_I] + num + [LOWER_E] + trailing) == Some(Integer(n))
  {
    var input := [LOWER_I] + num + [LOWER_E] + trailing;
    assert input[1..] == num + [LOWER_E] + trailing;
    assert input[1..][..|num|] == num;
    FirstIndexUnique(input[1..], LOWER_E, |num|);
  }

  /** `i<n>e` followed by anything decodes to `Integer(n)`: the decoder
      inverts the decimal text of every 64-bit integer. */
  lemma DecodeIntegerText(n: i64, trailing: seq<byte>)
    ensures Decode([LOWER_I] + Decimal(n as int) + [LOWER_E] + trailing) == Some(Integer(n))
  {
    ParseI64Decimal(n);
    DecodeIntegerParsed(Decimal(n as int), n, trailing);
  }

  /** `i<n>e` followed by anything fails for `n` outside the i64 range:
      the parse overflows, and the fallback length text starts with `i`. */
  lemma DecodeIntegerOverflow(n: int, trailing: seq<byte>)
    requires n < I64_MIN || I64_MAX < n
    ensures Decode([LOWER_I] + Decimal(n) + [LOWER_E] + trailing).None?
  {
    var num := Decimal(n);
    var input := [LOWER_I] + num + [LOWER_E] + trailing;
    assert input[1..] == num + [LOWER_E] + trailing;
    assert input[1..][..|num|] == num;
    FirstIndexUnique(input[1..], LOWER_E, |num|);
    if ParseI64(num).Some? {
      ParseI64Correct(num, ParseI64(num).value as int);
    }
  }

  /** `<L>:<payload>` decodes to the first `L` payload bytes, whatever they
      are (colons included), provided the cut is on a character boundary. */
  lemma DecodeStringText(len: nat, payload: seq<byte>)
    requires len <= |payload| && len <= USIZE_MAX
    requires IsCharBoundary(payload, len)
    ensures Decode(Digits(len) + [COLON] + payload) == Some(String(payload[..len]))
  {
    var header := Digits(len);
    var input := header + [COLON] + payload;
    assert input[..|header|] == header;
    assert input[|header| + 1..] == payload;
    assert FirstIndex(input, COLON, |header|);
    assert LengthPrefixed(header, payload, payload[..len]);
    DecodeStringIff(input, payload[..len]);
  }

  /** An ASCII cut is always on a character boundary. */
  lemma AsciiIsCharBoundary(s: seq<byte>, index: nat)
    requires index <= |s|
    requires forall i :: 0 <= i < |s| ==> s[i] < 0x80
    ensures IsCharBoundary(s, index)
  {
  }

  /** A declared length beyond the bytes after `:` fails: the slice panics. */
  lemma DecodeStringTooShort(len: nat, payload: seq<byte>)
    requires |payload| < len
    ensures Decode(Digits(len) + [COLON] + payload).None?
  {
    var header := Digits(len);
    var input := header + [COLON] + payload;
    assert input[..|header|] == header;
    assert input[|header| + 1..] == payload;
    assert FirstIndex(input, COLON, |header|);
    FirstIndexUnique(input, COLON, |header|);
    assert input[0] == header[0];
    if ParseUsize(header).Some? {
      ParseUsizeCorrect(header, ParseUsize(header).value);
    }
  }

  /** Leading zeros, and a sign on zero, are accepted as they are:
      `i` sign `0…0` digits(n) `e` decodes to the signed value. */
  lemma DecodeIntegerLeadingZeros(k: nat, negative: bool, n: nat, trailing: seq<byte>)
    requires I64_MIN <= Signed(negative, n) <= I64_MAX
    ensures Decode([LOWER_I] + (SignText(negative) + Zeros(k) + Digits(n)) + [LOWER_E] + trailing)
            == Some(Integer(Signed(negative, n) as i64))
  {
    var num := SignText(negative) + Zeros(k) + Digits(n);
    ParseI64LeadingZeros(k, negative, n);
    assert forall i :: 0 <= i < |num| ==> num[i] == MINUS || IsDigit(num[i]);
    DecodeIntegerParsed(num, Signed(negative, n) as i64, trailing);
  }
}
