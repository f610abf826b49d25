/**
 Concrete inputs and what `bencode_decode` makes of them: the three unit
 tests of `src/bencoding.rs`, and further inputs for the edge cases of the
 two branches and of the failure path.
 */
module BencodingVectors {
  import opened IntParse
  import opened Bencoding

  /** The UTF-8 bytes of an ASCII text. */
  function Ascii(s: string): (r: seq<byte>)
    requires forall i :: 0 <= i < |s| ==> s[i] as int < 0x80
    ensures |r| == |s| && forall i :: 0 <= i < |s| ==> r[i] as int == s[i] as int
  {
    seq(|s|, i requires 0 <= i < |s| => s[i] as int as byte)
  }

  // Unit tests of the source

  lemma StringValue()
    ensures Decode(Ascii("4:spam")) == Some(String(Ascii("spam")))
  {
    assert Ascii("4:spam") == Digits(4) + [COLON] + Ascii("spam");
    DecodeStringText(4, Ascii("spam"));
    assert Ascii("spam")[..4] == Ascii("spam");
  }

  lemma EmptyString()
    ensures Decode(Ascii("0:")) == Some(String([]))
  {
    assert Ascii("0:") == Digits(0) + [COLON] + [];
    DecodeStringText(0, []);
  }

  lemma PositiveInteger()
    ensures Decode(Ascii("i15e")) == Some(Integer(15))
  {
    assert Ascii("i15e") == [LOWER_I] + Decimal(15) + [LOWER_E] + [];
    DecodeIntegerText(15, []);
  }

  // The string branch

  /** The length text ends at the first `:`; later colons are payload. */
  lemma ColonInPayload()
    ensures Decode(Ascii("3:a:b")) == Some(String(Ascii("a:b")))
  {
    assert Ascii("3:a:b") == Digits(3) + [COLON] + Ascii("a:b");
    DecodeStringText(3, Ascii("a:b"));
    assert Ascii("a:b")[..3] == Ascii("a:b");
  }

  /** Bytes after the declared length are dropped. */
  lemma PayloadBeyondLength()
    ensures Decode(Ascii("2:abcd")) == Some(String(Ascii("ab")))
  {
    assert Ascii("2:abcd") == Digits(2) + [COLON] + Ascii("abcd");
    DecodeStringText(2, Ascii("abcd"));
    assert Ascii("abcd")[..2] == Ascii("ab");
  }

  /** `usize` parsing accepts a leading `+`. */
  lemma PlusLength()
    ensures Decode(Ascii("+3:abc")) == Some(String(Ascii("abc")))
  {
    var input := Ascii("+3:abc");
    assert input[..2] == [PLUS] + Digits(3);
    assert FirstIndex(input, COLON, 2);
    assert input[3..][..3] == Ascii("abc");
    assert LengthPrefixed(input[..2], input[3..], Ascii("abc"));
    DecodeStringIff(input, Ascii("abc"));
  }

  /** `usize` parsing rejects a `-`, so a negative length fails. */
  lemma NegativeLength()
    ensures Decode(Ascii("-1:a")).None?
  {
    var input := Ascii("-1:a");
    assert FirstIndex(input, COLON, 2);
    FirstIndexUnique(input, COLON, 2);
    assert input[..2] == [MINUS] + Digits(1);
  }

  /** A declared length longer than the payload makes the slice panic. */
  lemma LengthPastEnd()
    ensures Decode(Ascii("5:ab")).None?
  {
    assert Ascii("5:ab") == Digits(5) + [COLON] + Ascii("ab");
    DecodeStringTooShort(5, Ascii("ab"));
  }

  /** A cut inside a two-byte UTF-8 character ("é" is C3 A9) panics. */
  lemma LengthInsideCharacter()
    ensures Decode(Digits(1) + [COLON] + [0xC3, 0xA9]).None?
  {
    var input := Digits(1) + [COLON] + [0xC3, 0xA9];
    assert input[..1] == Digits(1);
    assert FirstIndex(input, COLON, 1);
    FirstIndexUnique(input, COLON, 1);
    ParseUsizeDigits(1);
  }

  // The integer branch

  lemma NegativeInteger()
    ensures Decode(Ascii("i-4e")) == Some(Integer(-4))
  {
    assert Ascii("i-4e") == [LOWER_I] + Decimal(-4) + [LOWER_E] + [];
    DecodeIntegerText(-4, []);
  }

  /** `-0` and leading zeros are accepted without normalisation. */
  lemma NegativeZero()
    ensures Decode(Ascii("i-0e")) == Some(Integer(0))
  {
    assert Ascii("i-0e") == [LOWER_I] + (SignText(true) + Zeros(0) + Digits(0)) + [LOWER_E] + [];
    DecodeIntegerLeadingZeros(0, true, 0, []);
  }

  lemma LeadingZeros()
    ensures Decode(Ascii("i007e")) == Some(Integer(7))
  {
    assert Ascii("i007e") == [LOWER_I] + (SignText(false) + Zeros(2) + Digits(7)) + [LOWER_E] + [];
    DecodeIntegerLeadingZeros(2, false, 7, []);
  }

  /** Everything after the first `e` is ignored. */
  lemma TrailingIgnored()
    ensures Decode(Ascii("i1e5:extra")) == Some(Integer(1))
  {
    assert Ascii("i1e5:extra") == [LOWER_I] + Decimal(1) + [LOWER_E] + Ascii("5:extra");
    DecodeIntegerText(1, Ascii("5:extra"));
  }

  /** The smallest `i64`, which `parse` reaches by subtracting digits. */
  lemma SmallestInteger()
    ensures Decode([LOWER_I] + Decimal(-0x8000_0000_0000_0000) + [LOWER_E])
            == Some(Integer(-0x8000_0000_0000_0000))
  {
    assert [LOWER_I] + Decimal(-0x8000_0000_0000_0000) + [LOWER_E]
        == [LOWER_I] + Decimal(-0x8000_0000_0000_0000) + [LOWER_E] + [];
    DecodeIntegerText(-0x8000_0000_0000_0000, []);
  }

  // The failure path

  /** An empty integer text is not an `i64`, and there is no `:`. */
  lemma EmptyInteger()
    ensures Decode(Ascii("ie")).None?
  {
    assert COLON !in Ascii("ie");
  }

  /** Neither an `i` nor a `:`. */
  lemma UnrecognisedInput()
    ensures Decode(Ascii("x")).None?
  {
    assert COLON !in Ascii("x");
  }

  /** One past the largest `i64` overflows. */
  lemma IntegerOverflow()
    ensures Decode([LOWER_I] + Decimal(0x8000_0000_0000_0000) + [LOWER_E]).None?
  {
    assert [LOWER_I] + Decimal(0x8000_0000_0000_0000) + [LOWER_E]
        == [LOWER_I] + Decimal(0x8000_0000_0000_0000) + [LOWER_E] + [];
    DecodeIntegerOverflow(0x8000_0000_0000_0000, []);
  }
}
