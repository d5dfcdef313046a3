/**
 * The concrete cases of the crate's integration tests, and three inputs
 * `from_str` rejects, for a 20-byte `Address([u8; 20])`.
 */
module Scenarios {
  import opened Hex
  import opened Codec

  /** The bytes 0 to 19. */
  const Counting: seq<Byte> := [
    0x00, 0x01, 0x02, 0x03, 0x04, 0x05, 0x06, 0x07, 0x08, 0x09,
    0x0a, 0x0b, 0x0c, 0x0d, 0x0e, 0x0f, 0x10, 0x11, 0x12, 0x13]

  /** Their forty digits. */
  const CountingHex: seq<Ascii> := "000102030405060708090a0b0c0d0e0f10111213"

  /** Twenty bytes of 1 format as `0x` and twenty `01`. */
  lemma DisplayOnes()
    ensures Display(seq(20, _ => 1)) == "0x0101010101010101010101010101010101010101"
  {
    var b: seq<Byte> := seq(20, _ => 1);
    EncodeTwentyOnes();
    assert Display(b) == "0x" + Encode(b);
    PrefixOnes(Encode(b));
  }

  /** Prefixing the twenty `01` pairs with `0x`. */
  lemma PrefixOnes(e: seq<Ascii>)
    requires e == "0101010101010101010101010101010101010101"
    ensures "0x" + e == "0x0101010101010101010101010101010101010101"
  {
  }

  /** Twenty ones encode as twenty `01`, built from two halves. */
  lemma EncodeTwentyOnes()
    ensures Encode(seq(20, _ => 1)) == "0101010101010101010101010101010101010101"
  {
    var ten: seq<Byte> := [1, 1, 1, 1, 1, 1, 1, 1, 1, 1];
    EncodeTenOnes();
    EncodeAppend(ten, ten);
    OnesHalves(ten, Encode(ten));
  }

  /** The literal steps of `EncodeTwentyOnes`. */
  lemma OnesHalves(ten: seq<Byte>, e: seq<Ascii>)
    requires ten == [1, 1, 1, 1, 1, 1, 1, 1, 1, 1] && e == "01010101010101010101"
    ensures seq(20, _ => 1) == ten + ten && e + e == "0101010101010101010101010101010101010101"
  {
  }

  /** Ten ones encode as ten `01`, built from two halves. */
  lemma EncodeTenOnes()
    ensures Encode([1, 1, 1, 1, 1, 1, 1, 1, 1, 1]) == "01010101010101010101"
  {
    var five: seq<Byte> := [1, 1, 1, 1, 1];
    EncodeFiveOnes();
    EncodeAppend(five, five);
    assert five + five == [1, 1, 1, 1, 1, 1, 1, 1, 1, 1];
    assert "0101010101" + "0101010101" == "01010101010101010101";
  }

  /** Five ones encode as five `01`. */
  lemma EncodeFiveOnes()
    ensures Encode([1, 1, 1, 1, 1]) == "0101010101"
  {
  }

  /** Forty digits without a prefix parse to the bytes 0 to 19. */
  lemma ParseUnprefixed()
    ensures FromStr(20, CountingHex) == Value(Counting)
  {
    CountingDigits();
    UnprefixedInput(20, CountingHex);
  }

  /** The forty digits are all digits and stand for the bytes 0 to 19. */
  lemma CountingDigits()
    ensures AllHexDigits(CountingHex) && BytesOf(CountingHex) == Counting
  {
    var x, y := "00010203040506070809", "0a0b0c0d0e0f10111213";
    CountingLow();
    CountingHigh();
    BytesOfAppend(x, y);
    CountingSplits(x, y, BytesOf(x), BytesOf(y));
  }

  /** The literal steps of `CountingDigits`: each text and each byte list in two halves. */
  lemma CountingSplits(x: seq<char>, y: seq<char>, lo: seq<Byte>, hi: seq<Byte>)
    requires x == "00010203040506070809" && y == "0a0b0c0d0e0f10111213"
    requires lo == [0x00, 0x01, 0x02, 0x03, 0x04, 0x05, 0x06, 0x07, 0x08, 0x09]
    requires hi == [0x0a, 0x0b, 0x0c, 0x0d, 0x0e, 0x0f, 0x10, 0x11, 0x12, 0x13]
    ensures CountingHex == x + y && Counting == lo + hi
  {
  }

  /** The first half of the digits: the bytes 0 to 9. */
  lemma CountingLow()
    ensures AllHexDigits("00010203040506070809")
    ensures BytesOf("00010203040506070809") == [0x00, 0x01, 0x02, 0x03, 0x04, 0x05, 0x06, 0x07, 0x08, 0x09]
  {
  }

  /** The second half of the digits: the bytes 10 to 19. */
  lemma CountingHigh()
    ensures AllHexDigits("0a0b0c0d0e0f10111213")
    ensures BytesOf("0a0b0c0d0e0f10111213") == [0x0a, 0x0b, 0x0c, 0x0d, 0x0e, 0x0f, 0x10, 0x11, 0x12, 0x13]
  {
  }

  /** The same digits behind `0x` parse to the same bytes. */
  lemma ParsePrefixed()
    ensures FromStr(20, "0x" + CountingHex) == Value(Counting)
  {
    var s: seq<Ascii> := "0x" + CountingHex;
    CountingDigits();
    assert s[2..] == CountingHex;
    PrefixedInput(20, s);
  }

  /** Thirty-nine characters: an invalid length. */
  lemma ParseShort()
    ensures FromStr(20, CountingHex[..39]) == Error(InvalidStringLength)
  {
  }

  /** Forty-two characters behind `xx`: an invalid length, although the length fits. */
  lemma ParseBadPrefix()
    ensures FromStr(20, "xx" + CountingHex) == Error(InvalidStringLength)
  {
  }

  /**
   * A `g` among forty characters: the unprefixed text panics, the prefixed
   * one returns the error, and both name the `g` at its place in the digits.
   */
  lemma ParseBadDigit()
    ensures FromStr(20, "g" + CountingHex[1..]) == Panic(InvalidHexCharacter('g', 0))
    ensures FromStr(20, "0x" + "g" + CountingHex[1..]) == Error(InvalidHexCharacter('g', 0))
  {
    var t: seq<Ascii> := "g" + CountingHex[1..];
    assert !IsHexDigit(t[0]);
    UnprefixedInput(20, t);
    PrefixedLikeUnprefixed(20, "0x", t);
  }
}
