/**
 * Base16 transcoding of byte sequences, as the emitted codec uses it:
 * `hex::encode` (lowercase output, two digits per byte, most significant
 * nibble first) and `<[u8; N]>::from_hex` (digits of either case, every
 * pair of digits one byte). This is the alphabet of section 8 of RFC 4648.
 *
 * Text is restricted to ASCII, so a character and a byte of the text are
 * the same thing and `str::len` is the number of characters.
 */
module Hex {

  /** A byte, `u8`. */
  type Byte = x: int | 0 <= x < 256

  /** An ASCII character: the only text this model accepts or produces. */
  type Ascii = c: char | c as int < 128 witness '0'

  /** The errors `from_hex` reports (`hex::FromHexError`). */
  datatype FromHexError =
    | InvalidHexCharacter(c: char, index: nat)
    | OddLength
    | InvalidStringLength

  /** A decoding result: all bytes, or one error and no bytes at all. */
  datatype HexResult<T> = Ok(value: T) | Err(error: FromHexError)

  /** The sixteen lowercase digits, in value order. */
  const LowerDigits: seq<Ascii> := "0123456789abcdef"

  /** The sixteen uppercase digits, in value order. */
  const UpperDigits: seq<Ascii> := "0123456789ABCDEF"

  predicate IsHexDigit(c: char) {
    '0' <= c <= '9' || 'a' <= c <= 'f' || 'A' <= c <= 'F'
  }

  predicate AllHexDigits(s: seq<char>) {
    forall i :: 0 <= i < |s| ==> IsHexDigit(s[i])
  }

  /** The digit `hex::encode` writes for a nibble. */
  function NibbleChar(v: int): (c: Ascii)
    requires 0 <= v < 16
  {
    if v < 10 then ('0' as int + v) as char else ('a' as int + v - 10) as char
  }

  /**
   * The value of one digit, or the error naming the character and its
   * position `index` in the text being decoded (the crate's `val`).
   */
  function Val(c: char, index: nat): (r: HexResult<nat>)
    ensures r.Ok? <==> IsHexDigit(c)
    ensures r.Ok? ==> r.value < 16
    ensures r.Err? ==> r.error == InvalidHexCharacter(c, index)
  {
    if 'A' <= c <= 'F' then Ok(c as int - 'A' as int + 10)
    else if 'a' <= c <= 'f' then Ok(c as int - 'a' as int + 10)
    else if '0' <= c <= '9' then Ok(c as int - '0' as int)
    else Err(InvalidHexCharacter(c, index))
  }

  /** The value of a digit known to be one. */
  function DigitValue(c: char): (v: nat)
    requires IsHexDigit(c)
    ensures v < 16
  {
    Val(c, 0).value
  }

  /** ASCII lower-casing of one character (`char::to_lowercase` on ASCII). */
  function LowerChar(c: char): (l: char)
  {
    if 'A' <= c <= 'Z' then (c as int - 'A' as int + 'a' as int) as char else c
  }

  /**
   * ASCII lower-casing of a text (`str::to_lowercase` on ASCII): same
   * length, each uppercase letter replaced by the lowercase letter at the
   * same place in the alphabet, and every other character unchanged.
   */
  function ToLower(s: seq<char>): (r: seq<char>)
    ensures |r| == |s|
    ensures forall i :: 0 <= i < |r| ==> !('A' <= r[i] <= 'Z')
    ensures forall i :: 0 <= i < |s| && !('A' <= s[i] <= 'Z') ==> r[i] == s[i]
    ensures forall i :: 0 <= i < |s| && 'A' <= s[i] <= 'Z' ==>
      'a' <= r[i] <= 'z' && r[i] as int - 'a' as int == s[i] as int - 'A' as int
  {
    seq(|s|, i requires 0 <= i < |s| => LowerChar(s[i]))
  }

  /** Index of the first character of `s` that is not a hex digit. */
  function FirstNonHex(s: seq<char>): (k: nat)
    requires !AllHexDigits(s)
    ensures k < |s| && !IsHexDigit(s[k])
    ensures forall i :: 0 <= i < k ==> IsHexDigit(s[i])
  {
    if !IsHexDigit(s[0]) then 0
    else
      assert forall i :: 1 <= i < |s| ==> s[i] == s[1..][i - 1];
      1 + FirstNonHex(s[1..])
  }

  /**
   * `hex::encode`: two lowercase digits per byte, most significant nibble
   * first, bytes in order.
   */
  function Encode(b: seq<Byte>): (s: seq<Ascii>)
    ensures |s| == 2 * |b|
    ensures forall i :: 0 <= i < |b| ==>
      s[2 * i] == NibbleChar(b[i] / 16) && s[2 * i + 1] == NibbleChar(b[i] % 16)
  {
    if b == [] then []
    else [NibbleChar(b[0] / 16), NibbleChar(b[0] % 16)] + Encode(b[1..])
  }

  /**
   * The loop of `decode_to_slice`, on the digits `s` that start at position
   * `from` of the decoded text: each pair of digits is one byte, and the
   * first character that is not a digit stops the decoding with an error.
   */
  function DecodePairs(s: seq<char>, from: nat): (r: HexResult<seq<Byte>>)
    requires |s| % 2 == 0
    ensures r.Ok? <==> AllHexDigits(s)
    ensures r.Ok? ==> |r.value| == |s| / 2
    decreases |s|
  {
    if s == [] then Ok([])
    else
      match Val(s[0], from)
      case Err(e) => Err(e)
      case Ok(hi) =>
        match Val(s[1], from + 1)
        case Err(e) => Err(e)
        case Ok(lo) =>
          assert forall i :: 2 <= i < |s| ==> s[i] == s[2..][i - 2];
          match DecodePairs(s[2..], from + 2)
          case Err(e) => Err(e)
          case Ok(rest) => Ok([hi * 16 + lo] + rest)
  }

  /**
   * Byte `i` of a successful decoding is the value of digits `2 * i` and
   * `2 * i + 1`, the first one the more significant.
   */
  lemma {:induction false} DecodedByte(s: seq<char>, from: nat, i: nat)
    requires |s| % 2 == 0 && AllHexDigits(s) && i < |s| / 2
    ensures DecodePairs(s, from).value[i] == 16 * DigitValue(s[2 * i]) + DigitValue(s[2 * i + 1])
  {
    assert forall j :: 2 <= j < |s| ==> s[j] == s[2..][j - 2];
    if i > 0 {
      DecodedByte(s[2..], from + 2, i - 1);
    }
  }

  /**
   * A failed decoding reports the first character that is not a digit,
   * with its position in the decoded text.
   */
  lemma {:induction false} DecodeError(s: seq<char>, from: nat)
    requires |s| % 2 == 0 && !AllHexDigits(s)
    ensures DecodePairs(s, from) == Err(InvalidHexCharacter(s[FirstNonHex(s)], from + FirstNonHex(s)))
    decreases |s|
  {
    if IsHexDigit(s[0]) && IsHexDigit(s[1]) {
      FirstNonHexShift(s);
      DecodeError(s[2..], from + 2);
    }
  }

  /** Dropping a leading pair of digits moves the first non-digit by two. */
  lemma {:induction false} FirstNonHexShift(s: seq<char>)
    requires |s| >= 2 && IsHexDigit(s[0]) && IsHexDigit(s[1]) && !AllHexDigits(s)
    ensures !AllHexDigits(s[2..]) && FirstNonHex(s) == 2 + FirstNonHex(s[2..])
  {
    assert s[1..][0] == s[1];
    assert s[1..][1..] == s[2..];
  }

  /**
   * `<[u8; n]>::from_hex`: an odd number of digits, or a number of digits
   * other than `2 * n`, is rejected before any digit is looked at; otherwise
   * the digits are decoded pair by pair.
   */
  function FromHex(s: seq<char>, n: nat): (r: HexResult<seq<Byte>>)
    ensures |s| % 2 != 0 ==> r == Err(OddLength)
    ensures |s| % 2 == 0 && |s| != 2 * n ==> r == Err(InvalidStringLength)
    ensures |s| == 2 * n ==> r == DecodePairs(s, 0)
  {
    if |s| % 2 != 0 then Err(OddLength)
    else if |s| / 2 != n then Err(InvalidStringLength)
    else DecodePairs(s, 0)
  }

  /** Decoding what `Encode` wrote gives back the bytes. */
  lemma {:induction false} DecodeEncode(b: seq<Byte>, from: nat)
    ensures DecodePairs(Encode(b), from) == Ok(b)
  {
    if b != [] {
      var s := Encode(b);
      assert s == [NibbleChar(b[0] / 16), NibbleChar(b[0] % 16)] + Encode(b[1..]);
      NibbleRoundTrip(b[0] / 16);
      NibbleRoundTrip(b[0] % 16);
      assert s[2..] == Encode(b[1..]);
      DecodeEncode(b[1..], from + 2);
      assert (b[0] / 16) * 16 + b[0] % 16 == b[0];
      assert [b[0]] + b[1..] == b;
    }
  }

  /** Every lowercase digit reads back as the nibble it was written for. */
  lemma NibbleRoundTrip(v: int)
    requires 0 <= v < 16
    ensures Val(NibbleChar(v), 0) == Ok(v)
  {
  }

  /**
   * Encoding what was decoded gives back the digits, lower-cased: decoding
   * loses nothing but the case of the letters.
   */
  lemma {:induction false} EncodeDecode(s: seq<char>, from: nat)
    requires |s| % 2 == 0 && DecodePairs(s, from).Ok?
    ensures Encode(DecodePairs(s, from).value) == ToLower(s)
    decreases |s|
  {
    if s != [] {
      var hi, lo := Val(s[0], from).value, Val(s[1], from + 1).value;
      var rest := DecodePairs(s[2..], from + 2).value;
      var x := hi * 16 + lo;
      assert DecodePairs(s, from).value == [x] + rest;
      EncodeDecode(s[2..], from + 2);
      assert x / 16 == hi && x % 16 == lo;
      DigitLower(s[0], from);
      DigitLower(s[1], from + 1);
      assert ([x] + rest)[1..] == rest;
      assert Encode([x] + rest) == [NibbleChar(hi), NibbleChar(lo)] + Encode(rest);
      ToLowerPair(s);
    }
  }

  /** Lower-casing a text lower-cases its first two characters and then the rest. */
  lemma ToLowerPair(s: seq<char>)
    requires |s| >= 2
    ensures ToLower(s) == [LowerChar(s[0]), LowerChar(s[1])] + ToLower(s[2..])
  {
  }

  /** A digit lower-cases to the lowercase digit of its value. */
  lemma DigitLower(c: char, index: nat)
    requires IsHexDigit(c)
    ensures LowerChar(c) == NibbleChar(Val(c, index).value)
  {
  }

  /**
   * The bytes a run of digits stands for, read directly: byte `i` is
   * digits `2 * i` (high nibble) and `2 * i + 1` (low nibble).
   */
  function BytesOf(s: seq<char>): (b: seq<Byte>)
    requires |s| % 2 == 0 && AllHexDigits(s)
    ensures |b| == |s| / 2
  {
    seq(|s| / 2, i requires 0 <= i < |s| / 2 => 16 * DigitValue(s[2 * i]) + DigitValue(s[2 * i + 1]))
  }

  /** A decoding without a bad character yields exactly `BytesOf` its digits. */
  lemma DecodeDigits(s: seq<char>, from: nat)
    requires |s| % 2 == 0 && AllHexDigits(s)
    ensures DecodePairs(s, from) == Ok(BytesOf(s))
  {
    var b := DecodePairs(s, from).value;
    forall i | 0 <= i < |b| ensures b[i] == BytesOf(s)[i] {
      DecodedByte(s, from, i);
    }
    assert b == BytesOf(s);
  }

  /** The digit `hex::encode` writes for a nibble is the RFC 4648 lowercase digit. */
  lemma NibbleCharIsLowerDigit(v: int)
    requires 0 <= v < 16
    ensures NibbleChar(v) == LowerDigits[v]
  {
  }

  /** Encoding works byte by byte: the text of a concatenation is the concatenation of the texts. */
  lemma {:induction false} EncodeAppend(a: seq<Byte>, b: seq<Byte>)
    ensures Encode(a + b) == Encode(a) + Encode(b)
  {
    if a != [] {
      assert (a + b)[1..] == a[1..] + b;
      EncodeAppend(a[1..], b);
    } else {
      assert a + b == b;
    }
  }

  /** Decoding works pair by pair: the bytes of a concatenation are the concatenation of the bytes. */
  lemma BytesOfAppend(x: seq<char>, y: seq<char>)
    requires |x| % 2 == 0 && AllHexDigits(x) && |y| % 2 == 0 && AllHexDigits(y)
    ensures AllHexDigits(x + y) && BytesOf(x + y) == BytesOf(x) + BytesOf(y)
  {
    var s := x + y;
    assert forall i :: 0 <= i < |s| ==> IsHexDigit(s[i]) by {
      forall i | 0 <= i < |s| ensures IsHexDigit(s[i]) {
        if i < |x| { assert s[i] == x[i]; } else { assert s[i] == y[i - |x|]; }
      }
    }
    forall i | 0 <= i < |s| / 2 ensures BytesOf(s)[i] == (BytesOf(x) + BytesOf(y))[i] {
      if i >= |x| / 2 {
        assert s[2 * i] == y[2 * (i - |x| / 2)] && s[2 * i + 1] == y[2 * (i - |x| / 2) + 1];
      }
    }
  }

  /** Digits of either case read as their value: `A` to `F` as well as `a` to `f`. */
  lemma DigitsOfBothCases(v: nat, index: nat)
    requires v < 16
    ensures Val(LowerDigits[v], index) == Ok(v) && Val(UpperDigits[v], index) == Ok(v)
  {
  }
}
