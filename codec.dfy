/**
 * The code `derive(Zerohex)` emits for a struct over `[u8; n]`, written once
 * for every `n`: `FromStr::from_str`, `Display::fmt`, `Debug::fmt`,
 * `Serialize::serialize` and `Deserialize::deserialize`. The struct value
 * is represented by its `n` bytes.
 */
module Codec {
  import opened Hex

  /**
   * What `from_str` ends in: the parsed bytes, a returned error, or a panic
   * raised by `unwrap` on the error it unwrapped.
   */
  datatype Parsed =
    | Value(bytes: seq<Byte>)
    | Error(error: FromHexError)
    | Panic(error: FromHexError)

  /** The text starts with `0x` or `0X`. */
  predicate HasHexPrefix(s: seq<char>) {
    |s| >= 2 && s[0] == '0' && (s[1] == 'x' || s[1] == 'X')
  }

  /**
   * `from_str` for `[u8; n]`. Exactly `2 * n` characters are decoded and a
   * bad digit panics; exactly `2 * n + 2` characters must begin with a
   * prefix that lower-cases to `0x`, and the rest is decoded with a bad
   * digit returned as an error; every other length is an invalid length.
   */
  function FromStr(n: nat, s: seq<Ascii>): (r: Parsed)
    ensures r.Value? ==> |r.bytes| == n
    ensures |s| != 2 * n && |s| != 2 * n + 2 ==> r == Error(InvalidStringLength)
    ensures |s| == 2 * n + 2 && !HasHexPrefix(s) ==> r == Error(InvalidStringLength)
    ensures r.Panic? <==> |s| == 2 * n && !AllHexDigits(s)
  {
    var nChar := n * 2;
    var nCharPrefixed := nChar + 2;
    if |s| == nChar then
      match FromHex(s, n)
      case Ok(b) => Value(b)
      case Err(e) => Panic(e)
    else if |s| == nCharPrefixed then
      if ToLower(s[..2]) == "0x" then
        PrefixIgnoresCase(s);
        match FromHex(s[2..], n)
        case Ok(b) => Value(b)
        case Err(e) => Error(e)
      else
        PrefixIgnoresCase(s);
        Error(InvalidStringLength)
    else Error(InvalidStringLength)
  }

  /** The prefix test of `from_str` accepts `0x` and `0X` and nothing else. */
  lemma PrefixIgnoresCase(s: seq<char>)
    requires |s| >= 2
    ensures ToLower(s[..2]) == "0x" <==> HasHexPrefix(s)
  {
    var l := ToLower(s[..2]);
    assert l[0] == LowerChar(s[0]) && l[1] == LowerChar(s[1]);
    if HasHexPrefix(s) {
      assert l == "0x";
    }
  }

  /**
   * Exactly `2 * n` characters: digits of either case decode to the bytes
   * they stand for, in order, high nibble first; otherwise `from_str`
   * panics on the first character that is not a digit.
   */
  lemma {:induction false} UnprefixedInput(n: nat, s: seq<Ascii>)
    requires |s| == 2 * n
    ensures AllHexDigits(s) ==> FromStr(n, s) == Value(BytesOf(s))
    ensures !AllHexDigits(s) ==>
      FromStr(n, s) == Panic(InvalidHexCharacter(s[FirstNonHex(s)], FirstNonHex(s)))
  {
    if AllHexDigits(s) {
      DecodeDigits(s, 0);
    } else {
      DecodeError(s, 0);
    }
  }

  /**
   * Exactly `2 * n + 2` characters behind `0x` or `0X`: the rest decodes
   * as in the unprefixed case, but a bad digit is returned as an error,
   * whose position counts from the end of the prefix.
   */
  lemma {:induction false} PrefixedInput(n: nat, s: seq<Ascii>)
    requires |s| == 2 * n + 2 && HasHexPrefix(s)
    ensures AllHexDigits(s[2..]) ==> FromStr(n, s) == Value(BytesOf(s[2..]))
    ensures !AllHexDigits(s[2..]) ==>
      FromStr(n, s) == Error(InvalidHexCharacter(s[2..][FirstNonHex(s[2..])], FirstNonHex(s[2..])))
  {
    PrefixIgnoresCase(s);
    if AllHexDigits(s[2..]) {
      DecodeDigits(s[2..], 0);
    } else {
      DecodeError(s[2..], 0);
    }
  }

  /**
   * Putting `0x` or `0X` in front of `2 * n` characters changes nothing
   * when they are all digits; when one is not, the unprefixed text panics
   * and the prefixed one returns the same error instead.
   */
  lemma {:induction false} PrefixedLikeUnprefixed(n: nat, prefix: seq<Ascii>, t: seq<Ascii>)
    requires prefix == "0x" || prefix == "0X"
    requires |t| == 2 * n
    ensures AllHexDigits(t) ==> FromStr(n, prefix + t) == FromStr(n, t)
    ensures !AllHexDigits(t) ==>
      FromStr(n, t).Panic? && FromStr(n, prefix + t) == Error(FromStr(n, t).error)
  {
    var s := prefix + t;
    assert s[2..] == t;
    PrefixedInput(n, s);
    UnprefixedInput(n, t);
  }

  /** A text that parses without a prefix parses to the same bytes with one. */
  lemma PrefixKeepsValue(n: nat, prefix: seq<Ascii>, t: seq<Ascii>)
    requires prefix == "0x" || prefix == "0X"
    requires |t| == 2 * n && FromStr(n, t).Value?
    ensures FromStr(n, prefix + t) == FromStr(n, t)
  {
    PrefixedLikeUnprefixed(n, prefix, t);
  }

  /**
   * `Display::fmt`: `0x` followed by `hex::encode` of the bytes, so two
   * lowercase digits per byte, high nibble first, in byte order.
   */
  function Display(b: seq<Byte>): (s: seq<Ascii>)
    ensures |s| == 2 * |b| + 2 && s[..2] == "0x"
    ensures forall i :: 0 <= i < |b| ==>
      s[2 + 2 * i] == LowerDigits[b[i] / 16] && s[3 + 2 * i] == LowerDigits[b[i] % 16]
  {
    var digits := Encode(b);
    assert forall i :: 0 <= i < |b| ==>
      digits[2 * i] == LowerDigits[b[i] / 16] && digits[2 * i + 1] == LowerDigits[b[i] % 16];
    "0x" + digits
  }

  /** Formatting uses only lowercase digits after the prefix. */
  lemma DisplayIsLowercase(b: seq<Byte>)
    ensures forall j :: 2 <= j < |Display(b)| ==> Display(b)[j] in LowerDigits
  {
    var s := Display(b);
    forall j | 2 <= j < |s| ensures s[j] in LowerDigits {
      var i := (j - 2) / 2;
      assert 0 <= i < |b|;
      if j == 2 + 2 * i {
        assert s[j] == LowerDigits[b[i] / 16];
      } else {
        assert j == 3 + 2 * i && s[j] == LowerDigits[b[i] % 16];
      }
    }
  }

  /** Parsing what was formatted gives back the same `n` bytes. */
  lemma {:induction false} RoundTrip(n: nat, b: seq<Byte>)
    requires |b| == n
    ensures FromStr(n, Display(b)) == Value(b)
  {
    var s := Display(b);
    assert s[2..] == Encode(b);
    PrefixIgnoresCase(s);
    DecodeEncode(b, 0);
  }

  /**
   * Formatting what was parsed gives `0x` and the parsed digits in lower
   * case: every accepted text has one canonical form, and a text already
   * in canonical form is returned unchanged.
   */
  lemma {:induction false} ParseThenDisplay(n: nat, s: seq<Ascii>)
    requires FromStr(n, s).Value?
    ensures |s| == 2 * n ==> Display(FromStr(n, s).bytes) == "0x" + ToLower(s)
    ensures |s| == 2 * n + 2 ==> Display(FromStr(n, s).bytes) == "0x" + ToLower(s[2..])
  {
    if |s| == 2 * n {
      EncodeDecode(s, 0);
    } else {
      PrefixIgnoresCase(s);
      EncodeDecode(s[2..], 0);
    }
  }

  /**
   * `Debug::fmt`: a tuple named after the struct whose one field is the
   * formatted text, shown as a quoted string: `Name("0x...")`.
   */
  function Debug(name: string, b: seq<Byte>): (d: string)
    ensures |d| == |name| + 2 * |b| + 6
    ensures d[..|name|] == name && d[|name|..|name| + 2] == "(\"" && d[|d| - 2..] == "\")"
  {
    name + "(\"" + Display(b) + "\")"
  }

  /** The debug text carries the canonical text, from which the bytes parse back. */
  lemma {:induction false} DebugShowsDisplay(name: string, b: seq<Byte>)
    ensures Debug(name, b)[..|name|] == name
    ensures Debug(name, b)[|name| + 2 .. |Debug(name, b)| - 2] == Display(b)
    ensures FromStr(|b|, Debug(name, b)[|name| + 2 .. |Debug(name, b)| - 2]) == Value(b)
  {
    var d, s := Debug(name, b), Display(b);
    var tail := "(\"" + s + "\")";
    assert d == name + tail;
    assert tail[2 .. |tail| - 2] == s;
    assert d[|name| + 2 .. |d| - 2] == tail[2 .. |tail| - 2];
    RoundTrip(|b|, b);
  }

  /**
   * `Serialize::serialize`: the formatted text, handed to the serializer as
   * a string: `0x` and lowercase digits, which parse back to the bytes.
   */
  function Serialize(b: seq<Byte>): (s: seq<Ascii>)
    ensures |s| == 2 * |b| + 2 && s[..2] == "0x"
    ensures forall j :: 2 <= j < |s| ==> s[j] in LowerDigits
    ensures FromStr(|b|, s) == Value(b)
  {
    DisplayIsLowercase(b);
    RoundTrip(|b|, b);
    Display(b)
  }

  /** What `String::deserialize` hands over: a string, or the framework's own error. */
  datatype StrInput<E> = Str(s: seq<Ascii>) | StrError(e: E)

  /** The deserializer's error: the framework's own, or a parse error made `custom`. */
  datatype DeError<E> = Upstream(e: E) | Custom(cause: FromHexError)

  datatype Deserialized<E> =
    | DeValue(bytes: seq<Byte>)
    | DeFailure(error: DeError<E>)
    | DePanic(panic: FromHexError)

  /**
   * `Deserialize::deserialize`: read a string, then `from_str` it, with a
   * returned parse error carried into the framework's error channel.
   */
  function Deserialize<E>(n: nat, input: StrInput<E>): (r: Deserialized<E>)
    ensures input.StrError? ==> r == DeFailure(Upstream(input.e))
    ensures input.Str? && FromStr(n, input.s).Value? ==> r == DeValue(FromStr(n, input.s).bytes)
    ensures input.Str? && FromStr(n, input.s).Error? ==> r == DeFailure(Custom(FromStr(n, input.s).error))
    ensures r.DePanic? <==> input.Str? && FromStr(n, input.s).Panic?
  {
    match input
    case StrError(e) => DeFailure(Upstream(e))
    case Str(s) =>
      match FromStr(n, s)
      case Value(b) => DeValue(b)
      case Error(e) => DeFailure(Custom(e))
      case Panic(e) => DePanic(e)
  }

  /** Deserializing what was serialized gives back the bytes. */
  lemma {:induction false} SerdeRoundTrip<E>(n: nat, b: seq<Byte>)
    requires |b| == n
    ensures Deserialize<E>(n, Str(Serialize(b))) == DeValue(b)
  {
    RoundTrip(n, b);
  }
}
