# zerohex in Dafny

`zerohex` is a Rust derive macro, `#[derive(Zerohex)]`. It gives a tuple
struct holding one fixed-size byte array, `struct Address([u8; 20]);`, a
hexadecimal text form. The derive first checks the struct's shape and reads
the array length N. It then emits `FromStr`, `Display`, `Debug`, `Serialize`
and `Deserialize` for that struct.

This project models both halves:

- `syntax.dfy` (module `Syntax`): the parts of the parsed item the derive
  inspects. These are the item's data (struct, enum, union), the fields
  (named, unnamed, unit), a field's type (array, path, other), an array
  length expression (literal or other), and the parser's `Path::is_ident`.
- `derive.dfy` (module `Derive`): `derive_zerohex` as a method with the
  source's mutable locals `array_size` and `valid` and its nested checks.
  Its contract states that the codec is produced exactly when the item is
  `struct Name([u8; N]);` with N written as an integer literal. It then
  states that N is that literal, and that any other item gives the one
  compile error on the item's name and no codec.
- `hex.dfy` (module `Hex`): the base16 transcoding the emitted code relies on
  (section 8 of RFC 4648). `Encode` is `hex::encode`, which writes lowercase
  digits. `FromHex` is `<[u8; N]>::from_hex`, which reads digits of either
  case. The lemmas show that decoding inverts encoding, and that encoding
  inverts decoding up to the case of the letters. They also show where a
  failed decoding reports its error.
- `codec.dfy` (module `Codec`): the emitted functions as ordinary functions
  of N. It holds the length-based dispatch of `from_str`, the `0x` prefix of
  `Display`, and the `Debug` and serde adapters built on those two.
- `scenarios.dfy` (module `Scenarios`): the cases of the integration tests
  for `Address([u8; 20])`. It also holds three inputs `from_str` rejects
  (src/lib.rs:54-61): a 39-character text, an `xx` prefix and a `g` digit.

Text is a sequence of ASCII characters (`Hex.Ascii`), so `str::len` is the
character count. Bytes are integers from 0 to 255 (`Hex.Byte`). The struct
value is its N bytes.

Four points where the generated code behaves in a way that is easy to miss,
all modelled as written:

- A text of exactly 2N characters with a non-digit does not return an error.
  `from_str` calls `unwrap` on the decoding there (src/lib.rs:55), so it
  panics. The model has an explicit `Panic` outcome. The prefixed branch
  returns the same error instead (src/lib.rs:57).
- In the prefixed branch the position reported by `InvalidHexCharacter`
  counts from the end of the prefix, because only `s[2..]` is decoded.
- `Debug` prints the formatted text through `debug_tuple(..).field(&String)`.
  The string is therefore quoted: `Address("0x01...")`.
- The shape error is one fixed message, whatever check failed.

## Model

| member | source | states |
|---|---|---|
| `Syntax.IsIdentU8` | src/lib.rs:19-20 | `is_ident("u8")` holds of exactly one path: the bare one-segment `u8` with no leading `::` and no generic arguments |
| `Derive.DeriveZerohex` | src/lib.rs:10-42 | the codec is produced if and only if the item is a tuple struct with exactly one field of type `[u8; N]` with N an integer literal; N is that literal, the digit counts are 2N and 2N+2, and every other item yields exactly the compile error on the item's name with the fixed message and no codec |
| `Hex.Val` | src/lib.rs:55-57 | a character has a digit value, below 16, exactly when it is a hex digit of either case; otherwise the error names the character and its position |
| `Hex.DigitsOfBothCases` | src/lib.rs:55-57 | the lowercase and the uppercase RFC 4648 digit of every value from 0 to 15 both read as that value |
| `Hex.ToLower` | src/lib.rs:56 | lower-casing keeps the length, turns each uppercase letter into the lowercase letter at the same place in the alphabet, and changes no other character |
| `Hex.FirstNonHex` | src/lib.rs:55-57 | the position of the first character that is not a hex digit: every earlier character is one |
| `Hex.Encode` | src/lib.rs:68 | the encoding has two characters per byte, and characters 2i and 2i+1 are the digits of the high and the low nibble of byte i |
| `Hex.EncodeAppend` | src/lib.rs:68 | encoding is byte by byte: the text of a concatenation is the concatenation of the texts |
| `Hex.NibbleCharIsLowerDigit` | src/lib.rs:68 | the digit written for a nibble is the lowercase RFC 4648 digit of that value |
| `Hex.DecodePairs` | src/lib.rs:55-57 | decoding succeeds exactly when every character is a hex digit, and then yields half as many bytes as characters |
| `Hex.DecodedByte` | src/lib.rs:55-57 | byte i of a decoding is 16 times the value of digit 2i plus the value of digit 2i+1 |
| `Hex.DecodeDigits` | src/lib.rs:55-57 | a decoding of digits yields exactly the bytes those digits stand for (`BytesOf`) |
| `Hex.BytesOfAppend` | src/lib.rs:55-57 | decoding is pair by pair: the bytes of a concatenation of digit runs are the concatenation of their bytes |
| `Hex.DecodeError` | src/lib.rs:55-57 | a failed decoding reports the first non-digit character and its position, and yields no bytes |
| `Hex.FromHex` | src/lib.rs:55-57 | an odd digit count is `OddLength`, an even count other than 2N is `InvalidStringLength`, and exactly 2N digits are decoded pair by pair |
| `Hex.DecodeEncode` | src/lib.rs:55-57 | decoding the encoding of any bytes gives those bytes back |
| `Hex.EncodeDecode` | src/lib.rs:55-57 | encoding the result of a successful decoding gives the decoded text in lower case |
| `Codec.FromStr` | src/lib.rs:53-63 | a parsed value has N bytes; a length other than 2N and 2N+2 is `InvalidStringLength`; a 2N+2 text without the `0x`/`0X` prefix is `InvalidStringLength`; the parse panics exactly when the text has 2N characters and one is not a hex digit |
| `Codec.PrefixIgnoresCase` | src/lib.rs:56 | the lower-cased first two characters equal `0x` exactly when they are `0x` or `0X` |
| `Codec.UnprefixedInput` | src/lib.rs:55 | a 2N-character text of digits of either case parses to the bytes the digits stand for, in order and high nibble first; otherwise it panics on the first non-digit at its position |
| `Codec.PrefixedInput` | src/lib.rs:56-57 | a 2N+2-character text behind `0x`/`0X` parses to the bytes of its last 2N digits; otherwise it returns the error naming the first non-digit, counted from the end of the prefix |
| `Codec.PrefixedLikeUnprefixed` | src/lib.rs:54-60 | a prefix in front of 2N digits changes nothing; in front of 2N characters with a non-digit, it turns the panic into the same error returned |
| `Codec.PrefixKeepsValue` | src/lib.rs:55-57 | a text that parses without a prefix parses to the same bytes with `0x` or `0X` in front |
| `Codec.Display` | src/lib.rs:66-70 | the formatted text has 2N+2 characters and starts with `0x`, and characters 2+2i and 3+2i are the lowercase digits of the high and the low nibble of byte i |
| `Codec.DisplayIsLowercase` | src/lib.rs:68 | after the prefix, the formatted text has only lowercase hex digits |
| `Codec.RoundTrip` | src/lib.rs:53-70 | parsing the formatted text of any N bytes gives those bytes back |
| `Codec.ParseThenDisplay` | src/lib.rs:53-70 | formatting a parsed value gives `0x` followed by the parsed digits in lower case, so each accepted text has one canonical form |
| `Codec.Debug` | src/lib.rs:72-78 | the debug text is the struct name, then `("`, and ends in `")`, with the formatted text between: six characters more than the name and the digits |
| `Codec.DebugShowsDisplay` | src/lib.rs:72-78 | the debug text begins with the struct name and holds the formatted text, which parses back to the bytes |
| `Codec.Serialize` | src/lib.rs:80-87 | the serialized string is the 2N+2-character `0x` text with lowercase digits after the prefix, and it parses back to the bytes |
| `Codec.Deserialize` | src/lib.rs:89-96 | a framework error is passed on; a string is parsed, a parsed value is the result, a parse error becomes the framework's custom error, and a parse panic stays a panic |
| `Codec.SerdeRoundTrip` | src/lib.rs:80-96 | deserializing the serialized string of any N bytes gives those bytes back |
| `Scenarios.DisplayOnes` | tests/integration.rs:6-14 | twenty bytes of 1 format as `0x` followed by twenty `01` |
| `Scenarios.ParseUnprefixed` | tests/integration.rs:16-26 | the forty digits `00` to `13` parse to the bytes 0 to 19 |
| `Scenarios.ParsePrefixed` | tests/integration.rs:28-38 | the same digits behind `0x` parse to the same bytes |
| `Scenarios.ParseShort` | src/lib.rs:54-61 | a 39-character text is `InvalidStringLength` for N = 20 |
| `Scenarios.ParseBadPrefix` | src/lib.rs:56-59 | a 42-character text starting with `xx` is `InvalidStringLength` for N = 20 |
| `Scenarios.ParseBadDigit` | src/lib.rs:55-57 | a `g` first among 40 characters panics, and behind `0x` it is returned as `InvalidHexCharacter('g', 0)` |

## Left out

- Macro plumbing is not modelled: `TokenStream`, `parse_macro_input!`, the `quote!` emission and `to_compile_error` (src/lib.rs:2-8, 35-37, 44-48, 97-100). The derive's result is an `Expansion` value: the codec's parameters or the compile error. It is not the emitted tokens, and it leaves out the `use` lines the expansion also emits.
- Parsing Rust source into the item is not modelled. The item is given as a value. Spans, attributes, generics, field names and a qualified-self (`<T as Trait>::`) part of a path type are not represented.
- `DeriveZerohex` does not model the `unwrap` on `base10_parse::<usize>()` (src/lib.rs:23). An integer literal is its value as an unbounded `nat`, so a literal too large for `usize` is not rejected.
- `DeriveZerohex` does not model overflow of `n * 2` and `n_char + 2` (src/lib.rs:41-42). For a literal above `usize::MAX / 2` these overflow `usize`, which panics in the macro when it is built with overflow checks. The model's `nChar` and `nCharPrefixed` are unbounded.
- Text is ASCII only. With non-ASCII input, `s.len()` counts UTF-8 bytes, and `s[..2]` can panic on a character boundary. Neither is modelled.
- The code of the `hex` crate is not among the modelled sources. `Hex.FromHex`, `Hex.Val` and `Hex.Encode` follow the code of its `decode_to_slice`, `val` and `encode` as recalled, not checked against that code's text. Its documentation states only that both letter cases are read, that an odd length is `OddLength`, and what each error means. The order of the checks (lengths before any digit) and the report of the first bad character at its position come from that recalled code.
- `Codec.Deserialize`: `D::Error::custom` turns the parse error into the framework's error through its display text. The model keeps the error value (`Custom(cause)`), not its text. The rest of serde's `Serializer`/`Deserializer` machinery is a foreign library: `String::deserialize` is a parameter, and serialization is the string handed to `serialize_str`.
- `Codec.Debug`: the alternate form `{:#?}`, with line breaks and indentation, is not modelled. Neither are errors raised by the `Formatter` itself.
- `Codec.Display`: the `fmt::Result` of `write!` is not modelled. Formatting is a total function to the text.
