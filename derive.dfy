/**
 * The decision `derive(Zerohex)` makes before emitting anything: the item
 * must be a tuple struct with exactly one field, of type `[u8; N]` with N
 * written as an integer literal. Then the codec for that N is emitted;
 * otherwise one compile error is emitted and no codec at all.
 */
module Derive {
  import opened Syntax

  datatype Option<T> = None | Some(value: T)

  /** The error text attached to the item's name when the shape is wrong. */
  const ShapeMessage := "Zerohex can only be derived for structs with a single [u8; N] field."

  /**
   * What the derive expands to: the codec for the struct `name` over
   * `[u8; n]`, whose text lengths are `nChar` digits without the prefix and
   * `nCharPrefixed` with it; or a compile error spanning the item's name.
   */
  datatype Expansion =
    | Codec(name: string, n: nat, nChar: nat, nCharPrefixed: nat)
    | CompileError(span: string, message: string)

  /** The eligible shape, stated as a whole: `struct Name([u8; n]);`. */
  predicate IsByteArrayStruct(d: Data, n: nat) {
    d == Struct(Unnamed([Field(TypeArray(TypePath(U8Path), ExprLit(LitInt(n))))]))
  }

  /**
   * The derive, check by check: each nested test narrows the item down,
   * and only the innermost one records the array length and marks the item
   * valid. An invalid item yields the compile error; a valid one the codec,
   * with twice the length in digits and two more with the prefix.
   */
  method DeriveZerohex(input: DeriveInput) returns (out: Expansion)
    ensures out.Codec? <==> exists n :: IsByteArrayStruct(input.data, n)
    ensures out.Codec? ==> IsByteArrayStruct(input.data, out.n) && out.name == input.ident
    ensures out.Codec? ==> out.nChar == 2 * out.n && out.nCharPrefixed == 2 * out.n + 2
    ensures out.CompileError? ==> out == CompileError(input.ident, ShapeMessage)
  {
    var name := input.ident;
    var arraySize: Option<nat> := None;

    var valid := false;
    if input.data.Struct? {
      var data := input.data;
      if data.fields.Unnamed? {
        var fields := data.fields;
        if |fields.unnamed| == 1 {
          var field := fields.unnamed[0].ty;
          if field.TypeArray? {
            var arr := field;
            if arr.elem.TypePath? {
              var path := arr.elem;
              if IsIdent(path.path, "u8") {
                if arr.len.ExprLit? {
                  var exprLit := arr.len;
                  if exprLit.lit.LitInt? {
                    arraySize := Some(exprLit.lit.value);
                    valid := true;
                    IsIdentU8(path.path);
                    assert [fields.unnamed[0]] == fields.unnamed;
                    assert IsByteArrayStruct(input.data, arraySize.value);
                  }
                }
              }
            }
          }
        }
      }
    }

    if !valid {
      forall n ensures !IsByteArrayStruct(input.data, n) {
        if IsByteArrayStruct(input.data, n) {
          IsIdentU8(input.data.fields.unnamed[0].ty.elem.path);
        }
      }
      return CompileError(name, ShapeMessage);
    }

    var n := arraySize.value;
    var nChar := n * 2;
    var nCharPrefixed := nChar + 2;
    return Codec(name, n, nChar, nCharPrefixed);
  }
}
