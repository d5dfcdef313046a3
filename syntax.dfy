/**
 * The part of a parsed Rust item that the derive inspects: the item's data
 * (struct, enum or union), a struct's fields, a field's type, and an array
 * type's length expression. Everything else the parser records (spans,
 * attributes, generics, visibility, field names) is not looked at and is
 * not represented.
 */
module Syntax {

  /** Generic arguments written after a path segment: `u8`, `Vec<u8>`, `Fn(u8)`. */
  datatype PathArguments = NoArguments | AngleBracketed | Parenthesized

  datatype PathSegment = PathSegment(ident: string, arguments: PathArguments)

  /** A path such as `u8`, `::core::primitive::u8` or `Vec<u8>`. */
  datatype Path = Path(leadingColon: bool, segments: seq<PathSegment>)

  /** A literal; only integer literals matter here, by their base-10 value. */
  datatype Lit = LitInt(value: nat) | LitOther

  /** An expression: a literal, or anything else (a constant name, `4 * 5`, ...). */
  datatype Expr = ExprLit(lit: Lit) | ExprOther

  /** A type: `[elem; len]`, a path type, or anything else (tuple, slice, reference, ...). */
  datatype Type = TypeArray(elem: Type, len: Expr) | TypePath(path: Path) | TypeOther

  datatype Field = Field(ty: Type)

  /** `struct S { a: T }`, `struct S(T)` and `struct S;`. */
  datatype Fields = Named(named: seq<Field>) | Unnamed(unnamed: seq<Field>) | Unit

  datatype Data = Struct(fields: Fields) | Enum | Union

  /** The item a derive is applied to: its name and its data. */
  datatype DeriveInput = DeriveInput(ident: string, data: Data)

  /**
   * The parser's `Path::is_ident`: the path is one segment, without a
   * leading `::` and without generic arguments, whose identifier is `id`.
   */
  predicate IsIdent(p: Path, id: string) {
    && !p.leadingColon
    && |p.segments| == 1
    && p.segments[0].arguments == NoArguments
    && p.segments[0].ident == id
  }

  /** The only path that names `u8` as a bare identifier. */
  const U8Path := Path(false, [PathSegment("u8", NoArguments)])

  /** `is_ident("u8")` holds of exactly one path. */
  lemma IsIdentU8(p: Path)
    ensures IsIdent(p, "u8") <==> p == U8Path
  {
    if IsIdent(p, "u8") {
      assert p.segments == [PathSegment("u8", NoArguments)];
    }
  }
}
