/**
 * The slice of the Rust syntax tree (as the `syn` crate exposes it) that the
 * engine reads and writes: literal expressions, unary and parenthesised
 * expressions, and `const` / `static` items. Token streams that `syn` parses
 * are represented by what parsing them yields.
 */
module Syntax {
  import opened Wrappers

  /** A value of a Rust `u8`. */
  type Byte = x: int | 0 <= x < 0x100

  /** An opaque source position; the engine only copies it. */
  datatype Span = Span(id: nat)

  /** An outer attribute such as `#[doc = "..."]`, kept as its path and token text. */
  datatype Attribute = Attribute(path: string, tokens: string)

  datatype Visibility = Inherited | Public | Crate | Restricted(path: string)

  /**
   * `syn::Lit`, one constructor per variant the engine matches on. Quoted
   * literals hold their decoded contents; numeric literals their text.
   */
  datatype Lit =
    | LitStr(text: string, span: Span)
    | LitByteStr(bytes: seq<Byte>, span: Span)
    | LitByte(byte: Byte, span: Span)
    | LitChar(ch: char, span: Span)
    | LitBool(b: bool, span: Span)
    | LitInt(digits: string, suffix: string, span: Span)
    | LitFloat(digits: string, suffix: string, span: Span)
    | LitVerbatim(tokens: string, span: Span)

  datatype UnOp = Deref | Not | Neg

  /**
   * `syn::Expr`. Literal, unary and parenthesised expressions are the shapes
   * the engine distinguishes; arrays and struct expressions are spelled out
   * because initializers of those shapes occur in this crate's users, and
   * every other expression kind is `EOther`.
   */
  datatype Expr =
    | ELit(attrs: seq<Attribute>, lit: Lit)
    | EUnary(attrs: seq<Attribute>, op: UnOp, operand: Expr)
    | EParen(attrs: seq<Attribute>, inner: Expr)
    | EArray(attrs: seq<Attribute>, elems: seq<Expr>)
    | EStruct(attrs: seq<Attribute>, path: string, fields: seq<FieldValue>)
    | EOther(attrs: seq<Attribute>, tokens: string)

  datatype FieldValue = FieldValue(member: string, value: Expr)

  /** The fields `syn::ItemConst` and `syn::ItemStatic` have in common. */
  datatype Decl = Decl(
    attrs: seq<Attribute>,
    vis: Visibility,
    ident: string,
    ty: string,
    expr: Expr,
    span: Span)

  /**
   * The item token stream handed to the attribute macro: it parses as a
   * `const` item, as a `static` item (possibly `mut`), or as neither.
   */
  datatype Item =
    | ItemConst(decl: Decl)
    | ItemStatic(mutable: bool, decl: Decl)
    | OtherItem(tokens: string)

  /**
   * The attribute's argument token stream: empty, or non-empty together with
   * what `syn` makes of it as an expression (`None` when it is not one).
   */
  datatype AttrArgs = NoArgs | Args(asExpr: Option<Expr>)
}
