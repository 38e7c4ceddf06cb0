/**
 * The engine behind the `#[from_env]` attribute: resolve the key, look it
 * up, and on a hit replace the initializer of a `const` or `static` item by
 * a literal built from the looked-up text. Every panic of the engine is an
 * `Err` here.
 */
module ConstEnv {
  import opened Wrappers
  import opened Syntax
  import opened Literals

  datatype Error =
    | NotConstOrStatic              // the item is neither `const` nor `static`
    | AttrNotExpression             // the attribute arguments do not parse as an expression
    | KeyLiteralNotString           // the key is a literal, but not a string literal
    | KeyNotStringLiteral           // the key is not a literal at all
    | ValueNotExpression            // the value does not parse as an expression
    | ValueNotLiteral(kind: QuotedKind)  // the quoted value does not parse as that literal kind
    | InitializerNotLiteral         // the initializer is neither a literal nor a unary expression

  // ---------------------------------------------------------------------
  // Key resolution
  // ---------------------------------------------------------------------

  /** The expression inside any number of enclosing parentheses. */
  function StripParens(e: Expr): (r: Expr)
    ensures !r.EParen?
  {
    match e
    case EParen(_, inner) => StripParens(inner)
    case _ => e
  }

  /** `e` wrapped in `n` pairs of parentheses. */
  function Parenthesized(n: nat, e: Expr): Expr {
    if n == 0 then e else EParen([], Parenthesized(n - 1, e))
  }

  /**
   * `extract_var_name_from_expr`: the value of a string literal, looking
   * through parentheses; a literal of another kind and any other expression
   * are errors.
   */
  function ExtractVarNameFromExpr(e: Expr): (r: Result<string, Error>)
    ensures r.Ok? <==> StripParens(e).ELit? && StripParens(e).lit.LitStr?
    ensures r.Ok? ==> r.value == StripParens(e).lit.text
    ensures r.Err? && StripParens(e).ELit? ==> r.error == KeyLiteralNotString
    ensures r.Err? && !StripParens(e).ELit? ==> r.error == KeyNotStringLiteral
  {
    match e
    case ELit(_, lit) => if lit.LitStr? then Ok(lit.text) else Err(KeyLiteralNotString)
    case EParen(_, inner) => ExtractVarNameFromExpr(inner)
    case _ => Err(KeyNotStringLiteral)
  }

  /**
   * `extract_var_name`: with no attribute arguments the key is the item's
   * own name; otherwise the arguments must be a string literal expression.
   */
  function ExtractVarName(attr: AttrArgs, default: string): (r: Result<string, Error>)
    ensures attr.NoArgs? ==> r == Ok(default)
    ensures attr == Args(None) ==> r == Err(AttrNotExpression)
    ensures attr.Args? && attr.asExpr.Some? ==>
              var inner := StripParens(attr.asExpr.value);
              && (r.Ok? <==> inner.ELit? && inner.lit.LitStr?)
              && (r.Ok? ==> r.value == inner.lit.text)
  {
    match attr
    case NoArgs => Ok(default)
    case Args(None) => Err(AttrNotExpression)
    case Args(Some(e)) => ExtractVarNameFromExpr(e)
  }

  lemma {:induction false} StripParenthesized(n: nat, e: Expr)
    ensures StripParens(Parenthesized(n, e)) == StripParens(e)
  {
    if n > 0 {
      StripParenthesized(n - 1, e);
    }
  }

  /** A string literal in any number of parentheses names its own value. */
  lemma ParenthesizedStringKey(n: nat, attrs: seq<Attribute>, key: string, span: Span, default: string)
    ensures ExtractVarName(Args(Some(Parenthesized(n, ELit(attrs, LitStr(key, span))))), default) == Ok(key)
  {
    StripParenthesized(n, ELit(attrs, LitStr(key, span)));
  }

  /** A parenthesised literal of any other kind is rejected as a non-string literal. */
  lemma ParenthesizedOtherLiteralRejected(n: nat, attrs: seq<Attribute>, lit: Lit, default: string)
    requires !lit.LitStr?
    ensures ExtractVarName(Args(Some(Parenthesized(n, ELit(attrs, lit)))), default) == Err(KeyLiteralNotString)
  {
    StripParenthesized(n, ELit(attrs, lit));
  }

  // ---------------------------------------------------------------------
  // Rewriting the initializer
  // ---------------------------------------------------------------------

  /** The quoted kind of a literal initializer, if it is one. */
  function QuotedKindOf(e: Expr): Option<QuotedKind> {
    if !e.ELit? then None
    else match e.lit
      case LitStr(_, _) => Some(StrKind)
      case LitByteStr(_, _) => Some(ByteStrKind)
      case LitByte(_, _) => Some(ByteKind)
      case LitChar(_, _) => Some(CharKind)
      case _ => None
  }

  /** Initializers whose replacement is the raw value parsed as an expression. */
  predicate ReparsedDirectly(e: Expr) {
    e.EUnary? || (e.ELit? && (e.lit.LitBool? || e.lit.LitInt? || e.lit.LitFloat? || e.lit.LitVerbatim?))
  }

  function ToBytes(s: string): (b: seq<Byte>)
    requires forall i :: 0 <= i < |s| ==> s[i] as int < 0x100
    ensures |b| == |s| && forall i :: 0 <= i < |s| ==> b[i] == s[i] as int
  {
    seq(|s|, (i: int) requires 0 <= i < |s| => s[i] as int)
  }

  function ToChars(b: seq<Byte>): (s: string)
    ensures |s| == |b| && forall i :: 0 <= i < |b| ==> s[i] as int == b[i]
  {
    seq(|b|, (i: int) requires 0 <= i < |b| => b[i] as char)
  }

  /** What a quoted literal holds, as the units its body decodes to. */
  function QuotedContent(l: Lit): string {
    match l
    case LitStr(text, _) => text
    case LitByteStr(bytes, _) => ToChars(bytes)
    case LitByte(byte, _) => [byte as char]
    case LitChar(ch, _) => [ch]
    case _ => []
  }

  /** `syn::parse_str::<Expr>` on the value, through the host parser `parseExpr`. */
  function ParseExpression(value: string, parseExpr: string -> Option<Expr>): Result<Expr, Error> {
    match parseExpr(value)
    case Some(e) => Ok(e)
    case None => Err(ValueNotExpression)
  }

  /** The literal of kind `k` holding the decoded units `s`, at `span`. */
  function MakeLiteral(k: QuotedKind, s: string, span: Span): (l: Lit)
    requires IsSingle(k) ==> |s| == 1
    requires IsByteKind(k) ==> forall i :: 0 <= i < |s| ==> s[i] as int < 0x100
    ensures QuotedKindOf(ELit([], l)) == Some(k) && l.span == span && QuotedContent(l) == s
  {
    match k
    case StrKind => LitStr(s, span)
    case ByteStrKind =>
      assert ToChars(ToBytes(s)) == s;
      LitByteStr(ToBytes(s), span)
    case ByteKind => LitByte(s[0] as int, span)
    case CharKind => LitChar(s[0], span)
  }

  /**
   * The quoted branches of `value_to_literal`: quote the value as a literal
   * of kind `k`, parse it as one, and give it the original's span and
   * attributes.
   */
  function RequoteValue(k: QuotedKind, value: string, attrs: seq<Attribute>, span: Span): (r: Result<Expr, Error>)
    ensures r.Ok? <==> DecodeLiteral(k, value).Some?
    ensures r.Ok? ==>
              && r.value.ELit?
              && r.value.attrs == attrs
              && QuotedKindOf(r.value) == Some(k)
              && r.value.lit.span == span
              && QuotedContent(r.value.lit) == DecodeLiteral(k, value).value
    ensures r.Err? ==> r.error == ValueNotLiteral(k)
  {
    var text := match k
      case StrKind => "\"" + value + "\""
      case ByteStrKind => "b\"" + value + "\""
      case ByteKind => "b'" + value + "'"
      case CharKind => "'" + value + "'";
    QuotingRule(k, value);
    assert text == Opening(k) + value + [Delimiter(k)];
    match ParseLiteral(k, text)
    case None => Err(ValueNotLiteral(k))
    case Some(s) => Ok(ELit(attrs, MakeLiteral(k, s, span)))
  }

  /**
   * `value_to_literal`: a quoted original is replaced by the value quoted
   * the same way and parsed as that literal kind, keeping the original's
   * span and attributes; a unary, boolean, integer, float or verbatim
   * original is replaced by the value parsed as an expression; anything else
   * is rejected.
   */
  function ValueToLiteral(value: string, original: Expr, parseExpr: string -> Option<Expr>): (r: Result<Expr, Error>)
    ensures QuotedKindOf(original).Some? ==>
              var k := QuotedKindOf(original).value;
              && (r.Ok? <==> DecodeLiteral(k, value).Some?)
              && (r.Ok? ==>
                    && r.value.ELit?
                    && r.value.attrs == original.attrs
                    && QuotedKindOf(r.value) == Some(k)
                    && r.value.lit.span == original.lit.span
                    && QuotedContent(r.value.lit) == DecodeLiteral(k, value).value)
              && (r.Err? ==> r.error == ValueNotLiteral(k))
    ensures ReparsedDirectly(original) ==>
              (r.Ok? <==> parseExpr(value).Some?) &&
              (r.Ok? ==> r.value == parseExpr(value).value) &&
              (r.Err? ==> r.error == ValueNotExpression)
    ensures QuotedKindOf(original).None? && !ReparsedDirectly(original) ==> r == Err(InitializerNotLiteral)
  {
    match original
    case EUnary(_, _, _) => ParseExpression(value, parseExpr)
    case ELit(attrs, lit) =>
      (match lit
       case LitStr(_, span) => RequoteValue(StrKind, value, attrs, span)
       case LitByteStr(_, span) => RequoteValue(ByteStrKind, value, attrs, span)
       case LitByte(_, span) => RequoteValue(ByteKind, value, attrs, span)
       case LitChar(_, span) => RequoteValue(CharKind, value, attrs, span)
       case LitBool(_, _) => ParseExpression(value, parseExpr)
       case LitInt(_, _, _) => ParseExpression(value, parseExpr)
       case LitFloat(_, _, _) => ParseExpression(value, parseExpr)
       case LitVerbatim(_, _) => ParseExpression(value, parseExpr))
    case _ => Err(InitializerNotLiteral)
  }

  // ---------------------------------------------------------------------
  // Orchestration
  // ---------------------------------------------------------------------

  /** `after` is `before` with at most its initializer replaced. */
  predicate SameExceptInitializer(after: Item, before: Item) {
    && !before.OtherItem?
    && after.ItemConst? == before.ItemConst?
    && after.ItemStatic? == before.ItemStatic?
    && (after.ItemStatic? ==> after.mutable == before.mutable)
    && after.decl.attrs == before.decl.attrs
    && after.decl.vis == before.decl.vis
    && after.decl.ident == before.decl.ident
    && after.decl.ty == before.decl.ty
    && after.decl.span == before.decl.span
  }

  /**
   * `from_env`: rewrite a `const` or `static` item from the environment
   * `readEnv`. The key is resolved first (an error even when the variable is
   * unset); a miss returns the item untouched; a hit replaces only its
   * initializer by ValueToLiteral of the value.
   */
  method FromEnv(attr: AttrArgs, item: Item, readEnv: string -> Option<string>, parseExpr: string -> Option<Expr>)
    returns (r: Result<Item, Error>)
    ensures item.OtherItem? ==> r == Err(NotConstOrStatic)
    ensures !item.OtherItem? && ExtractVarName(attr, item.decl.ident).Err? ==>
              r == Err(ExtractVarName(attr, item.decl.ident).error)
    ensures !item.OtherItem? && ExtractVarName(attr, item.decl.ident).Ok? ==>
              var found := readEnv(ExtractVarName(attr, item.decl.ident).value);
              && (found.None? ==> r == Ok(item))
              && (found.Some? ==>
                    var lit := ValueToLiteral(found.value, item.decl.expr, parseExpr);
                    && (lit.Err? ==> r == Err(lit.error))
                    && (lit.Ok? ==> r.Ok? && SameExceptInitializer(r.value, item) && r.value.decl.expr == lit.value))
  {
    if item.OtherItem? {
      return Err(NotConstOrStatic);
    }
    var decl := item.decl;
    var varName :- ExtractVarName(attr, decl.ident);
    var varValue := readEnv(varName);
    if varValue.None? {
      return Ok(item);
    }
    var newExpr :- ValueToLiteral(varValue.value, decl.expr, parseExpr);
    decl := decl.(expr := newExpr);
    r := Ok(item.(decl := decl));
  }
}
