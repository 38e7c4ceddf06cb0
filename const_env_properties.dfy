/**
 * What the quoting rule of `value_to_literal` means for its callers: plain
 * values are kept verbatim, escapes in the value are decoded, byte and
 * character literals take exactly one unit, and every content is reachable
 * from some environment value.
 */
module ConstEnvProperties {
  import opened Wrappers
  import opened Syntax
  import opened Literals
  import opened ConstEnv

  /** A string value without backslashes, double quotes or carriage returns becomes exactly that string. */
  lemma StrPlainValueKept(value: string, attrs: seq<Attribute>, before: string, span: Span, parseExpr: string -> Option<Expr>)
    requires forall i :: 0 <= i < |value| ==> PlainChar(StrKind, value[i])
    ensures ValueToLiteral(value, ELit(attrs, LitStr(before, span)), parseExpr) == Ok(ELit(attrs, LitStr(value, span)))
  {
    PlainTextDecodes(StrKind, value);
  }

  /** The same for byte strings, whose plain characters are ASCII. */
  lemma ByteStrPlainValueKept(value: string, attrs: seq<Attribute>, before: seq<Byte>, span: Span, parseExpr: string -> Option<Expr>)
    requires forall i :: 0 <= i < |value| ==> PlainChar(ByteStrKind, value[i])
    ensures forall i :: 0 <= i < |value| ==> value[i] as int < 0x100
    ensures ValueToLiteral(value, ELit(attrs, LitByteStr(before, span)), parseExpr) ==
            Ok(ELit(attrs, LitByteStr(ToBytes(value), span)))
  {
    PlainTextDecodes(ByteStrKind, value);
    var r := ValueToLiteral(value, ELit(attrs, LitByteStr(before, span)), parseExpr);
    assert ToChars(r.value.lit.bytes) == value;
    assert r.value.lit.bytes == ToBytes(value);
  }

  /** A character literal takes a value of exactly one plain character. */
  lemma CharTakesOneChar(value: string, attrs: seq<Attribute>, before: char, span: Span, parseExpr: string -> Option<Expr>)
    requires forall i :: 0 <= i < |value| ==> PlainChar(CharKind, value[i])
    ensures var r := ValueToLiteral(value, ELit(attrs, LitChar(before, span)), parseExpr);
            && (|value| == 1 ==> r == Ok(ELit(attrs, LitChar(value[0], span))))
            && (|value| != 1 ==> r == Err(ValueNotLiteral(CharKind)))
  {
    PlainTextDecodes(CharKind, value);
  }

  /** A byte literal takes a value of exactly one plain ASCII character. */
  lemma ByteTakesOneByte(value: string, attrs: seq<Attribute>, before: Byte, span: Span, parseExpr: string -> Option<Expr>)
    requires forall i :: 0 <= i < |value| ==> PlainChar(ByteKind, value[i])
    ensures var r := ValueToLiteral(value, ELit(attrs, LitByte(before, span)), parseExpr);
            && (|value| == 1 ==> r == Ok(ELit(attrs, LitByte(value[0] as int, span))))
            && (|value| != 1 ==> r == Err(ValueNotLiteral(ByteKind)))
  {
    PlainTextDecodes(ByteKind, value);
  }

  lemma WorldTabFooDecodes()
    ensures DecodeBody(StrKind, "world\\tfoo") == Some("world\tfoo")
  {
    var escaped := "\\tfoo";
    PlainTextDecodes(StrKind, "foo");
    SimpleEscapeDecodes(StrKind, 't', '\t', "foo");
    assert ['\\', 't'] + "foo" == escaped;
    assert ['\t'] + "foo" == "\tfoo";
    PlainPrefixDecodes(StrKind, "world", escaped);
    assert "world" + escaped == "world\\tfoo";
    assert "world" + "\tfoo" == "world\tfoo";
  }

  /** The raw value `world\tfoo` (backslash, `t`) yields a string holding a tab. */
  lemma StrEscapeDecoded(attrs: seq<Attribute>, span: Span, parseExpr: string -> Option<Expr>)
    ensures ValueToLiteral("world\\tfoo", ELit(attrs, LitStr("Hello", span)), parseExpr) ==
            Ok(ELit(attrs, LitStr("world\tfoo", span)))
  {
    WorldTabFooDecodes();
  }

  /** The raw value `\n` (backslash, `n`) replacing `b'\t'` yields the byte 10. */
  lemma ByteEscapeDecoded(attrs: seq<Attribute>, span: Span, parseExpr: string -> Option<Expr>)
    ensures ValueToLiteral("\\n", ELit(attrs, LitByte(9, span)), parseExpr) == Ok(ELit(attrs, LitByte(10, span)))
  {
    SimpleEscapeDecodes(ByteKind, 'n', '\n', []);
    assert ['\\', 'n'] + [] == "\\n";
    assert ['\n'] + [] == "\n";
  }

  /** Every string is the result for some environment value: its escaped form. */
  lemma EveryStringReachable(s: string, attrs: seq<Attribute>, before: string, span: Span, parseExpr: string -> Option<Expr>)
    ensures ValueToLiteral(EscapeText(StrKind, s), ELit(attrs, LitStr(before, span)), parseExpr) == Ok(ELit(attrs, LitStr(s, span)))
  {
    EscapeTextDecodes(StrKind, s);
  }

  /** Every byte string is the result for some environment value. */
  lemma EveryByteStringReachable(bytes: seq<Byte>, attrs: seq<Attribute>, before: seq<Byte>, span: Span, parseExpr: string -> Option<Expr>)
    ensures ValueToLiteral(EscapeText(ByteStrKind, ToChars(bytes)), ELit(attrs, LitByteStr(before, span)), parseExpr) ==
            Ok(ELit(attrs, LitByteStr(bytes, span)))
  {
    var s := ToChars(bytes);
    EscapeTextDecodes(ByteStrKind, s);
    var r := ValueToLiteral(EscapeText(ByteStrKind, s), ELit(attrs, LitByteStr(before, span)), parseExpr);
    assert ToChars(r.value.lit.bytes) == s;
    assert r.value.lit.bytes == bytes;
  }

  /** Every character is the result for some environment value. */
  lemma EveryCharReachable(c: char, attrs: seq<Attribute>, before: char, span: Span, parseExpr: string -> Option<Expr>)
    ensures ValueToLiteral(EscapeText(CharKind, [c]), ELit(attrs, LitChar(before, span)), parseExpr) == Ok(ELit(attrs, LitChar(c, span)))
  {
    EscapeTextDecodes(CharKind, [c]);
  }

  /** Every byte is the result for some environment value. */
  lemma EveryByteReachable(b: Byte, attrs: seq<Attribute>, before: Byte, span: Span, parseExpr: string -> Option<Expr>)
    ensures ValueToLiteral(EscapeText(ByteKind, [b as char]), ELit(attrs, LitByte(before, span)), parseExpr) == Ok(ELit(attrs, LitByte(b, span)))
  {
    EscapeTextDecodes(ByteKind, [b as char]);
  }
}
