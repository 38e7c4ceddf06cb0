/**
 * Rust's quoted literals — string `"…"`, byte string `b"…"`, byte `b'…'` and
 * character `'…'` — as the host parser reads them: the text between the
 * delimiters is decoded escape by escape. This is the part of `syn`'s
 * `parse_str` that the engine relies on when it quotes a raw value.
 */
module Literals {
  import opened Wrappers

  datatype QuotedKind = StrKind | ByteStrKind | ByteKind | CharKind

  predicate IsByteKind(k: QuotedKind) {
    k == ByteStrKind || k == ByteKind
  }

  /** Byte and character literals hold exactly one unit. */
  predicate IsSingle(k: QuotedKind) {
    k == ByteKind || k == CharKind
  }

  function Delimiter(k: QuotedKind): char {
    if IsSingle(k) then '\'' else '"'
  }

  /** The text that opens a literal of kind `k`: `"`, `b"`, `b'` or `'`. */
  function Opening(k: QuotedKind): string {
    (if IsByteKind(k) then "b" else "") + [Delimiter(k)]
  }

  predicate IsHexDigit(c: char) {
    '0' <= c <= '9' || 'a' <= c <= 'f' || 'A' <= c <= 'F'
  }

  function HexValue(c: char): (v: nat)
    requires IsHexDigit(c)
    ensures v < 16
  {
    if '0' <= c <= '9' then c as int - '0' as int
    else if 'a' <= c <= 'f' then c as int - 'a' as int + 10
    else c as int - 'A' as int + 10
  }

  /** The lower-case hex digit for `v`; the inverse of HexValue. */
  function HexDigit(v: nat): (c: char)
    requires v < 16
    ensures IsHexDigit(c) && HexValue(c) == v
  {
    if v < 10 then ('0' as int + v) as char else ('a' as int + v - 10) as char
  }

  /** The number of hex digits `s` starts with. */
  function HexRunLength(s: string): (n: nat)
    ensures n <= |s|
    ensures forall i :: 0 <= i < n ==> IsHexDigit(s[i])
    ensures n < |s| ==> !IsHexDigit(s[n])
  {
    if s == [] || !IsHexDigit(s[0]) then 0 else 1 + HexRunLength(s[1..])
  }

  function HexNumber(s: string): nat
    requires forall i :: 0 <= i < |s| ==> IsHexDigit(s[i])
  {
    if s == [] then 0 else 16 * HexNumber(s[..|s| - 1]) + HexValue(s[|s| - 1])
  }

  predicate IsScalarValue(v: int) {
    0 <= v < 0xD800 || 0xE000 <= v < 0x11_0000
  }

  /**
   * The `{…}` part of a `\u{…}` escape at the start of `t`: one to six hex
   * digits naming a Unicode scalar value. Yields the character and the number
   * of characters of `t` it occupies.
   */
  function UnicodeEscape(t: string): (r: Option<(char, nat)>)
    ensures r.Some? ==> 3 <= r.value.1 <= |t| && r.value.1 <= 8
  {
    if t == [] || t[0] != '{' then None
    else
      var n := HexRunLength(t[1..]);
      if 1 <= n <= 6 && 1 + n < |t| && t[1 + n] == '}' then
        assert forall i :: 0 <= i < n ==> t[1..1 + n][i] == t[1..][i];
        var v := HexNumber(t[1..1 + n]);
        if IsScalarValue(v) then Some((v as char, n + 2)) else None
      else None
  }

  /**
   * The escape whose text follows a backslash at the start of `t`, in a
   * literal of kind `k`: the character it stands for and how many characters
   * of `t` it occupies. `\x` above 0x7F is for byte kinds only; `\u{…}` is
   * for string and character literals only.
   */
  function EscapeAt(k: QuotedKind, t: string): (r: Option<(char, nat)>)
    ensures r.Some? ==> 1 <= r.value.1 <= |t|
    ensures r.Some? && IsByteKind(k) ==> r.value.0 as int < 0x100
  {
    if t == [] then None
    else if t[0] == 'n' then Some(('\n', 1))
    else if t[0] == 'r' then Some(('\r', 1))
    else if t[0] == 't' then Some(('\t', 1))
    else if t[0] == '\\' then Some(('\\', 1))
    else if t[0] == '0' then Some(('\0', 1))
    else if t[0] == '\'' then Some(('\'', 1))
    else if t[0] == '"' then Some(('"', 1))
    else if t[0] == 'x' then
      if |t| >= 3 && IsHexDigit(t[1]) && IsHexDigit(t[2]) then
        var v := 16 * HexValue(t[1]) + HexValue(t[2]);
        if v < 0x80 || IsByteKind(k) then Some((v as char, 3)) else None
      else None
    else if t[0] == 'u' && !IsByteKind(k) then
      match UnicodeEscape(t[1..])
      case None => None
      case Some((c, n)) => Some((c, n + 1))
    else None
  }

  /** What follows `\` and a newline in a string: the whitespace after it is skipped. */
  function SkipWhitespace(s: string): (r: string)
    ensures |r| <= |s| && r == s[|s| - |r|..]
  {
    if s != [] && (s[0] == ' ' || s[0] == '\t' || s[0] == '\n' || s[0] == '\r')
    then SkipWhitespace(s[1..])
    else s
  }

  /**
   * A character that may stand for itself in a literal of kind `k`: not a
   * backslash, not the delimiter, not a bare carriage return; ASCII in byte
   * kinds; neither newline nor tab in byte and character literals.
   */
  predicate PlainChar(k: QuotedKind, c: char) {
    && c != '\\'
    && c != Delimiter(k)
    && c != '\r'
    && (IsByteKind(k) ==> c as int < 0x80)
    && (IsSingle(k) ==> c != '\n' && c != '\t')
  }

  function Prepend(c: char, r: Option<string>): Option<string> {
    match r
    case Some(s) => Some([c] + s)
    case None => None
  }

  /**
   * The units that the text between the delimiters of a literal of kind `k`
   * stands for, or None when that text is not a valid literal body. Byte kinds
   * yield characters below 0x100, one per byte.
   */
  function DecodeBody(k: QuotedKind, s: string): (r: Option<string>)
    ensures r.Some? && IsByteKind(k) ==> forall i :: 0 <= i < |r.value| ==> r.value[i] as int < 0x100
    decreases |s|
  {
    if s == [] then Some([])
    else if s[0] == '\\' then
      if !IsSingle(k) && |s| >= 2 && s[1] == '\n' then DecodeBody(k, SkipWhitespace(s[2..]))
      else
        match EscapeAt(k, s[1..])
        case None => None
        case Some((c, n)) => Prepend(c, DecodeBody(k, s[1 + n..]))
    else if PlainChar(k, s[0]) then Prepend(s[0], DecodeBody(k, s[1..]))
    else None
  }

  /**
   * The contents of a literal of kind `k` whose body is `s`; a byte or
   * character literal must decode to exactly one unit.
   */
  function DecodeLiteral(k: QuotedKind, s: string): (r: Option<string>)
    ensures r.Some? && IsSingle(k) ==> |r.value| == 1
    ensures r.Some? && IsByteKind(k) ==> forall i :: 0 <= i < |r.value| ==> r.value[i] as int < 0x100
    ensures r.Some? ==> DecodeBody(k, s) == r
  {
    var units := DecodeBody(k, s);
    if IsSingle(k) && units.Some? && |units.value| != 1 then None else units
  }

  /**
   * The host parser reading `text` as one literal of kind `k`: the text must
   * open with Opening(k) and close with the delimiter, and the body between
   * must decode.
   */
  function ParseLiteral(k: QuotedKind, text: string): (r: Option<string>)
    ensures r.Some? && IsSingle(k) ==> |r.value| == 1
    ensures r.Some? && IsByteKind(k) ==> forall i :: 0 <= i < |r.value| ==> r.value[i] as int < 0x100
  {
    var open := Opening(k);
    if |text| >= |open| + 1 && text[..|open|] == open && text[|text| - 1] == Delimiter(k)
    then DecodeLiteral(k, text[|open|..|text| - 1])
    else None
  }

  /** Wrapping a raw value in the delimiters of `k` and parsing it decodes exactly that value. */
  lemma QuotingRule(k: QuotedKind, v: string)
    ensures ParseLiteral(k, Opening(k) + v + [Delimiter(k)]) == DecodeLiteral(k, v)
  {
    var open := Opening(k);
    var text := open + v + [Delimiter(k)];
    assert text[..|open|] == open;
    assert text[|open|..|text| - 1] == v;
  }

  // ---------------------------------------------------------------------
  // The inverse direction: escaping a value so that it decodes to itself.
  // ---------------------------------------------------------------------

  /** Characters a literal of kind `k` can hold: byte kinds hold bytes only. */
  predicate Representable(k: QuotedKind, s: string) {
    IsByteKind(k) ==> forall i :: 0 <= i < |s| ==> s[i] as int < 0x100
  }

  /** The body text that stands for the single character `c` in a literal of kind `k`. */
  function EscapeChar(k: QuotedKind, c: char): string {
    if PlainChar(k, c) then [c]
    else if c == '\\' then "\\\\"
    else if c == '"' then "\\\""
    else if c == '\'' then "\\'"
    else if c == '\r' then "\\r"
    else if c == '\n' then "\\n"
    else if c == '\t' then "\\t"
    else "\\x" + [HexDigit((c as int / 16) % 16), HexDigit(c as int % 16)]
  }

  /** The body text for `s`, one EscapeChar per character. */
  function EscapeText(k: QuotedKind, s: string): string
    decreases |s|
  {
    if s == [] then [] else EscapeChar(k, s[0]) + EscapeText(k, s[1..])
  }

  /** A backslash escape occupying `e` stands for `c` wherever it occurs. */
  lemma EscapeDecodes(k: QuotedKind, e: string, c: char, rest: string)
    requires e != [] && e[0] != '\n'
    requires EscapeAt(k, e + rest) == Some((c, |e|))
    ensures DecodeBody(k, ['\\'] + e + rest) == Prepend(c, DecodeBody(k, rest))
  {
    var s := ['\\'] + e + rest;
    assert s[0] == '\\' && s[1] == e[0];
    assert s[1..] == e + rest;
    assert s[1 + |e|..] == rest;
  }

  lemma SimpleEscapeDecodes(k: QuotedKind, letter: char, c: char, rest: string)
    requires letter in "nrt\\0'\""
    requires EscapeAt(k, [letter]) == Some((c, 1))
    ensures DecodeBody(k, ['\\', letter] + rest) == Prepend(c, DecodeBody(k, rest))
  {
    assert ([letter] + rest)[0] == letter;
    EscapeDecodes(k, [letter], c, rest);
    assert ['\\'] + [letter] + rest == ['\\', letter] + rest;
  }

  lemma HexEscapeDecodes(k: QuotedKind, c: char, rest: string)
    requires IsByteKind(k) && c as int < 0x100
    ensures DecodeBody(k, "\\x" + [HexDigit((c as int / 16) % 16), HexDigit(c as int % 16)] + rest) == Prepend(c, DecodeBody(k, rest))
  {
    var v := c as int;
    var e := "x" + [HexDigit((v / 16) % 16), HexDigit(v % 16)];
    var t := e + rest;
    assert t[0] == 'x' && t[1] == e[1] && t[2] == e[2];
    assert 16 * (v / 16 % 16) + v % 16 == v;
    assert EscapeAt(k, t) == Some((c, 3));
    EscapeDecodes(k, e, c, rest);
    assert ['\\'] + e + rest == "\\x" + [HexDigit((v / 16) % 16), HexDigit(v % 16)] + rest;
  }

  lemma EscapeCharDecodes(k: QuotedKind, c: char, rest: string)
    requires IsByteKind(k) ==> c as int < 0x100
    ensures DecodeBody(k, EscapeChar(k, c) + rest) == Prepend(c, DecodeBody(k, rest))
  {
    if PlainChar(k, c) {
      PlainCharDecodes(k, c, rest);
    } else if c == '\\' {
      SimpleEscapeDecodes(k, '\\', c, rest);
    } else if c == '"' {
      SimpleEscapeDecodes(k, '"', c, rest);
    } else if c == '\'' {
      SimpleEscapeDecodes(k, '\'', c, rest);
    } else if c == '\r' {
      SimpleEscapeDecodes(k, 'r', c, rest);
    } else if c == '\n' {
      SimpleEscapeDecodes(k, 'n', c, rest);
    } else if c == '\t' {
      SimpleEscapeDecodes(k, 't', c, rest);
    } else {
      HexEscapeDecodes(k, c, rest);
    }
  }

  /** Every representable text, escaped, decodes back to itself. */
  lemma {:induction false} EscapeTextDecodes(k: QuotedKind, s: string)
    requires Representable(k, s)
    ensures DecodeBody(k, EscapeText(k, s)) == Some(s)
    decreases |s|
  {
    if s != [] {
      EscapeTextDecodes(k, s[1..]);
      EscapeCharDecodes(k, s[0], EscapeText(k, s[1..]));
      assert [s[0]] + s[1..] == s;
    }
  }

  function PrependAll(p: string, r: Option<string>): Option<string> {
    match r
    case Some(s) => Some(p + s)
    case None => None
  }

  lemma PlainCharDecodes(k: QuotedKind, c: char, rest: string)
    requires PlainChar(k, c)
    ensures DecodeBody(k, [c] + rest) == Prepend(c, DecodeBody(k, rest))
  {
    assert ([c] + rest)[1..] == rest;
  }

  lemma PrependAllCons(c: char, q: string, r: Option<string>)
    ensures Prepend(c, PrependAll(q, r)) == PrependAll([c] + q, r)
  {
    if r.Some? {
      assert [c] + (q + r.value) == ([c] + q) + r.value;
    }
  }

  lemma PrependAllEmpty(r: Option<string>)
    ensures PrependAll([], r) == r
  {
    if r.Some? {
      assert [] + r.value == r.value;
    }
  }

  /** A plain prefix is copied through unchanged. */
  lemma {:induction false} PlainPrefixDecodes(k: QuotedKind, p: string, s: string)
    requires forall i :: 0 <= i < |p| ==> PlainChar(k, p[i])
    ensures DecodeBody(k, p + s) == PrependAll(p, DecodeBody(k, s))
    decreases |p|
  {
    if p == [] {
      assert p + s == s;
      PrependAllEmpty(DecodeBody(k, s));
    } else {
      var rest := p[1..] + s;
      assert p + s == [p[0]] + rest;
      assert [p[0]] + p[1..] == p;
      PlainCharDecodes(k, p[0], rest);
      PlainPrefixDecodes(k, p[1..], s);
      PrependAllCons(p[0], p[1..], DecodeBody(k, s));
    }
  }

  /** A text of plain characters decodes to itself. */
  lemma PlainTextDecodes(k: QuotedKind, s: string)
    requires forall i :: 0 <= i < |s| ==> PlainChar(k, s[i])
    ensures DecodeBody(k, s) == Some(s)
  {
    PlainPrefixDecodes(k, s, []);
    assert s + [] == s;
  }
}
