/**
 * How the host tokenizer actually reads the quoted text the engine builds:
 * the literal ends at the first delimiter not preceded by a backslash, and
 * what follows may be whitespace and a line comment, both of which the
 * tokenizer drops. An environment value holding an unescaped delimiter
 * followed by `//` is therefore cut short without an error.
 */
module LiteralTokenizer {
  import opened Wrappers
  import opened Literals

  /** The index in `s` of the delimiter that closes the literal, skipping escaped characters. */
  function ClosingAt(k: QuotedKind, s: string): (r: Option<nat>)
    ensures r.Some? ==> r.value < |s| && s[r.value] == Delimiter(k)
    decreases |s|
  {
    if s == [] then None
    else if s[0] == '\\' then
      if |s| >= 2 then
        match ClosingAt(k, s[2..])
        case Some(j) => Some(j + 2)
        case None => None
      else None
    else if s[0] == Delimiter(k) then Some(0)
    else
      match ClosingAt(k, s[1..])
      case Some(j) => Some(j + 1)
      case None => None
  }

  predicate IsWhitespace(c: char) {
    c == ' ' || c == '\t' || c == '\n' || c == '\r'
  }

  /** The body of a `//` comment that is not a doc comment and does not end the line. */
  predicate PlainLineComment(c: string) {
    && (forall i :: 0 <= i < |c| ==> c[i] != '\n' && c[i] != '\r')
    && (c == [] || (c[0] != '/' && c[0] != '!') || (|c| >= 2 && c[0] == '/' && c[1] == '/'))
  }

  /** Text the tokenizer drops after the literal: whitespace, then optionally one line comment. */
  predicate IgnoredTail(t: string)
    decreases |t|
  {
    || t == []
    || (IsWhitespace(t[0]) && IgnoredTail(t[1..]))
    || (|t| >= 2 && t[..2] == "//" && PlainLineComment(t[2..]))
  }

  /** `syn::parse_str` of one literal of kind `k`, as the tokenizer reads `text`. */
  function ParseLiteralAsTokenized(k: QuotedKind, text: string): (r: Option<string>)
    ensures r.Some? && IsSingle(k) ==> |r.value| == 1
  {
    var open := Opening(k);
    if |text| >= |open| && text[..|open|] == open then
      var rest := text[|open|..];
      match ClosingAt(k, rest)
      case Some(j) => if IgnoredTail(rest[j + 1..]) then DecodeLiteral(k, rest[..j]) else None
      case None => None
    else None
  }

  lemma ClosingOfTruncated()
    ensures ClosingAt(StrKind, "abc\" //\"") == Some(3)
  {
    var rest := "abc\" //\"";
    assert ClosingAt(StrKind, rest[3..]) == Some(0);
    assert rest[2..][1..] == rest[3..] && rest[1..][1..] == rest[2..];
    assert ClosingAt(StrKind, rest[2..]) == Some(1);
    assert ClosingAt(StrKind, rest[1..]) == Some(2);
  }

  lemma CommentTailIgnored()
    ensures IgnoredTail(" //\"")
  {
    var t := " //\"";
    assert t[1..][..2] == "//" && t[1..][2..] == "\"";
    assert PlainLineComment("\"");
  }

  /** The tokenizer reads the value `abc" //`, quoted as a string, as the string `abc`. */
  lemma TokenizerTruncatesValue()
    ensures ParseLiteralAsTokenized(StrKind, "\"" + "abc\" //" + "\"") == Some("abc")
  {
    var text := "\"" + "abc\" //" + "\"";
    var rest := text[1..];
    assert text[..1] == Opening(StrKind);
    assert rest == "abc\" //\"";
    ClosingOfTruncated();
    assert rest[4..] == " //\"";
    CommentTailIgnored();
    assert rest[..3] == "abc";
    PlainTextDecodes(StrKind, "abc");
  }

  /** The same value is not a valid string body, so the quoting rule rejects it. */
  lemma UnescapedQuoteRejected()
    ensures DecodeLiteral(StrKind, "abc\" //") == None
    ensures ParseLiteral(StrKind, "\"" + "abc\" //" + "\"") == None
  {
    var value := "abc\" //";
    assert value == "abc" + value[3..] && value[3] == '"';
    assert DecodeBody(StrKind, value[3..]) == None;
    PlainPrefixDecodes(StrKind, "abc", value[3..]);
    QuotingRule(StrKind, value);
  }

  /**
   * An environment value with an unescaped `"` followed by `//` yields a
   * shortened string where the quoting rule calls for an error.
   */
  lemma CommentTruncatesValue()
    ensures ParseLiteralAsTokenized(StrKind, "\"" + "abc\" //" + "\"") == Some("abc")
    ensures ParseLiteral(StrKind, "\"" + "abc\" //" + "\"") == None
  {
    TokenizerTruncatesValue();
    UnescapedQuoteRejected();
  }
}
