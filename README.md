# const_env engine, modelled in Dafny

`const_env` gives Rust `const` and `static` items values taken from environment
variables when the crate is compiled. The attribute `#[from_env]` (or
`#[from_env("NAME")]`) is placed on an item. At compile time the engine does four
things:

1. It resolves the variable name. The default is the item's own identifier. An
   explicit argument must be a string literal, possibly inside parentheses.
2. It looks the name up. When the variable is unset, the item is emitted
   exactly as written.
3. When the variable is set, it rewrites the initializer from the variable's
   text:
   - A string, byte-string, byte or character initializer is replaced by the
     text put between the matching delimiters (`"…"`, `b"…"`, `b'…'`, `'…'`)
     and parsed again as that kind of literal. Escapes in the text are
     therefore decoded. The new literal keeps the original's span and
     attributes.
   - A unary, boolean, integer, float or verbatim initializer is replaced by
     the text parsed as an expression.
   - Any other initializer is an error.
4. It splices the new initializer into the item. Every other part of the item
   stays as written.

An environment built in memory by successive `set` calls stands in for the
process environment in the engine's tests.

Files:

- `syntax.dfy` (`Syntax`): the slice of the Rust syntax tree the engine reads.
  It covers literals, expressions, `const`/`static` items and the attribute
  arguments.
- `literals.dfy` (`Literals`): how Rust's quoted literals are decoded. It has
  the escapes `\n \r \t \\ \0 \' \"`, `\xHH`, `\u{…}` and the
  string-continuation escape. It also has the encoder `EscapeText`, which the
  decoder inverts.
- `const_env.dfy` (`ConstEnv`): `extract_var_name`, `extract_var_name_from_expr`,
  `value_to_literal` and `from_env`.
- `const_env_properties.dfy` (`ConstEnvProperties`): what the quoting rule means
  for concrete values and for every content.
- `test_env.dfy` (`TestEnvironment`): `TestEnv` and `TestEnvBuilder`.
- `literal_tokenizer.dfy` (`LiteralTokenizer`): the tokenizer's own reading of
  quoted text, for the finding below.
- `wrappers.dfy` (`Wrappers`): `Option` and `Result`.

Each panic of the engine is an `Error` variant, returned as `Err`. The lookup is
a parameter `readEnv: string -> Option<string>`, so it covers the process
environment and `TestEnv` alike. `syn`'s expression parser is a parameter
`parseExpr: string -> Option<Expr>`.

Two behaviours of the code are worth stating plainly:

- `value_to_literal` rejects array and struct initializers
  (`const_env_impl/src/lib.rs:161`), although const_env_tests/src/main.rs:3
  and 66-67 use them. `ValueToLiteral` returns `InitializerNotLiteral` for
  `EArray` and `EStruct`.
- The literal kind is kept only for the four quoted kinds. For unquoted
  originals the result is whatever the text parses to, so `0` with the text
  `-123` becomes a unary expression.

## Model

| member | source | states |
|---|---|---|
| `ConstEnv.ExtractVarNameFromExpr` | const_env_impl/src/lib.rs:94-111 | Succeeds exactly when the expression, with all enclosing parentheses removed, is a string literal, and then yields that literal's decoded value. A non-string literal gives `KeyLiteralNotString`. Any other shape gives `KeyNotStringLiteral`. |
| `ConstEnv.ExtractVarName` | const_env_impl/src/lib.rs:85-92 | Empty attribute arguments yield the item's identifier. Arguments that do not parse as an expression are an error. Otherwise the key is the string literal found inside the parentheses, and there is no key when there is no such literal. |
| `ConstEnv.StripParenthesized` | const_env_impl/src/lib.rs:104-106 | Removing parentheses from an expression wrapped in `n` extra pairs gives the same result as removing them from the bare expression. |
| `ConstEnv.ParenthesizedStringKey` | const_env_impl/src/lib.rs:94-106 | A string literal inside any number of parentheses resolves to its own value. |
| `ConstEnv.ParenthesizedOtherLiteralRejected` | const_env_impl/src/lib.rs:96-101 | A literal of any other kind inside any number of parentheses is rejected as not a string literal. |
| `ConstEnv.MakeLiteral` | const_env_impl/src/lib.rs:127-146 | The literal built from decoded units has the requested kind, the given span, and exactly those units as its contents. |
| `ConstEnv.RequoteValue` | const_env_impl/src/lib.rs:122-147 | Quoting and re-parsing a value succeeds exactly when the value is a valid body for that literal kind. The result is a literal of the same kind, with the given attributes and span, whose contents are the decoded value. A failure is `ValueNotLiteral(kind)`. |
| `ConstEnv.ValueToLiteral` | const_env_impl/src/lib.rs:113-163 | Quoted originals: success exactly when the value decodes as that kind; the result keeps the kind, the attributes and the span, and holds the decoded value. Unary, boolean, integer, float and verbatim originals: the result is what the expression parser makes of the raw value, or `ValueNotExpression`. Every other original: `InitializerNotLiteral`. |
| `ConstEnv.FromEnv` | const_env_impl/src/lib.rs:57-83 | An item that is neither `const` nor `static` is an error. Key errors are reported even when the variable is unset. An unset variable returns the item unchanged. On a hit, a value error is returned as it is; otherwise the item keeps its kind, mutability, attributes, visibility, identifier, type and span, and its initializer becomes the rewritten literal. |
| `ConstEnvProperties.StrPlainValueKept` | const_env_impl/tests/from_env.rs:6-22 | A value without backslash, double quote or carriage return replaces a string initializer by exactly that string, keeping attributes and span. |
| `ConstEnvProperties.ByteStrPlainValueKept` | const_env_impl/tests/from_env.rs:42-58 | A plain ASCII value replaces a byte-string initializer by exactly its bytes. |
| `ConstEnvProperties.CharTakesOneChar` | const_env_impl/tests/from_env.rs:150-166 | With plain characters, a character initializer is replaced when the value is exactly one character. Zero or two or more characters are `ValueNotLiteral(CharKind)`. |
| `ConstEnvProperties.ByteTakesOneByte` | const_env_impl/tests/from_env.rs:168-184 | With plain ASCII characters, a byte initializer is replaced when the value is exactly one character. Any other length is an error. |
| `ConstEnvProperties.StrEscapeDecoded` | const_env_impl/tests/from_env.rs:24-40 | The value `world\tfoo`, with a backslash, becomes the string `world<TAB>foo`. |
| `ConstEnvProperties.ByteEscapeDecoded` | const_env_impl/tests/from_env.rs:186-202 | The value `\n`, with a backslash, replacing `b'\t'` becomes the byte 10. |
| `ConstEnvProperties.EveryStringReachable` | const_env_impl/src/lib.rs:124-128 | For every string `s`, the value `EscapeText(StrKind, s)` replaces a string initializer by exactly `s`. |
| `ConstEnvProperties.EveryByteStringReachable` | const_env_impl/src/lib.rs:130-134 | For every byte sequence, its escaped text replaces a byte-string initializer by exactly those bytes. |
| `ConstEnvProperties.EveryCharReachable` | const_env_impl/src/lib.rs:142-146 | For every character, its escaped text replaces a character initializer by exactly that character. |
| `ConstEnvProperties.EveryByteReachable` | const_env_impl/src/lib.rs:136-140 | For every byte, its escaped text replaces a byte initializer by exactly that byte. |
| `Literals.DecodeBody` | const_env_impl/src/lib.rs:122-147 | Byte-kind bodies decode to units below 0x100, one per byte. |
| `Literals.DecodeLiteral` | const_env_impl/src/lib.rs:136-147 | Byte and character literals decode to exactly one unit. Byte kinds decode to bytes. A success agrees with the body decoding. |
| `Literals.ParseLiteral` | const_env_impl/src/lib.rs:125-126 | A parsed byte or character literal holds exactly one unit, and byte kinds hold bytes. |
| `Literals.QuotingRule` | const_env_impl/src/lib.rs:125-143 | Parsing `Opening(k) + v + delimiter` gives exactly the decoding of `v` as a literal body. These are the texts `"v"`, `b"v"`, `b'v'` and `'v'`. |
| `Literals.EscapeAt` | const_env_impl/tests/from_env.rs:186-202 | An escape consumes at least one character and no more than are present. In byte kinds it stands for a byte. |
| `Literals.UnicodeEscape` | const_env_impl/src/lib.rs:125-126 | A `\u{…}` escape occupies its braces and one to six digits (three to eight characters), and no more than are present. |
| `Literals.EscapeCharDecodes` | const_env_impl/src/lib.rs:125-126 | The escaped form of one representable character, followed by any text, decodes to that character followed by the decoding of the text. |
| `Literals.EscapeTextDecodes` | const_env_impl/tests/from_env.rs:24-40 | For every kind and every representable text, decoding its escaped form gives the text back. |
| `Literals.PlainPrefixDecodes` | const_env_impl/tests/from_env.rs:6-22 | A prefix of plain characters is copied unchanged in front of the decoding of the rest. |
| `Literals.PlainTextDecodes` | const_env_impl/tests/from_env.rs:6-22 | A text made only of plain characters decodes to itself. |
| `TestEnvironment.TestEnv.ReadEnv` | const_env_impl/src/lib.rs:33-37 | A lookup finds a value exactly when the name is in the map, and then returns the stored value. |
| `TestEnvironment.TestEnvBuilder.constructor` | const_env_impl/src/lib.rs:26-30 | A new builder holds no variables. |
| `TestEnvironment.TestEnvBuilder.Set` | const_env_impl/src/lib.rs:44-47 | The map afterwards is the old map with `name` bound to `value` (a later set replaces an earlier one). |
| `TestEnvironment.TestEnvBuilder.Build` | const_env_impl/src/lib.rs:49-53 | The built environment holds exactly the builder's map. |
| `TestEnvironment.BuildFrom` | const_env_impl/src/lib.rs:26-53 | A fresh builder given each `set` of a sequence in order, then built, holds exactly the map of those successive inserts, so the two lemmas below hold of the builder's own methods. |
| `TestEnvironment.ReadEnvReturnsLastSet` | const_env_impl/src/lib.rs:33-53 | After any sequence of sets, looking up a name returns the value of the last set of that name. |
| `TestEnvironment.ReadEnvMissesUnsetName` | const_env_impl/src/lib.rs:33-37 | After any sequence of sets, a name that was never set is not found. |
| `LiteralTokenizer.TokenizerTruncatesValue` | const_env_impl/src/lib.rs:125-126 | The tokenizer reads the quoted value `abc" //` as the string `abc`. |
| `LiteralTokenizer.UnescapedQuoteRejected` | const_env_impl/src/lib.rs:125-126 | The value `abc" //` is not a valid string body, so the quoting rule gives no literal. |
| `LiteralTokenizer.CommentTruncatesValue` | const_env_impl/src/lib.rs:125-126 | For the value `abc" //`, the tokenizer's reading and the quoting rule disagree. |

## Findings

| source | as written | input that shows it | evidently intended | confidence | as-written member | corrected member |
|---|---|---|---|---|---|---|
| const_env_impl/src/lib.rs:125 | The value is put between `"` without any check. A `"` in the value closes the literal early, and a following `//` comments out the closing quote. | The variable set to `abc" //` on a `&str` item | The value is the body of the literal: an unescaped `"` is an error, as a value holding `"` without `//` already is | medium; not executed | `LiteralTokenizer.TokenizerTruncatesValue` | `Literals.QuotingRule` (with `LiteralTokenizer.UnescapedQuoteRejected`) |

The same happens for the byte-string, byte and character branches
(lib.rs:131, 137, 143) with their own delimiters. The rest of the model uses the
corrected reading: `ValueToLiteral` parses through `ParseLiteral`.

## Left out

- `RealEnv` (const_env_impl/src/lib.rs:12-19), `StableEnv` and `TrackedEnv` read the process environment. They are I/O; `FromEnv` is parametric over the lookup.
- `env_lit` is called from const_env/src/lib.rs:26, but its implementation is not part of this model. The `env_item` entry point (const_env/src/lib.rs:11-18) is glue that only calls `from_env`.
- `syn::parse_str::<Expr>` is the parameter `parseExpr`. Its tolerance, such as the text ` - 123 ` parsing as `-123`, belongs to the parser and is not modelled.
- The token streams of the item and the attribute are represented by what `syn` parses them into (`Item`, `AttrArgs`). Trying `const` before `static` cannot be observed, because a token stream parses as at most one of them.
- `quote_spanned!` output spans and token printing are not modelled. The hit path returns the rewritten item value, and the miss path returns the input item itself.
- Panic message texts are represented by `Error` variants.
- Literals.ParseLiteral: reads only text that begins with the opening delimiter and ends with the closing one. Comments and surrounding whitespace are not modelled (see Findings). Underscores inside `\u{…}`, literal suffixes and the precise handling of raw control characters by the compiler's lexer are left out too; every carriage return is rejected, including CR LF, which the lexer accepts as a newline in string and byte-string literals; a raw tab or newline is rejected in byte and character literals.
- Arrays and struct expressions are rejected by the code shown. The fixtures that use them (const_env_tests/src/main.rs) rely on behaviour outside this engine.
- Test, build and compile-test scaffolding is not modelled.
