# Hust template compiler, modelled in Dafny

Hust turns an HTML template with embedded Rust into Rust source code. It works in two stages.

- **The lexer** (`src/lexer.rs`) scans the template once, from left to right. It splits the text into tokens:
  - literal runs, `Html(text)`;
  - code blocks, each a start token followed by its code. The start token is `CodeStartSilent` for `<%`, `CodeStartString` for `<%=` and `CodeComment` for `<%#`. The code, `Code(text)`, runs up to the closing `%>`.
  - a final `EOF`.
- **The generator** (`parse` in `src/parser.rs`) lexes the template and then walks the tokens once, remembering the token before the current one. It starts from the header line `let mut output_buffer = String::new();`. For each token it appends one fragment of Rust source. A literal run becomes `output_buffer.push_str("...");`. An expression block becomes `output_buffer.push_str(code);`. A silent block becomes its code on a line of its own. A comment block becomes nothing. `EOF` becomes the final expression `output_buffer`.

Modules:

- `Wrappers`: `Option`.
- `Tokens`: the `SpecialChar` table, `HustToken`, the text a token sequence stands for (`Render`), and the grammar every lexer output obeys (`WellFormed`).
- `Lexer`: the lexer as spec functions, and as methods proved against them. The spec functions work on absolute positions:
  - `Next` is one pass of the lexer's `while let` loop;
  - `Scan` repeats `Next` to the end of the text;
  - `Lexed` is `Scan` followed by `EOF`.
  
  The methods `CollectCode`, `CollectHtml`, `LexPass` and `Lex` keep the source's loops, with the peekable iterator modelled as an index.
- `LexerProofs`: the token invariants, the conditional round trip, the converse round trip, the edge cases, and the source's unit tests.
- `Debug`: a simplified model of Rust's `{:?}` string quoting, with its inverse.
- `Parser`: the fragment of each token (`Fragment`), the walk over the tokens (`Emit`, `Generated`), and the `for` loop of `parse` proved against them.
- `ParserProofs`: what the generated code says. This includes the header and the trailer, the identity of `escape_html`, and a block-by-block reading of the output for every template.

The model keeps the code's quirks:

- A `<` that is the last character, at a point where a new token would begin, is dropped. Nothing is pushed for it.
- A block with no `%>` takes the rest of the text as its code.
- `escape_html` replaces `"` with `"`, so it changes nothing.
- A `Code` token with no token before it contributes nothing.

`Lexer.LossOf` says which of these losses, if any, a scan suffers. `LexerProofs.RoundTrip` says the tokens render back to the template exactly when there is none.

## Model

| member | source | states |
|---|---|---|
| Tokens.FromChar | src/lexer.rs:17-28 | the name found for a character stands for that character; no name is found for any other character |
| Tokens.IsSpecial | src/lexer.rs:29-31 | a character is special exactly when it is one of `{ } % = # < >` |
| Tokens.FromCharToChar | src/lexer.rs:1-9 | every `SpecialChar` is found again from its own character |
| Lexer.FindOpenFrom | src/lexer.rs:111-117 | the position where `collect_html` stops is the first `<%` at or after the start, or the end of the text |
| Lexer.FindCloseFrom | src/lexer.rs:98-102 | the position where `collect_code` stops is the first `%>` at or after the start, or the end of the text |
| Lexer.CollectCode | src/lexer.rs:96-106 | the code token is the text up to the first `%>`; the cursor ends just past the `%>`, or at the end of the text when there is none |
| Lexer.CollectHtml | src/lexer.rs:108-121 | the literal token is the first character followed by the text up to the first `<%`, which is not consumed; the cursor ends at that `<%` |
| Lexer.ReadMarker | src/lexer.rs:60-70 | the marker read after `<%` yields a start token whose text is `<%` followed by exactly the characters it consumed, which are at most one; after a silent start the remaining text does not begin with `=` or `#` |
| Lexer.OpeningIs | src/lexer.rs:60-70 | those properties determine the start token and the cursor: they are the `=`, `#` or silent choice the lexer makes |
| Lexer.LexPass | src/lexer.rs:52-82 | one pass of the loop pushes exactly the tokens of the spec step and leaves the cursor where the spec says, including the pass that drops a final `<` and pushes nothing |
| Lexer.Lex | src/lexer.rs:48-86 | the lexer returns the scan of the whole template followed by one EOF |
| LexerProofs.LexedWellFormed | src/lexer.rs:48-121 | every lexer output obeys the token grammar |
| LexerProofs.WellFormedEndsWithEOF | src/lexer.rs:84 | a well-formed sequence ends with EOF, and EOF occurs nowhere else |
| LexerProofs.WellFormedBlocks | src/lexer.rs:55-71 | each start token is followed by a Code token; each Code token follows a start token, so the first token is never Code; the code after a silent start never begins with `=` or `#` |
| LexerProofs.WellFormedTexts | src/lexer.rs:96-121 | every literal text is non-empty and holds no `<%`; every code text holds no `%>` |
| LexerProofs.LexedInvariants | src/lexer.rs:48-121 | all of the token invariants above, for the output of the lexer on any template |
| LexerProofs.RoundTrip | src/lexer.rs:48-121 | rendering the tokens gives back the template exactly when the scan loses nothing; an unclosed block comes back with `%>` added; a dropped final `<` comes back missing |
| LexerProofs.LexRender | src/lexer.rs:48-121 | lexing the rendering of any well-formed token sequence gives back that sequence |
| LexerProofs.LexRenderLexed | src/lexer.rs:48-121 | lexing the rendered tokens of any template gives the same tokens again |
| LexerProofs.LexedEmpty | src/lexer.rs:52-56 | the output is `[EOF]` exactly when the template is empty or is the single character `<` |
| LexerProofs.LexedHtmlOnly | src/lexer.rs:48-86 | the output is a single literal run and EOF exactly when the template is non-empty, is not `<`, and holds no `<%` |
| LexerProofs.Unterminated | src/lexer.rs:96-106 | a block with no `%>` takes the whole rest of the text as its code, and the scan reports it as unclosed |
| LexerProofs.ClosedBlock | src/lexer.rs:55-71 | a closed block on its own lexes to its start token, its code and EOF |
| LexerProofs.LexedOpening | src/lexer.rs:58-71 | a template that begins with `<%` lexes to the start token the marker selects, then the code up to the first `%>` |
| LexerProofs.OpeningClassification | src/lexer.rs:58-70 | `<%=` begins an expression block and `<%#` a comment block, the marker not being part of the code; any other character begins a silent block whose code starts right after `<%` |
| LexerProofs.TrailingLessThan | src/lexer.rs:55-76 | a final `<` where a new token would begin pushes nothing, and the scan reports it as dropped |
| LexerProofs.ExampleLoneLessThan | src/lexer.rs:55-76 | the template `<` lexes to `[EOF]` |
| LexerProofs.ExampleDroppedAfterBlock | src/lexer.rs:55-76 | the template `<%a%><` lexes to `[CodeStartSilent, Code("a"), EOF]`, so its final `<` is lost in the rendering |
| LexerProofs.ExampleUnterminated | src/lexer.rs:98-105 | the template `<% x` lexes to `[CodeStartSilent, Code(" x"), EOF]` |
| LexerProofs.ExampleHtmlOnly | src/lexer.rs:129-134 | the literal-only test template lexes to one literal run and EOF |
| LexerProofs.ExampleSilentBlock | src/lexer.rs:136-141 | the silent-block test template lexes as the test expects |
| LexerProofs.ExampleStringBlock | src/lexer.rs:143-148 | the expression-block test template lexes as the test expects |
| LexerProofs.ExampleCommentBlock | src/lexer.rs:150-155 | the comment-block test template lexes as the test expects |
| LexerProofs.HtmlBlockHtml | src/lexer.rs:48-121 | a block between two literal runs lexes to those five tokens |
| LexerProofs.ExampleMixed | src/lexer.rs:157-171 | the mixed-content test template lexes as the test expects |
| Debug.EscapeChar | src/parser.rs:17 | a character is left as it is unless it is a backslash, a double quote, a newline, a carriage return or a tab; those become a two-character escape beginning with a backslash |
| Debug.UnquoteQuote | src/parser.rs:17 | the quoted literal reads back as the original text |
| Debug.EscapeOneLine | src/parser.rs:17 | the quoted literal holds no line break |
| Debug.QuoteInjective | src/parser.rs:17 | different literal texts give different quoted literals |
| Parser.Parse | src/parser.rs:5-57 | the `for` loop, with the per-token match inline, builds the header followed by the fragment of each lexed token in order, each fragment computed from that token and the one before it; the buffer begins with the header |
| ParserProofs.EmitAppend | src/parser.rs:11-47 | the walk over two token sequences in a row is the walk over the first, then the walk over the second remembering the last token of the first |
| ParserProofs.EscapeHtmlIdentity | src/parser.rs:59-61 | `escape_html` returns its input unchanged |
| ParserProofs.HtmlFragment | src/parser.rs:15-18 | a literal run h contributes `output_buffer.push_str(` + the quoted h + `);`, whatever came before it, and the quoted text reads back as h |
| ParserProofs.ParseShape | src/parser.rs:7-45 | the buffer is the header, then the fragments of the scanned tokens, then `output_buffer`, so it begins with the header and ends with `output_buffer` |
| ParserProofs.ParseEmpty | src/parser.rs:7-45 | the buffer for the empty template is the header followed by `output_buffer` |
| ParserProofs.EmitReference | src/parser.rs:11-47 | on a well-formed sequence, the walk gives the block-by-block reading whatever token it starts after |
| ParserProofs.ParseReference | src/parser.rs:5-57 | for every template, the buffer is the header followed by the block-by-block reading of the lexer's tokens: literal runs are pushed quoted, expression code is pushed, silent code runs as a statement, comments vanish, and the value is `output_buffer` |
| ParserProofs.ParseHtmlOnly | src/parser.rs:15-18 | a template without `<%`, other than `<`, becomes one push of the quoted template |
| ParserProofs.ParseExpression | src/parser.rs:28-30 | an expression block becomes a push of its code |
| ParserProofs.ParseSilent | src/parser.rs:31-33 | a silent block becomes its code on a line of its own |
| ParserProofs.ParseComment | src/parser.rs:34-36 | a comment block contributes nothing |
| ParserProofs.ParseUnclosedExpression | src/parser.rs:28-30 | an unclosed expression block pushes the whole rest of the template as code |
| ParserProofs.CodeFragments | src/parser.rs:23-41 | a Code token with no token before it contributes nothing; after a token that is not a start token it becomes a statement line |
| ParserProofs.ParseHtmlExpressionHtml | src/parser.rs:11-47 | an expression block between two literal runs becomes three pushes, in order, then `output_buffer` |
| ParserProofs.ExampleMixedGenerated | src/parser.rs:5-57 | the code generated for the mixed-content template of the lexer tests |

## Left out

- The `syn::parse_str` check of the buffer and the `println!` that reports its errors (src/parser.rs:49-55) are left out. They call a foreign library and write to the console. The buffer is returned whatever the check finds, so `Parser.Parse` returns the buffer unchanged.
- Debug.Quote: this is not all of Rust's `{:?}` formatting. It escapes only backslash, double quote, newline, carriage return and tab. Rust also escapes `\0` and other control characters, and writes `\u{...}` for some non-printable and grapheme-extending characters. That is library behaviour.
- `preprocess_and_generate_rust_code` in src/lib.rs is not part of this model. It hands the generated text to `proc_macro2` token parsing, which is foreign.
- The `Peekable` iterator and its `clone().nth(1)` lookahead are replaced by an index into the template, with explicit bounds checks.
- Lexer.LexPass: the two pushes after `<%` (the start token, then the code) are modelled as one append of both tokens. The resulting vector is the same.
- There are no error types: no code produces an error, so the model has none. An unclosed block and a dropped `<` are reported only by the spec function `Lexer.LossOf`.
- The `where Self: Sized` trait `TokenAction` (src/lexer.rs:11-14) is modelled as plain functions. The wrappers `is_special_char` and `from_char` (src/lexer.rs:88-94) are the same functions.
