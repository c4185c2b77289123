/**
 * The Hust code generator (`parse` in src/parser.rs): lexes the template and
 * walks its tokens once, remembering the token before the current one, and
 * appends one fragment of Rust source per token to a buffer that starts with
 * a fixed header.
 */
module Parser {
  import opened Wrappers
  import opened Tokens
  import opened Lexer
  import opened Debug

  /** The line the buffer starts with. */
  const Header: string := "let mut output_buffer = String::new();\n"

  /** The name of the buffer the generated code fills, its value after the last statement. */
  const Accumulator: string := "output_buffer"

  /** Every occurrence of the character pattern in s replaced by replacement (`str::replace`). */
  function Replace(s: string, pattern: char, replacement: string): (r: string)
  {
    if s == [] then []
    else (if s[0] == pattern then replacement else [s[0]]) + Replace(s[1..], pattern, replacement)
  }

  /** `escape_html`: replaces each `"` with `"`. */
  function EscapeHtml(html: string): (r: string)
  {
    Replace(html, '"', "\"")
  }

  /** `format!("output_buffer.push_str({});\n", arg)`. */
  function PushStr(arg: string): (r: string)
  {
    "output_buffer.push_str(" + arg + ");\n"
  }

  /** The fragment `parse` appends for token, given the token before it (None at the first position). */
  function Fragment(previous: Option<HustToken>, token: HustToken): (r: string)
  {
    match token
    case Html(h) => PushStr(Quote(EscapeHtml(h)))
    case CodeStartSilent => ""
    case CodeStartString => ""
    case CodeComment => ""
    case Code(c) =>
      (match previous
       case None => ""
       case Some(CodeStartString) => PushStr(c)
       case Some(CodeStartSilent) => c + "\n"
       case Some(CodeComment) => ""
       case Some(_) => c + "\n")
    case EOF => Accumulator
  }

  /** The fragments of tokens, in order, the first of them following previous. */
  function Emit(tokens: seq<HustToken>, previous: Option<HustToken>): (r: string)
    decreases |tokens|
  {
    if tokens == [] then ""
    else Fragment(previous, tokens[0]) + Emit(tokens[1..], Some(tokens[0]))
  }

  /** The buffer `parse` builds from tokens. */
  function Generated(tokens: seq<HustToken>): (r: string)
  {
    Header + Emit(tokens, None)
  }

  /** One pass of the `for` loop of `parse` keeps the buffer and the rest of the walk equal to the whole. */
  lemma EmitStep(tokens: seq<HustToken>, k: nat, previous: Option<HustToken>, buffer: string, fragment: string)
    requires k < |tokens|
    requires buffer + Emit(tokens[k..], previous) == Generated(tokens)
    requires fragment == Fragment(previous, tokens[k])
    ensures (buffer + fragment) + Emit(tokens[k + 1..], Some(tokens[k])) == Generated(tokens)
  {
    assert tokens[k..][1..] == tokens[k + 1..];
    AppendAssoc(buffer, fragment, Emit(tokens[k + 1..], Some(tokens[k])));
  }

  /**
   * `parse`: lexes content and generates the buffer. The syntax check of the
   * buffer only reports on the console, so the buffer is returned whatever it finds.
   */
  method Parse(content: string) returns (outputBuffer: string)
    ensures outputBuffer == Generated(Lexed(content))
    ensures Header <= outputBuffer
  {
    var tokens := Lex(content);
    outputBuffer := "let mut output_buffer = String::new();\n";
    var previousToken: Option<HustToken>;
    var thisToken: Option<HustToken> := None;
    for k := 0 to |tokens|
      invariant thisToken == if k == 0 then None else Some(tokens[k - 1])
      invariant outputBuffer + Emit(tokens[k..], thisToken) == Generated(tokens)
    {
      var token := tokens[k];
      previousToken := thisToken;
      thisToken := Some(token);
      ghost var before := outputBuffer;
      match token {
        case Html(htmlContent) =>
          var escapedHtml := EscapeHtml(htmlContent);
          outputBuffer := outputBuffer + ("output_buffer.push_str(" + Quote(escapedHtml) + ");\n");
        case CodeStartSilent =>
        case CodeStartString =>
        case CodeComment =>
        case Code(rustCode) =>
          match previousToken {
            case Some(CodeStartString) =>
              outputBuffer := outputBuffer + ("output_buffer.push_str(" + rustCode + ");\n");
            case Some(CodeStartSilent) =>
              outputBuffer := outputBuffer + (rustCode + "\n");
            case Some(CodeComment) =>
            case Some(_) =>
              // a Code token never follows anything but a start token
              outputBuffer := outputBuffer + (rustCode + "\n");
            case None =>
          }
        case EOF =>
          outputBuffer := outputBuffer + "output_buffer";
      }
      assert outputBuffer == before + Fragment(previousToken, token);
      EmitStep(tokens, k, previousToken, before, Fragment(previousToken, token));
    }
    assert tokens[|tokens|..] == [];
  }
}
