/**
 * A simplified model of Rust's `{:?}` formatting of a string, the quoting
 * the generator uses to turn literal markup into a Rust string literal: the
 * text between double quotes, with backslash, double quote, newline,
 * carriage return and tab escaped. Unescape is its inverse.
 */
module Debug {
  import opened Wrappers

  /** The escape sequence for one character. */
  function EscapeChar(c: char): (r: string)
    ensures r == [c] <==> c !in "\\\"\n\r\t"
    ensures r != [c] ==> |r| == 2 && r[0] == '\\'
  {
    if c == '\\' then "\\\\"
    else if c == '"' then "\\\""
    else if c == '\n' then "\\n"
    else if c == '\r' then "\\r"
    else if c == '\t' then "\\t"
    else [c]
  }

  function Escape(s: string): (r: string)
  {
    if s == [] then [] else EscapeChar(s[0]) + Escape(s[1..])
  }

  /** `format!("{:?}", s)`. */
  function Quote(s: string): (r: string)
  {
    "\"" + Escape(s) + "\""
  }

  /** The character an escape sequence `\e` stands for. */
  function UnescapeChar(e: char): (r: Option<char>)
  {
    match e
    case '\\' => Some('\\')
    case '"' => Some('"')
    case 'n' => Some('\n')
    case 'r' => Some('\r')
    case 't' => Some('\t')
    case _ => None
  }

  /** Reads the escaped text between the quotes; None when it is not what Escape writes. */
  function Unescape(t: string): (r: Option<string>)
    decreases |t|
  {
    if t == [] then Some([])
    else if t[0] == '\\' then
      if |t| < 2 then None
      else match (UnescapeChar(t[1]), Unescape(t[2..]))
        case (Some(c), Some(rest)) => Some([c] + rest)
        case _ => None
    else if t[0] == '"' then None
    else match Unescape(t[1..])
      case Some(rest) => Some([t[0]] + rest)
      case None => None
  }

  /** Reads a quoted string literal back. */
  function Unquote(t: string): (r: Option<string>)
  {
    if |t| >= 2 && t[0] == '"' && t[|t| - 1] == '"' then Unescape(t[1..|t| - 1]) else None
  }

  /** Unescape undoes Escape. */
  lemma {:induction false} UnescapeEscape(s: string)
    ensures Unescape(Escape(s)) == Some(s)
    decreases |s|
  {
    if s != [] {
      var e := EscapeChar(s[0]);
      var t := e + Escape(s[1..]);
      UnescapeEscape(s[1..]);
      if |e| == 2 {
        assert t[2..] == Escape(s[1..]);
      } else {
        assert t[1..] == Escape(s[1..]);
      }
      assert s == [s[0]] + s[1..];
    }
  }

  /** Quoting loses nothing: the quoted literal reads back as the original text. */
  lemma UnquoteQuote(s: string)
    ensures Unquote(Quote(s)) == Some(s)
  {
    var q := Quote(s);
    assert q[1..|q| - 1] == Escape(s);
    UnescapeEscape(s);
  }

  /** The escaped text holds no line break, so a quoted literal stays on one line. */
  lemma {:induction false} EscapeOneLine(s: string)
    ensures '\n' !in Escape(s) && '\r' !in Escape(s)
    decreases |s|
  {
    if s != [] {
      EscapeOneLine(s[1..]);
    }
  }

  /** Quote is injective: different texts give different literals. */
  lemma QuoteInjective(a: string, b: string)
    requires Quote(a) == Quote(b)
    ensures a == b
  {
    UnquoteQuote(a);
    UnquoteQuote(b);
  }
}
