/**
 * The token vocabulary of the Hust template lexer (src/lexer.rs), the table of
 * special characters it consults, and two views of a token sequence: the
 * template text it stands for (Render) and the shape every lexer output has
 * (WellFormed).
 */
module Tokens {
  import opened Wrappers

  /** The characters the lexer gives a name to (`enum SpecialChar`). */
  datatype SpecialChar =
    | LessThan
    | PercentageSign
    | Equal
    | Hashtag
    | GreaterThan
    | OpenBrace
    | CloseBrace

  /** The character each name stands for. */
  function ToChar(k: SpecialChar): (r: char)
  {
    match k
    case LessThan => '<'
    case PercentageSign => '%'
    case Equal => '='
    case Hashtag => '#'
    case GreaterThan => '>'
    case OpenBrace => '{'
    case CloseBrace => '}'
  }

  /** `SpecialChar::from_char` (and the lexer's `from_char`): the name of `ch`, if it has one. */
  function FromChar(ch: char): (r: Option<SpecialChar>)
    ensures r.Some? ==> ToChar(r.value) == ch
    ensures r.None? ==> forall k :: ToChar(k) != ch
  {
    match ch
    case '{' => Some(OpenBrace)
    case '}' => Some(CloseBrace)
    case '%' => Some(PercentageSign)
    case '=' => Some(Equal)
    case '#' => Some(Hashtag)
    case '<' => Some(LessThan)
    case '>' => Some(GreaterThan)
    case _ => None
  }

  /** `SpecialChar::is_special` (and the lexer's `is_special_char`). */
  function IsSpecial(ch: char): (b: bool)
    ensures b <==> ch in "{}%=#<>"
  {
    FromChar(ch).Some?
  }

  /** Every name is found again from its character. */
  lemma FromCharToChar(k: SpecialChar)
    ensures FromChar(ToChar(k)) == Some(k)
  {
  }

  /** `enum HustToken`. */
  datatype HustToken =
    | Html(text: string)   // literal markup
    | CodeStartSilent      // <%
    | CodeStartString      // <%=
    | CodeComment          // <%#
    | Code(text: string)   // the code up to, and without, %>
    | EOF
  {
    predicate IsCodeStart() {
      CodeStartSilent? || CodeStartString? || CodeComment?
    }
  }

  /** `<%` begins at position i of s. */
  predicate OpensAt(s: string, i: int) {
    0 <= i && i + 1 < |s| && s[i] == '<' && s[i + 1] == '%'
  }

  /** `%>` begins at position i of s. */
  predicate ClosesAt(s: string, i: int) {
    0 <= i && i + 1 < |s| && s[i] == '%' && s[i + 1] == '>'
  }

  predicate NoOpen(s: string) {
    forall i :: 0 <= i < |s| ==> !OpensAt(s, i)
  }

  predicate NoClose(s: string) {
    forall i :: 0 <= i < |s| ==> !ClosesAt(s, i)
  }

  /** The code text begins with one of the characters that select a block kind. */
  predicate StartsWithMarker(s: string) {
    s != [] && (s[0] == '=' || s[0] == '#')
  }

  /** The template text a token was read from. */
  function RenderToken(t: HustToken): (r: string)
  {
    match t
    case Html(h) => h
    case CodeStartSilent => "<%"
    case CodeStartString => "<%="
    case CodeComment => "<%#"
    case Code(c) => c + "%>"
    case EOF => ""
  }

  function Render(ts: seq<HustToken>): (r: string)
  {
    if ts == [] then "" else RenderToken(ts[0]) + Render(ts[1..])
  }

  lemma {:induction false} RenderAppend(a: seq<HustToken>, b: seq<HustToken>)
    ensures Render(a + b) == Render(a) + Render(b)
    decreases |a|
  {
    if a == [] {
      assert a + b == b;
    } else {
      assert (a + b)[1..] == a[1..] + b;
      RenderAppend(a[1..], b);
    }
  }

  /**
   * The shape of every token sequence the lexer returns: literal runs and
   * code blocks, each code start followed by its code, a literal run never
   * followed by another literal run, and EOF once at the end.
   */
  predicate WellFormed(ts: seq<HustToken>)
    decreases |ts|
  {
    if ts == [] then false
    else match ts[0]
      case EOF => |ts| == 1
      case Html(h) =>
        && h != [] && NoOpen(h)
        && |ts| >= 2 && (ts[1].EOF? || ts[1].IsCodeStart())
        && (ts[1].EOF? ==> h != "<")
        && WellFormed(ts[1..])
      case Code(_) => false
      case _ =>
        && |ts| >= 3 && ts[1].Code? && NoClose(ts[1].text)
        && (ts[0].CodeStartSilent? ==> !StartsWithMarker(ts[1].text))
        && WellFormed(ts[2..])
  }
}
