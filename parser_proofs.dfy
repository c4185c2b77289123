/**
 * What the Hust generator promises: the header, the fragment each token
 * contributes, the final `output_buffer`, the identity of `escape_html`, and
 * a block-by-block reading of the generated code for every lexer output.
 */
module ParserProofs {
  import opened Wrappers
  import opened Tokens
  import opened Lexer
  import opened LexerProofs
  import opened Debug
  import opened Parser

  /** The token a walk over tokens remembers at its end, starting from previous. */
  function LastOr(tokens: seq<HustToken>, previous: Option<HustToken>): (r: Option<HustToken>)
  {
    if tokens == [] then previous else Some(tokens[|tokens| - 1])
  }

  /** Generating from a concatenation is generating from each part, the second remembering the end of the first. */
  lemma {:induction false} EmitAppend(a: seq<HustToken>, b: seq<HustToken>, previous: Option<HustToken>)
    ensures Emit(a + b, previous) == Emit(a, previous) + Emit(b, LastOr(a, previous))
    decreases |a|
  {
    if a == [] {
      assert a + b == b;
    } else {
      var f := Fragment(previous, a[0]);
      assert (a + b)[0] == a[0] && (a + b)[1..] == a[1..] + b;
      assert Emit(a + b, previous) == f + Emit(a[1..] + b, Some(a[0]));
      EmitAppend(a[1..], b, Some(a[0]));
      assert LastOr(a[1..], Some(a[0])) == LastOr(a, previous);
      AppendAssoc(f, Emit(a[1..], Some(a[0])), Emit(b, LastOr(a, previous)));
    }
  }

  /** Replacing a character by itself changes nothing. */
  lemma {:induction false} ReplaceSelf(s: string, c: char)
    ensures Replace(s, c, [c]) == s
    decreases |s|
  {
    if s != [] {
      ReplaceSelf(s[1..], c);
      assert s == [s[0]] + s[1..];
    }
  }

  /** `escape_html` returns its input unchanged. */
  lemma EscapeHtmlIdentity(html: string)
    ensures EscapeHtml(html) == html
  {
    ReplaceSelf(html, '"');
  }

  /**
   * A literal run h contributes a statement pushing the quoted h, whatever
   * came before it; the quoted literal reads back as h.
   */
  lemma HtmlFragment(previous: Option<HustToken>, h: string)
    ensures Fragment(previous, Html(h)) == PushStr(Quote(h))
    ensures Unquote(Quote(EscapeHtml(h))) == Some(h)
  {
    EscapeHtmlIdentity(h);
    UnquoteQuote(h);
  }

  /** The generated buffer always begins with the header and ends with `output_buffer`. */
  lemma ParseShape(s: string)
    ensures Generated(Lexed(s)) == Header + Emit(Scan(s, 0), None) + Accumulator
    ensures Header <= Generated(Lexed(s))
    ensures |Generated(Lexed(s))| >= |Accumulator|
    ensures Generated(Lexed(s))[|Generated(Lexed(s))| - |Accumulator|..] == Accumulator
  {
    var ts := Scan(s, 0);
    EmitAppend(ts, [EOF], None);
    assert Emit([EOF], LastOr(ts, None)) == Accumulator + Emit([], Some(EOF));
    AppendAssoc(Header, Emit(ts, None), Accumulator);
  }

  lemma ParseEmpty()
    ensures Generated(Lexed("")) == Header + Accumulator
  {
    ParseShape("");
  }

  /** What the generated code says for a well-formed token sequence, block by block. */
  function Reference(ts: seq<HustToken>): (r: string)
    requires WellFormed(ts)
    decreases |ts|
  {
    match ts[0]
    case EOF => Accumulator
    case Html(h) => PushStr(Quote(h)) + Reference(ts[1..])
    case CodeStartString => PushStr(ts[1].text) + Reference(ts[2..])
    case CodeStartSilent => ts[1].text + "\n" + Reference(ts[2..])
    case CodeComment => Reference(ts[2..])
    case Code(_) => assert false; ""
  }

  /** The walk over a code start and its code. */
  lemma EmitBlock(ts: seq<HustToken>, previous: Option<HustToken>)
    requires |ts| >= 2 && ts[0].IsCodeStart()
    ensures Emit(ts, previous) == Fragment(Some(ts[0]), ts[1]) + Emit(ts[2..], Some(ts[1]))
  {
    assert ts[1..][1..] == ts[2..];
  }

  /** The reading of a well-formed sequence that begins with a code block. */
  lemma ReferenceBlock(ts: seq<HustToken>)
    requires WellFormed(ts) && ts[0].IsCodeStart()
    ensures Reference(ts) == Fragment(Some(ts[0]), ts[1]) + Reference(ts[2..])
  {
  }

  /**
   * On a well-formed sequence the walk with a remembered previous token
   * generates the block-by-block reading, whatever token it starts after:
   * an expression block pushes its code, a silent block runs it, and a
   * comment block contributes nothing.
   */
  lemma {:induction false} EmitReference(ts: seq<HustToken>, previous: Option<HustToken>)
    requires WellFormed(ts)
    ensures Emit(ts, previous) == Reference(ts)
    decreases |ts|
  {
    if ts[0].EOF? {
      assert ts[1..] == [];
    } else if ts[0].Html? {
      HtmlFragment(previous, ts[0].text);
      EmitReference(ts[1..], Some(ts[0]));
    } else {
      EmitBlock(ts, previous);
      ReferenceBlock(ts);
      EmitReference(ts[2..], Some(ts[1]));
    }
  }

  /** The buffer `parse` builds is the header and the block-by-block reading of the lexer's tokens. */
  lemma ParseReference(s: string)
    ensures WellFormed(Lexed(s))
    ensures Generated(Lexed(s)) == Header + Reference(Lexed(s))
  {
    LexedWellFormed(s);
    EmitReference(Lexed(s), None);
  }

  /** A text without `<%` (other than a lone `<`) becomes one push of the quoted text. */
  lemma ParseHtmlOnly(h: string)
    requires h != [] && h != "<" && NoOpen(h)
    ensures Generated(Lexed(h)) == Header + PushStr(Quote(h)) + Accumulator
  {
    LexedHtmlOnly(h);
    ParseReference(h);
    assert [Html(h), EOF][1..] == [EOF];
  }

  /** An expression block becomes a push of its code. */
  lemma ParseExpression(c: string)
    requires NoClose(c)
    ensures Generated(Lexed("<%=" + c + "%>")) == Header + PushStr(c) + Accumulator
  {
    ClosedBlock(CodeStartString, c);
    ParseReference("<%=" + c + "%>");
    assert [CodeStartString, Code(c), EOF][2..] == [EOF];
  }

  /** A silent block becomes its code on a line of its own. */
  lemma ParseSilent(c: string)
    requires NoClose(c) && !StartsWithMarker(c)
    ensures Generated(Lexed("<%" + c + "%>")) == Header + (c + "\n") + Accumulator
  {
    ClosedBlock(CodeStartSilent, c);
    ParseReference("<%" + c + "%>");
    assert [CodeStartSilent, Code(c), EOF][2..] == [EOF];
  }

  /** A comment block contributes nothing, whatever its text. */
  lemma ParseComment(c: string)
    requires NoClose(c)
    ensures Generated(Lexed("<%#" + c + "%>")) == Header + Accumulator
  {
    ClosedBlock(CodeComment, c);
    ParseReference("<%#" + c + "%>");
    assert [CodeComment, Code(c), EOF][2..] == [EOF];
  }

  /** An unclosed expression block pushes the whole rest of the text as code. */
  lemma ParseUnclosedExpression(c: string)
    requires NoClose(c)
    ensures Generated(Lexed("<%=" + c)) == Header + PushStr(c) + Accumulator
  {
    Unterminated(CodeStartString, c);
    ParseReference("<%=" + c);
    assert [CodeStartString, Code(c), EOF][2..] == [EOF];
  }

  /**
   * A Code token with no token before it contributes nothing; one after a
   * token that is not a code start is emitted as a statement line.
   */
  lemma CodeFragments(c: string, t: HustToken)
    ensures Emit([Code(c)], None) == ""
    ensures !t.IsCodeStart() ==> Fragment(Some(t), Code(c)) == c + "\n"
  {
    assert [Code(c)][1..] == [];
  }

  /** The reading of a literal run in front of a well-formed sequence that may follow one. */
  lemma ReferenceHtmlCons(h: string, t: seq<HustToken>)
    requires h != [] && NoOpen(h) && WellFormed(t)
    requires t[0].EOF? || t[0].IsCodeStart()
    requires t[0].EOF? ==> h != "<"
    ensures WellFormed([Html(h)] + t)
    ensures Reference([Html(h)] + t) == PushStr(Quote(h)) + Reference(t)
  {
    WellFormedHtmlCons(h, t);
    assert ([Html(h)] + t)[1..] == t;
  }

  /** The reading of a code block in front of a well-formed sequence. */
  lemma ReferenceBlockCons(start: HustToken, c: string, t: seq<HustToken>)
    requires start.IsCodeStart() && NoClose(c) && WellFormed(t)
    requires start.CodeStartSilent? ==> !StartsWithMarker(c)
    ensures WellFormed([start, Code(c)] + t)
    ensures Reference([start, Code(c)] + t) == Fragment(Some(start), Code(c)) + Reference(t)
  {
    WellFormedBlockCons(start, c, t);
    ReferenceBlock([start, Code(c)] + t);
    assert ([start, Code(c)] + t)[2..] == t;
  }

  /** The block-by-block reading of a literal run, an expression block and a literal run. */
  lemma ReferenceHtmlExpressionHtml(a: string, c: string, b: string)
    requires a != [] && NoOpen(a) && b != [] && b != "<" && NoOpen(b) && NoClose(c)
    ensures WellFormed([Html(a), CodeStartString, Code(c), Html(b), EOF])
    ensures Reference([Html(a), CodeStartString, Code(c), Html(b), EOF])
      == PushStr(Quote(a)) + (PushStr(c) + (PushStr(Quote(b)) + Accumulator))
  {
    assert WellFormed([EOF]) && Reference([EOF]) == Accumulator;
    assert Fragment(Some(CodeStartString), Code(c)) == PushStr(c);
    ReferenceHtmlCons(b, [EOF]);
    var t2 := [Html(b)] + [EOF];
    ReferenceBlockCons(CodeStartString, c, t2);
    var t1 := [CodeStartString, Code(c)] + t2;
    ReferenceHtmlCons(a, t1);
    assert [Html(a)] + t1 == [Html(a), CodeStartString, Code(c), Html(b), EOF];
  }

  /** An expression block between two literal runs: three pushes, in order. */
  lemma ParseHtmlExpressionHtml(a: string, c: string, b: string)
    requires a != [] && NoOpen(a) && b != [] && b != "<" && NoOpen(b) && NoClose(c)
    ensures Generated(Lexed(a + "<%=" + c + "%>" + b))
      == Header + (PushStr(Quote(a)) + (PushStr(c) + (PushStr(Quote(b)) + Accumulator)))
  {
    var s := a + "<%=" + c + "%>" + b;
    assert s == a + RenderToken(CodeStartString) + c + "%>" + b;
    HtmlBlockHtml(a, CodeStartString, c, b);
    ReferenceHtmlExpressionHtml(a, c, b);
    ParseReference(s);
  }

  /** The code generated for the template of the source's mixed-content test. */
  lemma ExampleMixedGenerated()
    ensures Generated(Lexed("<div><%= \"Hello\" %></div>"))
      == Header + (PushStr(Quote("<div>")) + (PushStr(" \"Hello\" ") + (PushStr(Quote("</div>")) + Accumulator)))
  {
    assert "<div>" + "<%=" + " \"Hello\" " + "%>" + "</div>" == "<div><%= \"Hello\" %></div>";
    NoPercent("<div>");
    NoPercent(" \"Hello\" ");
    NoPercent("</div>");
    ParseHtmlExpressionHtml("<div>", " \"Hello\" ", "</div>");
  }
}
