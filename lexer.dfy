/**
 * The Hust lexer (src/lexer.rs): a single forward scan that splits a template
 * into literal runs and `<% ... %>` code blocks.
 *
 * The source's peekable character iterator is modelled as an index into the
 * whole template: with the cursor at i, `chars.peek()` is `content[i]` and
 * `chars.clone().nth(1)` is `content[i + 1]`.
 */
module Lexer {
  import opened Wrappers
  import opened Tokens

  /** The first position at or after i where `<%` begins, or |t| when there is none. */
  function FindOpenFrom(t: string, i: nat): (p: nat)
    requires i <= |t|
    ensures i <= p <= |t|
    ensures p < |t| ==> OpensAt(t, p)
    ensures forall q :: i <= q < p ==> !OpensAt(t, q)
    decreases |t| - i
  {
    if i + 1 >= |t| then |t|
    else if OpensAt(t, i) then i
    else FindOpenFrom(t, i + 1)
  }

  /** The first position at or after i where `%>` begins, or |t| when there is none. */
  function FindCloseFrom(t: string, i: nat): (p: nat)
    requires i <= |t|
    ensures i <= p <= |t|
    ensures p < |t| ==> ClosesAt(t, p)
    ensures forall q :: i <= q < p ==> !ClosesAt(t, q)
    decreases |t| - i
  {
    if i + 1 >= |t| then |t|
    else if ClosesAt(t, i) then i
    else FindCloseFrom(t, i + 1)
  }

  /** A position with the properties of the first `<%` is that position. */
  lemma FindOpenFromIs(t: string, i: nat, p: nat)
    requires i <= p <= |t|
    requires p < |t| ==> OpensAt(t, p)
    requires forall q :: i <= q < p ==> !OpensAt(t, q)
    ensures FindOpenFrom(t, i) == p
  {
  }

  /** A position with the properties of the first `%>` is that position. */
  lemma FindCloseFromIs(t: string, i: nat, p: nat)
    requires i <= p <= |t|
    requires p < |t| ==> ClosesAt(t, p)
    requires forall q :: i <= q < p ==> !ClosesAt(t, q)
    ensures FindCloseFrom(t, i) == p
  {
  }

  /**
   * After `<%` (which ends just before position i): `=` selects an expression
   * block and `#` a comment block, each consuming that one character; anything
   * else selects a silent block and consumes nothing. Gives the start token and
   * the position where the code begins.
   */
  function Opening(s: string, i: nat): (r: (HustToken, nat))
  {
    if i < |s| && s[i] == '=' then (CodeStartString, i + 1)
    else if i < |s| && s[i] == '#' then (CodeComment, i + 1)
    else (CodeStartSilent, i)
  }

  /** What one pass of the scan loses of the text it consumes. */
  datatype Loss = Lossless | Unclosed | DroppedLessThan

  /** The tokens one pass of the lexer's loop pushes, and where the cursor is after it. */
  datatype Step = Step(emitted: seq<HustToken>, next: nat, loss: Loss)

  /** `collect_html` called on the character at position i. */
  function HtmlStep(s: string, i: nat): (r: Step)
    requires i < |s|
    ensures i < r.next <= |s|
  {
    var n := FindOpenFrom(s, i + 1);
    Step([Html(s[i..n])], n, Lossless)
  }

  /**
   * The start token and the code that follows it from position k
   * (`collect_code`): the code runs to the first `%>`, which is consumed, or,
   * when there is none, to the end of the text.
   */
  function CodeStep(s: string, start: HustToken, k: nat): (r: Step)
    requires k <= |s|
    ensures k <= r.next <= |s|
  {
    var e := FindCloseFrom(s, k);
    if e < |s| then Step([start, Code(s[k..e])], e + 2, Lossless)
    else Step([start, Code(s[k..e])], e, Unclosed)
  }

  /** One pass of the `while let Some(ch) = chars.next()` loop of `lexer`, with the cursor at i. */
  function Next(s: string, i: nat): (r: Step)
    requires i < |s|
    ensures i < r.next <= |s|
  {
    if s[i] == '<' then
      if i + 1 == |s| then
        // the peek after a final '<' finds nothing, and nothing is pushed
        Step([], |s|, DroppedLessThan)
      else if s[i + 1] == '%' then
        var (start, k) := Opening(s, i + 2);
        CodeStep(s, start, k)
      else HtmlStep(s, i)
    else HtmlStep(s, i)
  }

  /** The tokens the loop of `lexer` pushes from position i to the end. */
  function Scan(s: string, i: nat): (r: seq<HustToken>)
    requires i <= |s|
    decreases |s| - i
  {
    if i == |s| then []
    else
      var step := Next(s, i);
      step.emitted + Scan(s, step.next)
  }

  /** Whether, and how, the scan from position i fails to account for all of the text. */
  function LossOf(s: string, i: nat): (r: Loss)
    requires i <= |s|
    decreases |s| - i
  {
    if i == |s| then Lossless
    else
      var step := Next(s, i);
      if step.loss != Lossless then step.loss else LossOf(s, step.next)
  }

  /** `lexer(content)`: the scanned tokens and a final EOF. */
  function Lexed(content: string): (r: seq<HustToken>)
  {
    Scan(content, 0) + [EOF]
  }

  lemma AppendAssoc<T>(a: seq<T>, b: seq<T>, c: seq<T>)
    ensures (a + b) + c == a + (b + c)
  {
  }

  /** `collect_code`: the code from position start up to the first `%>`, which is consumed and dropped. */
  method CollectCode(content: string, start: nat) returns (token: HustToken, next: nat)
    requires start <= |content|
    ensures var e := FindCloseFrom(content, start);
      && token == Code(content[start..e])
      && next == if e < |content| then e + 2 else |content|
  {
    var code := "";
    var i := start;
    ghost var e := |content|;
    while i < |content|
      invariant start <= i <= |content|
      invariant code == content[start..i]
      invariant forall q :: start <= q < i ==> !ClosesAt(content, q)
      invariant e == |content|
    {
      var ch := content[i];
      i := i + 1;
      if ch == '%' && i < |content| && content[i] == '>' {
        i := i + 1; // skip '>'
        e := i - 2;
        break;
      }
      code := code + [ch];
    }
    FindCloseFromIs(content, start, e);
    token := Code(code);
    next := i;
  }

  /** `collect_html`: first_char, then every character up to the next `<%`, which is left unconsumed. */
  method CollectHtml(content: string, start: nat, firstChar: char) returns (token: HustToken, next: nat)
    requires start <= |content|
    ensures next == FindOpenFrom(content, start)
    ensures token == Html([firstChar] + content[start..next])
  {
    var html := [firstChar];
    var i := start;
    while i < |content|
      invariant start <= i <= |content|
      invariant html == [firstChar] + content[start..i]
      invariant forall q :: start <= q < i ==> !OpensAt(content, q)
    {
      var ch := content[i];
      if IsSpecial(ch) && ch == '<' {
        var nextChar := if i + 1 < |content| then Some(content[i + 1]) else None;
        if nextChar == Some('%') {
          break;
        }
      }
      html := html + [content[i]];
      i := i + 1;
    }
    FindOpenFromIs(content, start, i);
    token := Html(html);
    next := i;
  }

  /**
   * The `match chars.peek()` after `<%` (which ends just before position i):
   * the start token, whose text is `<%` and the marker it consumed, if any.
   * The code after a silent start never begins with a marker.
   */
  method ReadMarker(content: string, i: nat) returns (start: HustToken, next: nat)
    requires i <= |content|
    ensures start.IsCodeStart() && i <= next <= |content|
    ensures RenderToken(start) == "<%" + content[i..next]
    ensures start.CodeStartSilent? ==> !StartsWithMarker(content[next..])
  {
    if i < |content| && content[i] == '=' {
      next := i + 1;
      start := CodeStartString;
    } else if i < |content| && content[i] == '#' {
      next := i + 1;
      start := CodeComment;
    } else {
      next := i;
      start := CodeStartSilent;
    }
  }

  /** A start token with the properties of the marker read is the one Opening selects. */
  lemma OpeningIs(content: string, i: nat, start: HustToken, next: nat)
    requires start.IsCodeStart() && i <= next <= |content|
    requires RenderToken(start) == "<%" + content[i..next]
    requires start.CodeStartSilent? ==> !StartsWithMarker(content[next..])
    ensures (start, next) == Opening(content, i)
  {
    assert |RenderToken(start)| == 2 + (next - i);
    if next == i + 1 {
      assert RenderToken(start)[2] == content[i];
    } else {
      assert next == i;
      assert i < |content| ==> content[next..][0] == content[i];
    }
  }

  /** The pass of the loop at position i when it reads a literal run. */
  lemma NextHtml(content: string, i: nat)
    requires i < |content|
    requires content[i] != '<' || (i + 1 < |content| && content[i + 1] != '%')
    ensures var n := FindOpenFrom(content, i + 1);
      Next(content, i) == Step([Html([content[i]] + content[i + 1..n])], n, Lossless)
  {
    var n := FindOpenFrom(content, i + 1);
    assert [content[i]] + content[i + 1..n] == content[i..n];
  }

  /** The pass of the loop at position i when the text there begins with `<%`. */
  lemma NextBlock(content: string, i: nat)
    requires OpensAt(content, i)
    ensures Next(content, i) == CodeStep(content, Opening(content, i + 2).0, Opening(content, i + 2).1)
  {
  }

  /** The pass of the loop at position i when a lone `<` ends the text. */
  lemma NextDropped(content: string, i: nat)
    requires i + 1 == |content| && content[i] == '<'
    ensures Next(content, i) == Step([], |content|, DroppedLessThan)
  {
  }

  /** After one pass, the tokens pushed so far and the scan of the rest still make up the whole scan. */
  lemma Advance(content: string, i0: nat, before: seq<HustToken>, emitted: seq<HustToken>, i: nat)
    requires i0 < |content|
    requires before + Scan(content, i0) == Scan(content, 0)
    requires Next(content, i0).emitted == emitted && Next(content, i0).next == i
    ensures (before + emitted) + Scan(content, i) == Scan(content, 0)
  {
    AppendAssoc(before, emitted, Scan(content, i));
  }

  /**
   * One pass of the `while let` loop of `lexer`, with the cursor at i0: the
   * tokens it pushes and where it leaves the cursor.
   */
  method LexPass(content: string, i0: nat) returns (pushed: seq<HustToken>, i: nat)
    requires i0 < |content|
    ensures pushed == Next(content, i0).emitted && i == Next(content, i0).next
  {
    var ch := content[i0];
    i := i0 + 1;
    if IsSpecial(ch) {
      match FromChar(ch)
      case Some(LessThan) =>
        if i < |content| {
          var nextCh := content[i];
          if nextCh == '%' {
            NextBlock(content, i0);
            i := i + 1; // skip '%'
            var start;
            ghost var k := i;
            start, i := ReadMarker(content, i);
            OpeningIs(content, k, start, i);
            var code;
            code, i := CollectCode(content, i);
            pushed := [start, code];
          } else {
            NextHtml(content, i0);
            var html;
            html, i := CollectHtml(content, i, ch);
            pushed := [html];
          }
        } else {
          // nothing follows the '<': nothing is pushed
          NextDropped(content, i0);
          pushed := [];
        }
      case Some(_) =>
        NextHtml(content, i0);
        var html;
        html, i := CollectHtml(content, i, ch);
        pushed := [html];
      case None =>
        // is_special(ch) holds, so from_char(ch) is never None here
        assert false;
    } else {
      NextHtml(content, i0);
      var html;
      html, i := CollectHtml(content, i, ch);
      pushed := [html];
    }
  }

  /** `lexer`: scans content once and returns its tokens. */
  method Lex(content: string) returns (tokens: seq<HustToken>)
    ensures tokens == Lexed(content)
  {
    tokens := [];
    var i := 0;
    while i < |content|
      invariant 0 <= i <= |content|
      invariant tokens + Scan(content, i) == Scan(content, 0)
    {
      ghost var i0 := i;
      var pushed;
      pushed, i := LexPass(content, i);
      Advance(content, i0, tokens, pushed, i);
      tokens := tokens + pushed;
    }
    tokens := tokens + [EOF];
  }
}
