/**
 * What the Hust lexer promises about its output: the token-shape invariants,
 * the treatment of block starts, unclosed blocks and a final lone `<`, and the
 * round trip between templates and token sequences.
 */
module LexerProofs {
  import opened Tokens
  import opened Lexer

  /** Scanning from a `<%` begins with a code start. */
  lemma ScanAtOpen(s: string, i: nat)
    requires OpensAt(s, i)
    ensures Scan(s, i) != [] && Scan(s, i)[0].IsCodeStart()
  {
    NextBlock(s, i);
  }

  /** A block pass followed by well-formed tokens is well formed. */
  lemma BlockWellFormed(s: string, i: nat, tail: seq<HustToken>)
    requires OpensAt(s, i)
    requires WellFormed(tail)
    ensures WellFormed(Next(s, i).emitted + tail)
  {
    NextBlock(s, i);
    var (start, k) := Opening(s, i + 2);
    var e := FindCloseFrom(s, k);
    var code := s[k..e];
    forall q | 0 <= q < |code| ensures !ClosesAt(code, q) {
      assert ClosesAt(code, q) ==> ClosesAt(s, k + q);
    }
    assert start == CodeStartSilent && code != [] ==> code[0] == s[k];
    var ts := [start, Code(code)] + tail;
    assert ts[2..] == tail;
  }

  /**
   * A literal-run pass followed by its well-formed continuation is well
   * formed; the continuation is EOF alone or begins with a code start.
   */
  lemma HtmlWellFormed(s: string, i: nat, tail: seq<HustToken>)
    requires i < |s|
    requires s[i] != '<' || (i + 1 < |s| && s[i + 1] != '%')
    requires WellFormed(tail)
    requires FindOpenFrom(s, i + 1) == |s| ==> tail == [EOF]
    requires FindOpenFrom(s, i + 1) < |s| ==> tail[0].IsCodeStart()
    ensures WellFormed(Next(s, i).emitted + tail)
  {
    NextHtml(s, i);
    var n := FindOpenFrom(s, i + 1);
    var h := s[i..n];
    assert [s[i]] + s[i + 1..n] == h;
    forall q | 0 <= q < |h| ensures !OpensAt(h, q) {
      assert OpensAt(h, q) ==> OpensAt(s, i + q);
    }
    var ts := [Html(h)] + tail;
    assert ts[1..] == tail;
  }

  /** The tokens scanned from any position, followed by EOF, are well formed. */
  lemma {:induction false} ScanWellFormed(s: string, i: nat)
    requires i <= |s|
    ensures WellFormed(Scan(s, i) + [EOF])
    decreases |s| - i
  {
    if i == |s| {
      assert Scan(s, i) + [EOF] == [EOF];
    } else {
      var step := Next(s, i);
      var tail := Scan(s, step.next) + [EOF];
      ScanWellFormed(s, step.next);
      AppendAssoc(step.emitted, Scan(s, step.next), [EOF]);
      if s[i] == '<' && i + 1 == |s| {
        NextDropped(s, i);
      } else if OpensAt(s, i) {
        BlockWellFormed(s, i, tail);
      } else {
        var n := FindOpenFrom(s, i + 1);
        NextHtml(s, i);
        if n < |s| {
          ScanAtOpen(s, n);
        }
        HtmlWellFormed(s, i, tail);
      }
    }
  }

  /** Every token sequence the lexer returns is well formed. */
  lemma LexedWellFormed(s: string)
    ensures WellFormed(Lexed(s))
  {
    ScanWellFormed(s, 0);
  }

  /** A well-formed sequence ends with EOF. */
  lemma {:induction false} WellFormedLast(ts: seq<HustToken>)
    requires WellFormed(ts)
    ensures ts != [] && ts[|ts| - 1] == EOF
    decreases |ts|
  {
    if ts[0].Html? {
      WellFormedLast(ts[1..]);
    } else if !ts[0].EOF? {
      WellFormedLast(ts[2..]);
    }
  }

  /** EOF ends a well-formed sequence and occurs nowhere else. */
  lemma {:induction false} WellFormedEndsWithEOF(ts: seq<HustToken>)
    requires WellFormed(ts)
    ensures ts != [] && ts[|ts| - 1] == EOF
    ensures forall k :: 0 <= k < |ts| - 1 ==> ts[k] != EOF
    decreases |ts|
  {
    WellFormedLast(ts);
    if ts[0].Html? {
      var tail := ts[1..];
      WellFormedEndsWithEOF(tail);
      forall k | 1 <= k < |ts| ensures ts[k] == tail[k - 1] {}
    } else if !ts[0].EOF? {
      var tail := ts[2..];
      WellFormedEndsWithEOF(tail);
      forall k | 2 <= k < |ts| ensures ts[k] == tail[k - 2] {}
    }
  }

  /**
   * In a well-formed sequence each code start is followed by a Code token,
   * each Code token is preceded by a code start (so the first token is never
   * Code), and the code after a silent start never begins with `=` or `#`.
   */
  lemma {:induction false} WellFormedBlocks(ts: seq<HustToken>)
    requires WellFormed(ts)
    ensures forall k :: 0 <= k < |ts| && ts[k].IsCodeStart() ==> k + 1 < |ts| && ts[k + 1].Code?
    ensures forall k :: 0 <= k < |ts| && ts[k].Code? ==> 0 < k && ts[k - 1].IsCodeStart()
    ensures forall k :: 0 <= k < |ts| - 1 && ts[k].CodeStartSilent? && ts[k + 1].Code? ==>
      !StartsWithMarker(ts[k + 1].text)
    decreases |ts|
  {
    if ts[0].EOF? {
    } else if ts[0].Html? {
      var tail := ts[1..];
      WellFormedBlocks(tail);
      forall k | 1 <= k < |ts| ensures ts[k] == tail[k - 1] {}
    } else {
      var tail := ts[2..];
      WellFormedBlocks(tail);
      forall k | 2 <= k < |ts| ensures ts[k] == tail[k - 2] {}
    }
  }

  /** In a well-formed sequence every literal run is non-empty and holds no `<%`, and no code holds `%>`. */
  lemma {:induction false} WellFormedTexts(ts: seq<HustToken>)
    requires WellFormed(ts)
    ensures forall k :: 0 <= k < |ts| && ts[k].Html? ==> ts[k].text != [] && NoOpen(ts[k].text)
    ensures forall k :: 0 <= k < |ts| && ts[k].Code? ==> NoClose(ts[k].text)
    decreases |ts|
  {
    if ts[0].EOF? {
    } else if ts[0].Html? {
      var tail := ts[1..];
      WellFormedTexts(tail);
      forall k | 1 <= k < |ts| ensures ts[k] == tail[k - 1] {}
    } else {
      var tail := ts[2..];
      WellFormedTexts(tail);
      forall k | 2 <= k < |ts| ensures ts[k] == tail[k - 2] {}
    }
  }

  /** The token invariants of every lexer output. */
  lemma LexedInvariants(s: string)
    ensures var ts := Lexed(s);
      && ts[|ts| - 1] == EOF
      && (forall k :: 0 <= k < |ts| - 1 ==> ts[k] != EOF)
      && (forall k :: 0 <= k < |ts| && ts[k].IsCodeStart() ==> k + 1 < |ts| && ts[k + 1].Code?)
      && (forall k :: 0 <= k < |ts| && ts[k].Code? ==> 0 < k && ts[k - 1].IsCodeStart())
      && (forall k :: 0 <= k < |ts| - 1 && ts[k].CodeStartSilent? && ts[k + 1].Code? ==>
            !StartsWithMarker(ts[k + 1].text))
      && (forall k :: 0 <= k < |ts| && ts[k].Html? ==> ts[k].text != [] && NoOpen(ts[k].text))
      && (forall k :: 0 <= k < |ts| && ts[k].Code? ==> NoClose(ts[k].text))
  {
    LexedWellFormed(s);
    WellFormedEndsWithEOF(Lexed(s));
    WellFormedBlocks(Lexed(s));
    WellFormedTexts(Lexed(s));
  }

  // ---- Rendering the scanned tokens back into text

  lemma SliceSplit(s: string, i: nat, j: nat)
    requires i <= j <= |s|
    ensures s[i..] == s[i..j] + s[j..]
    ensures j < |s| ==> s[i..|s| - 1] == s[i..j] + s[j..|s| - 1]
  {
  }

  lemma RenderOne(a: HustToken)
    ensures Render([a]) == RenderToken(a)
  {
    assert [a][1..] == [];
  }

  lemma RenderTwo(a: HustToken, b: HustToken)
    ensures Render([a, b]) == RenderToken(a) + RenderToken(b)
  {
    assert [a, b][1..] == [b];
    RenderOne(b);
  }

  /** The start token chosen after `<%` at i renders as the text it was read from. */
  lemma OpeningText(s: string, i: nat)
    requires OpensAt(s, i)
    ensures i + 2 <= Opening(s, i + 2).1 <= |s|
    ensures RenderToken(Opening(s, i + 2).0) == s[i..Opening(s, i + 2).1]
  {
  }

  lemma SliceThree(s: string, i: nat, k: nat, e: nat, f: nat)
    requires i <= k <= e <= f <= |s|
    ensures s[i..f] == s[i..k] + s[k..e] + s[e..f]
  {
  }

  /** A block pass, rendered: the text it consumed, or that text and a `%>` when unclosed. */
  lemma RenderStepBlock(s: string, i: nat)
    requires OpensAt(s, i)
    ensures var step := Next(s, i);
      && (step.loss == Lossless ==> Render(step.emitted) == s[i..step.next])
      && (step.loss == Unclosed ==> step.next == |s| && Render(step.emitted) == s[i..] + "%>")
      && step.loss != DroppedLessThan
  {
    NextBlock(s, i);
    OpeningText(s, i);
    var (start, k) := Opening(s, i + 2);
    var e := FindCloseFrom(s, k);
    RenderTwo(start, Code(s[k..e]));
    if e < |s| {
      SliceThree(s, i, k, e, e + 2);
      assert s[e..e + 2] == "%>";
    } else {
      SliceThree(s, i, k, e, e);
      assert s[i..] == s[i..e];
    }
  }

  /** A literal-run pass, rendered: the text it consumed. */
  lemma RenderStepHtml(s: string, i: nat)
    requires i < |s|
    requires s[i] != '<' || (i + 1 < |s| && s[i + 1] != '%')
    ensures Next(s, i).loss == Lossless && Render(Next(s, i).emitted) == s[i..Next(s, i).next]
  {
    NextHtml(s, i);
    RenderOne(Next(s, i).emitted[0]);
  }

  /**
   * What one pass of the loop gives back when its tokens are rendered: the
   * text it consumed, that text plus a `%>` the template lacks, or nothing for a final `<`.
   */
  lemma RenderStep(s: string, i: nat)
    requires i < |s|
    ensures var step := Next(s, i);
      && (step.loss == Lossless ==> Render(step.emitted) == s[i..step.next])
      && (step.loss == Unclosed ==> step.next == |s| && Render(step.emitted) == s[i..] + "%>")
      && (step.loss == DroppedLessThan ==> step.emitted == [] && i + 1 == |s| && s[i] == '<')
  {
    if s[i] == '<' && i + 1 == |s| {
      NextDropped(s, i);
    } else if OpensAt(s, i) {
      RenderStepBlock(s, i);
    } else {
      RenderStepHtml(s, i);
    }
  }

  /** Rendering the tokens scanned from i gives back the text from i when the scan loses nothing. */
  lemma {:induction false} RenderScanLossless(s: string, i: nat)
    requires i <= |s|
    requires LossOf(s, i) == Lossless
    ensures Render(Scan(s, i)) == s[i..]
    decreases |s| - i
  {
    if i < |s| {
      var step := Next(s, i);
      var rest := Scan(s, step.next);
      assert Scan(s, i) == step.emitted + rest;
      RenderStep(s, i);
      RenderAppend(step.emitted, rest);
      RenderScanLossless(s, step.next);
      SliceSplit(s, i, step.next);
    }
  }

  /** With a block left unclosed, the rendered scan has a `%>` the text lacks. */
  lemma {:induction false} RenderScanUnclosed(s: string, i: nat)
    requires i <= |s|
    requires LossOf(s, i) == Unclosed
    ensures Render(Scan(s, i)) == s[i..] + "%>"
    decreases |s| - i
  {
    var step := Next(s, i);
    var rest := Scan(s, step.next);
    assert Scan(s, i) == step.emitted + rest;
    RenderStep(s, i);
    RenderAppend(step.emitted, rest);
    if step.loss == Lossless {
      RenderScanUnclosed(s, step.next);
      SliceSplit(s, i, step.next);
    } else {
      assert rest == [];
    }
  }

  /** With a final `<` dropped, the rendered scan is the text from i without it. */
  lemma {:induction false} RenderScanDropped(s: string, i: nat)
    requires i <= |s|
    requires LossOf(s, i) == DroppedLessThan
    ensures i < |s| && s[|s| - 1] == '<' && Render(Scan(s, i)) == s[i..|s| - 1]
    decreases |s| - i
  {
    var step := Next(s, i);
    var rest := Scan(s, step.next);
    assert Scan(s, i) == step.emitted + rest;
    RenderStep(s, i);
    RenderAppend(step.emitted, rest);
    if step.loss == Lossless {
      RenderScanDropped(s, step.next);
      SliceSplit(s, i, step.next);
    } else {
      assert rest == [];
    }
  }

  /**
   * The round trip from text to tokens and back: rendering the lexer's
   * tokens gives back the template exactly when the scan loses nothing; an
   * unclosed block comes back with `%>` appended, and a template that ends in
   * a `<` the scan dropped comes back without it.
   */
  lemma RoundTrip(s: string)
    ensures Render(Lexed(s)) == s <==> LossOf(s, 0) == Lossless
    ensures LossOf(s, 0) == Unclosed ==> Render(Lexed(s)) == s + "%>"
    ensures LossOf(s, 0) == DroppedLessThan ==> s != [] && s[|s| - 1] == '<' && Render(Lexed(s)) == s[..|s| - 1]
  {
    RenderLexed(s);
    assert s[0..] == s;
    match LossOf(s, 0)
    case Lossless =>
      RenderScanLossless(s, 0);
    case Unclosed =>
      RenderScanUnclosed(s, 0);
      assert |s + "%>"| != |s|;
    case DroppedLessThan =>
      RenderScanDropped(s, 0);
      assert s[0..|s| - 1] == s[..|s| - 1];
      assert |s[..|s| - 1]| != |s|;
  }

  /** The final EOF renders as nothing. */
  lemma RenderLexed(s: string)
    ensures Render(Lexed(s)) == Render(Scan(s, 0))
  {
    RenderAppend(Scan(s, 0), [EOF]);
    RenderOne(EOF);
  }

  // ---- Lexing the rendering of a well-formed token sequence

  /** How the rendering of a well-formed sequence begins. */
  lemma RenderHead(ts: seq<HustToken>)
    requires WellFormed(ts)
    ensures ts[0].EOF? ==> Render(ts) == ""
    ensures ts[0].IsCodeStart() ==> |Render(ts)| >= 2 && Render(ts)[0] == '<' && Render(ts)[1] == '%'
  {
    if ts[0].EOF? {
      assert ts[1..] == [];
    }
  }

  /** The pieces of a concatenation, by position. */
  lemma Pieces(a: string, b: string, c: string)
    ensures (a + b + c)[|a|..|a| + |b|] == b
    ensures |b| > 0 ==> (a + b + c)[|a|] == b[0]
    ensures |b| > 1 ==> (a + b + c)[|a| + 1] == b[1]
    ensures |c| > 0 ==> (a + b + c)[|a| + |b|] == c[0]
    ensures |c| > 1 ==> (a + b + c)[|a| + |b| + 1] == c[1]
  {
    assert (a + b + c)[|a|..|a| + |b|] == b;
  }

  /** A literal run between i and n: no `<%` inside it, and the next `<%` (if any) at n. */
  lemma NoOpenIn(s: string, i: nat, n: nat)
    requires i <= n <= |s|
    requires NoOpen(s[i..n])
    requires n < |s| ==> s[n] == '<'
    ensures forall q :: i <= q < n ==> !OpensAt(s, q)
  {
    forall q | i <= q < n ensures !OpensAt(s, q) {
      if q + 1 < n {
        assert OpensAt(s, q) ==> OpensAt(s[i..n], q - i);
      }
    }
  }

  /** A code block between k and e: no `%>` inside it, and `%>` at e. */
  lemma NoCloseIn(s: string, k: nat, e: nat)
    requires k <= e < |s|
    requires NoClose(s[k..e])
    requires s[e] == '%'
    ensures forall q :: k <= q < e ==> !ClosesAt(s, q)
  {
    forall q | k <= q < e ensures !ClosesAt(s, q) {
      if q + 1 < e {
        assert ClosesAt(s, q) ==> ClosesAt(s[k..e], q - k);
      }
    }
  }

  /** The pass at i reads the literal run up to n when no `<%` begins in between. */
  lemma NextHtmlRun(s: string, i: nat, n: nat)
    requires i < n <= |s|
    requires !(s[i] == '<' && i + 1 == |s|)
    requires forall q :: i <= q < n ==> !OpensAt(s, q)
    requires n < |s| ==> OpensAt(s, n)
    ensures Next(s, i) == Step([Html(s[i..n])], n, Lossless)
  {
    assert !OpensAt(s, i);
    NextHtml(s, i);
    FindOpenFromIs(s, i + 1, n);
    assert [s[i]] + s[i + 1..n] == s[i..n];
  }

  /** The pass at a `<%` at i reads the code from k to a `%>` at e. */
  lemma NextBlockRun(s: string, i: nat, k: nat, e: nat)
    requires OpensAt(s, i) && Opening(s, i + 2).1 == k <= e && ClosesAt(s, e)
    requires forall q :: k <= q < e ==> !ClosesAt(s, q)
    ensures Next(s, i) == Step([Opening(s, i + 2).0, Code(s[k..e])], e + 2, Lossless)
  {
    NextBlock(s, i);
    FindCloseFromIs(s, k, e);
  }

  /** What may follow a rendered literal run: nothing, or a rendered code start. */
  predicate AfterHtml(r: string) {
    r == "" || (|r| >= 2 && r[0] == '<' && r[1] == '%')
  }

  /** Lexing at the start of a rendered literal run h reads back exactly that run. */
  lemma HtmlRenderNext(p: string, h: string, r: string)
    requires h != [] && NoOpen(h)
    requires AfterHtml(r) && (r == "" ==> h != "<")
    ensures |p| < |(p + h) + r|
    ensures Next((p + h) + r, |p|) == Step([Html(h)], |p| + |h|, Lossless)
  {
    var s := p + h + r;
    Pieces(p, h, r);
    var i := |p|;
    var n := i + |h|;
    NoOpenIn(s, i, n);
    NextHtmlRun(s, i, n);
  }

  /** Lexing at a rendered code start reads back that start and its code c. */
  lemma BlockRenderNext(p: string, start: HustToken, c: string, r: string)
    requires start.IsCodeStart() && NoClose(c)
    requires start.CodeStartSilent? ==> !StartsWithMarker(c)
    ensures var q := p + (RenderToken(start) + c + "%>");
      && |p| < |q + r|
      && Next(q + r, |p|) == Step([start, Code(c)], |q|, Lossless)
  {
    var d := RenderToken(start);
    var s := (p + d) + c + ("%>" + r);
    assert (p + (d + c + "%>")) + r == s;
    Pieces(p, d, c + ("%>" + r));
    Pieces(p + d, c, "%>" + r);
    var i := |p|;
    var k := i + |d|;
    var e := k + |c|;
    assert start.CodeStartSilent? ==> c == [] || s[i + 2] == c[0];
    assert Opening(s, i + 2) == (start, k);
    NoCloseIn(s, k, e);
    NextBlockRun(s, i, k, e);
  }

  /** The literal-run step of the scan of a rendering. */
  lemma ScanRenderHtml(p: string, h: string, r: string, rest: seq<HustToken>)
    requires h != [] && NoOpen(h)
    requires AfterHtml(r) && (r == "" ==> h != "<")
    requires Scan((p + h) + r, |p + h|) == rest
    ensures Scan((p + h) + r, |p|) == [Html(h)] + rest
  {
    HtmlRenderNext(p, h, r);
  }

  /** The code-block step of the scan of a rendering. */
  lemma ScanRenderBlock(p: string, start: HustToken, c: string, r: string, rest: seq<HustToken>)
    requires start.IsCodeStart() && NoClose(c)
    requires start.CodeStartSilent? ==> !StartsWithMarker(c)
    requires var q := p + (RenderToken(start) + c + "%>"); Scan(q + r, |q|) == rest
    ensures Scan((p + (RenderToken(start) + c + "%>")) + r, |p|) == [start, Code(c)] + rest
  {
    BlockRenderNext(p, start, c, r);
  }

  /** The rendering of a well-formed sequence that begins with a literal run. */
  lemma RenderHtmlFirst(ts: seq<HustToken>)
    requires WellFormed(ts) && ts[0].Html?
    ensures Render(ts) == ts[0].text + Render(ts[1..])
    ensures AfterHtml(Render(ts[1..])) && (Render(ts[1..]) == "" ==> ts[0].text != "<")
  {
    RenderHead(ts[1..]);
    if Render(ts[1..]) == "" {
      assert !ts[1].IsCodeStart();
    }
  }

  /** The rendering of a well-formed sequence that begins with a code block. */
  lemma RenderBlockFirst(ts: seq<HustToken>)
    requires |ts| >= 2 && ts[1].Code?
    ensures Render(ts) == (RenderToken(ts[0]) + ts[1].text + "%>") + Render(ts[2..])
  {
    assert ts[1..][1..] == ts[2..];
    AppendAssoc(RenderToken(ts[0]), ts[1].text + "%>", Render(ts[2..]));
  }

  lemma DropLast(ts: seq<HustToken>, j: nat)
    requires j < |ts|
    ensures ts[..|ts| - 1] == ts[..j] + ts[j..][..|ts| - 1 - j]
  {
  }

  /** The scan of a rendering whose first token is a literal run, given the scan of the rest. */
  lemma ScanRenderHtmlCase(p: string, ts: seq<HustToken>)
    requires WellFormed(ts) && ts[0].Html?
    requires Scan((p + ts[0].text) + Render(ts[1..]), |p + ts[0].text|) == ts[1..][..|ts| - 2]
    ensures Scan(p + Render(ts), |p|) == ts[..|ts| - 1]
  {
    var h := ts[0].text;
    var r := Render(ts[1..]);
    RenderHtmlFirst(ts);
    ScanRenderHtml(p, h, r, ts[1..][..|ts| - 2]);
    AppendAssoc(p, h, r);
    DropLast(ts, 1);
    assert ts[..1] == [ts[0]];
  }

  /** The scan of a rendering whose first token is a code start, given the scan of the rest. */
  lemma ScanRenderBlockCase(p: string, ts: seq<HustToken>)
    requires WellFormed(ts) && ts[0].IsCodeStart()
    requires var q := p + (RenderToken(ts[0]) + ts[1].text + "%>");
      Scan(q + Render(ts[2..]), |q|) == ts[2..][..|ts| - 3]
    ensures Scan(p + Render(ts), |p|) == ts[..|ts| - 1]
  {
    var c := ts[1].text;
    var r := Render(ts[2..]);
    RenderBlockFirst(ts);
    ScanRenderBlock(p, ts[0], c, r, ts[2..][..|ts| - 3]);
    AppendAssoc(p, RenderToken(ts[0]) + c + "%>", r);
    DropLast(ts, 2);
    assert ts[..2] == [ts[0], ts[1]];
  }

  /**
   * Whatever text precedes it, the rendering of a well-formed sequence is
   * scanned back into that sequence without its EOF.
   */
  lemma {:induction false} ScanRender(p: string, ts: seq<HustToken>)
    requires WellFormed(ts)
    ensures Scan(p + Render(ts), |p|) == ts[..|ts| - 1]
    decreases |ts|
  {
    if ts[0].EOF? {
      RenderHead(ts);
      assert p + Render(ts) == p;
    } else if ts[0].Html? {
      ScanRender(p + ts[0].text, ts[1..]);
      ScanRenderHtmlCase(p, ts);
    } else {
      ScanRender(p + (RenderToken(ts[0]) + ts[1].text + "%>"), ts[2..]);
      ScanRenderBlockCase(p, ts);
    }
  }

  /**
   * Lexing is a left inverse of rendering on well-formed sequences, so the
   * lexer tells apart any two different well-formed token sequences.
   */
  lemma LexRender(ts: seq<HustToken>)
    requires WellFormed(ts)
    ensures Lexed(Render(ts)) == ts
  {
    ScanRender("", ts);
    assert "" + Render(ts) == Render(ts);
    WellFormedSplitLast(ts);
  }

  lemma WellFormedSplitLast(ts: seq<HustToken>)
    requires WellFormed(ts)
    ensures ts == ts[..|ts| - 1] + [EOF]
  {
    WellFormedLast(ts);
    SplitLast(ts);
  }

  lemma SplitLast(ts: seq<HustToken>)
    requires ts != []
    ensures ts == ts[..|ts| - 1] + [ts[|ts| - 1]]
  {
  }

  /** Lexing the rendering of the lexer's output gives that output again. */
  lemma LexRenderLexed(s: string)
    ensures Lexed(Render(Lexed(s))) == Lexed(s)
  {
    LexedWellFormed(s);
    LexRender(Lexed(s));
  }

  // ---- Edge cases and examples

  /** The conditions a well-formed sequence places on a first literal run. */
  lemma WellFormedHtmlFirst(ts: seq<HustToken>)
    requires WellFormed(ts) && ts[0].Html?
    ensures ts[0].text != [] && NoOpen(ts[0].text)
    ensures ts[1].EOF? ==> ts[0].text != "<"
  {
  }

  /** Text without `%` holds neither delimiter. */
  lemma NoPercent(s: string)
    requires '%' !in s
    ensures NoOpen(s) && NoClose(s)
  {
    forall i | 0 <= i < |s| ensures !OpensAt(s, i) && !ClosesAt(s, i) {
      assert i + 1 < |s| ==> s[i + 1] in s;
    }
  }

  /** Any text other than the empty one and a lone `<` yields at least one token before EOF. */
  lemma ScanNonEmpty(s: string)
    requires s != [] && s != "<"
    ensures Scan(s, 0) != []
  {
    assert |s| == 1 ==> s == [s[0]];
    if OpensAt(s, 0) {
      NextBlock(s, 0);
    } else {
      NextHtml(s, 0);
    }
  }

  /** The lexer returns EOF alone exactly for the empty text and for a lone `<`. */
  lemma LexedEmpty(s: string)
    ensures Lexed(s) == [EOF] <==> s == [] || s == "<"
  {
    if s == [] {
      assert Lexed(s) == [] + [EOF];
    } else if s == "<" {
      NextDropped(s, 0);
      assert Scan(s, 0) == [] + Scan(s, 1);
      assert Lexed(s) == [] + [EOF];
    } else {
      ScanNonEmpty(s);
      assert |Lexed(s)| >= 2;
    }
  }

  /**
   * A non-empty text without `<%` other than a lone `<` is one literal run,
   * and no other text is lexed as a single literal run of itself.
   */
  lemma LexedHtmlOnly(s: string)
    ensures Lexed(s) == [Html(s), EOF] <==> s != [] && s != "<" && NoOpen(s)
  {
    var ts := [Html(s), EOF];
    assert ts[1..] == [EOF];
    if s != [] && s != "<" && NoOpen(s) {
      assert WellFormed(ts);
      RenderTwo(Html(s), EOF);
      assert Render(ts) == s;
      LexRender(ts);
    }
    if Lexed(s) == ts {
      LexedWellFormed(s);
      WellFormedHtmlFirst(ts);
    }
  }

  /**
   * A block whose code has no `%>` absorbs the rest of the text: the code is
   * everything after the start, and the block is unclosed.
   */
  lemma Unterminated(start: HustToken, c: string)
    requires start.IsCodeStart() && NoClose(c)
    requires start.CodeStartSilent? ==> !StartsWithMarker(c)
    ensures Lexed(RenderToken(start) + c) == [start, Code(c), EOF]
    ensures LossOf(RenderToken(start) + c, 0) == Unclosed
  {
    var d := RenderToken(start);
    var s := d + c;
    assert s[0] == '<' && s[1] == '%';
    NextBlock(s, 0);
    var k := |d|;
    assert start.CodeStartSilent? ==> c == [] || s[2] == c[0];
    assert Opening(s, 2) == (start, k);
    forall q | k <= q < |s| ensures !ClosesAt(s, q) {
      assert ClosesAt(s, q) ==> ClosesAt(c, q - k);
    }
    FindCloseFromIs(s, k, |s|);
    assert s[k..|s|] == c;
    assert Scan(s, 0) == [start, Code(c)] + Scan(s, |s|);
  }

  /** A closed block alone is read back as its start and its code. */
  lemma ClosedBlock(start: HustToken, c: string)
    requires start.IsCodeStart() && NoClose(c)
    requires start.CodeStartSilent? ==> !StartsWithMarker(c)
    ensures Lexed(RenderToken(start) + c + "%>") == [start, Code(c), EOF]
  {
    var ts := [start, Code(c), EOF];
    assert ts[2..] == [EOF];
    assert WellFormed(ts);
    assert ts[1..] == [Code(c), EOF];
    RenderTwo(Code(c), EOF);
    assert Render(ts) == RenderToken(start) + c + "%>";
    LexRender(ts);
  }

  /** A text that begins with `<%` is lexed as a start token and the code up to the first `%>`. */
  lemma LexedOpening(s: string)
    requires OpensAt(s, 0)
    ensures var (start, k) := Opening(s, 2);
      && |Lexed(s)| >= 3 && Lexed(s)[0] == start
      && Lexed(s)[1] == Code(s[k..FindCloseFrom(s, k)])
  {
    NextBlock(s, 0);
    var step := Next(s, 0);
    assert Scan(s, 0) == step.emitted + Scan(s, step.next);
  }

  /**
   * After `<%`, `=` selects an expression block and `#` a comment block, each
   * consuming the marker; anything else selects a silent block and consumes
   * nothing. The code that follows is the text after the marker up to the first `%>`.
   */
  lemma OpeningClassification(t: string)
    ensures var ts := Lexed("<%" + t);
      && |ts| >= 3 && ts[1].Code?
      && (t != [] && t[0] == '=' ==> ts[0] == CodeStartString && ts[1].text <= t[1..])
      && (t != [] && t[0] == '#' ==> ts[0] == CodeComment && ts[1].text <= t[1..])
      && (!StartsWithMarker(t) ==> ts[0] == CodeStartSilent && ts[1].text <= t)
  {
    var s := "<%" + t;
    assert s[0] == '<' && s[1] == '%';
    LexedOpening(s);
    var (start, k) := Opening(s, 2);
    assert t != [] ==> s[2] == t[0];
    var e := FindCloseFrom(s, k);
    assert s[k..e] <= s[k..];
    assert s[k..] == t[k - 2..];
  }

  /** A `<` that ends the text where a new token would begin is dropped. */
  lemma TrailingLessThan(p: string)
    ensures Scan(p + "<", |p|) == []
    ensures LossOf(p + "<", |p|) == DroppedLessThan
  {
    NextDropped(p + "<", |p|);
  }

  lemma ExampleLoneLessThan()
    ensures Lexed("<") == [EOF]
  {
    LexedEmpty("<");
  }

  /** The final `<` after a closed block is lost. */
  lemma ExampleDroppedAfterBlock()
    ensures Lexed("<%a%><") == [CodeStartSilent, Code("a"), EOF]
    ensures Render(Lexed("<%a%><")) == "<%a%>"
  {
    var s := "<%a%><";
    assert s == "<%a%>" + "<";
    assert s[2] == 'a' && s[3] == '%' && s[4] == '>';
    assert Opening(s, 2) == (CodeStartSilent, 2);
    NextBlockRun(s, 0, 2, 3);
    assert s[2..3] == "a";
    TrailingLessThan("<%a%>");
    assert Scan(s, 0) == [CodeStartSilent, Code("a")] + Scan(s, 5);
    var ts := [CodeStartSilent, Code("a"), EOF];
    assert ts[1..] == [Code("a"), EOF];
    RenderTwo(Code("a"), EOF);
  }

  lemma ExampleUnterminated()
    ensures Lexed("<% x") == [CodeStartSilent, Code(" x"), EOF]
  {
    assert RenderToken(CodeStartSilent) + " x" == "<% x";
    NoPercent(" x");
    Unterminated(CodeStartSilent, " x");
  }

  lemma ExampleHtmlOnly()
    ensures Lexed("<div>Hello, world!</div>") == [Html("<div>Hello, world!</div>"), EOF]
  {
    NoPercent("<div>Hello, world!</div>");
    LexedHtmlOnly("<div>Hello, world!</div>");
  }

  lemma ExampleSilentBlock()
    ensures Lexed("<% let x = 10; %>") == [CodeStartSilent, Code(" let x = 10; "), EOF]
  {
    assert RenderToken(CodeStartSilent) + " let x = 10; " + "%>" == "<% let x = 10; %>";
    NoPercent(" let x = 10; ");
    ClosedBlock(CodeStartSilent, " let x = 10; ");
  }

  lemma ExampleStringBlock()
    ensures Lexed("<%= \"Hello, world!\" %>") == [CodeStartString, Code(" \"Hello, world!\" "), EOF]
  {
    assert RenderToken(CodeStartString) + " \"Hello, world!\" " + "%>" == "<%= \"Hello, world!\" %>";
    NoPercent(" \"Hello, world!\" ");
    ClosedBlock(CodeStartString, " \"Hello, world!\" ");
  }

  lemma ExampleCommentBlock()
    ensures Lexed("<%# This is a comment %>") == [CodeComment, Code(" This is a comment "), EOF]
  {
    assert RenderToken(CodeComment) + " This is a comment " + "%>" == "<%# This is a comment %>";
    NoPercent(" This is a comment ");
    ClosedBlock(CodeComment, " This is a comment ");
  }

  /** A literal run in front of a well-formed sequence that may follow one. */
  lemma WellFormedHtmlCons(h: string, t: seq<HustToken>)
    requires h != [] && NoOpen(h) && WellFormed(t)
    requires t[0].EOF? || t[0].IsCodeStart()
    requires t[0].EOF? ==> h != "<"
    ensures WellFormed([Html(h)] + t)
    ensures Render([Html(h)] + t) == h + Render(t)
  {
    assert ([Html(h)] + t)[1..] == t;
  }

  /** A code block in front of a well-formed sequence. */
  lemma WellFormedBlockCons(start: HustToken, c: string, t: seq<HustToken>)
    requires start.IsCodeStart() && NoClose(c) && WellFormed(t)
    requires start.CodeStartSilent? ==> !StartsWithMarker(c)
    ensures WellFormed([start, Code(c)] + t)
    ensures Render([start, Code(c)] + t) == RenderToken(start) + ((c + "%>") + Render(t))
  {
    var ts := [start, Code(c)] + t;
    assert ts[2..] == t;
    assert ts[1..] == [Code(c)] + t;
    assert ts[1..][1..] == t;
  }

  /** A block between two literal runs is read back as those five tokens. */
  lemma HtmlBlockHtml(a: string, start: HustToken, c: string, b: string)
    requires a != [] && NoOpen(a) && b != [] && b != "<" && NoOpen(b)
    requires start.IsCodeStart() && NoClose(c)
    requires start.CodeStartSilent? ==> !StartsWithMarker(c)
    ensures Lexed(a + RenderToken(start) + c + "%>" + b) == [Html(a), start, Code(c), Html(b), EOF]
  {
    assert WellFormed([EOF]);
    WellFormedHtmlCons(b, [EOF]);
    RenderOne(EOF);
    var t2 := [Html(b)] + [EOF];
    WellFormedBlockCons(start, c, t2);
    var t1 := [start, Code(c)] + t2;
    WellFormedHtmlCons(a, t1);
    var ts := [Html(a)] + t1;
    assert ts == [Html(a), start, Code(c), Html(b), EOF];
    assert Render(ts) == a + (RenderToken(start) + ((c + "%>") + (b + "")));
    assert a + (RenderToken(start) + ((c + "%>") + (b + ""))) == a + RenderToken(start) + c + "%>" + b;
    LexRender(ts);
  }

  lemma ExampleMixed()
    ensures Lexed("<div><%= \"Hello\" %></div>")
      == [Html("<div>"), CodeStartString, Code(" \"Hello\" "), Html("</div>"), EOF]
  {
    assert "<div>" + RenderToken(CodeStartString) + " \"Hello\" " + "%>" + "</div>" == "<div><%= \"Hello\" %></div>";
    NoPercent("<div>");
    NoPercent(" \"Hello\" ");
    NoPercent("</div>");
    HtmlBlockHtml("<div>", CodeStartString, " \"Hello\" ", "</div>");
  }
}
