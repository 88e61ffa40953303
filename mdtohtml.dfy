/**
  `OutputFormatter._convert_markdown_to_html`: escape the text, turn heading lines into `h1` to
  `h3` elements, bold and italic spans into `strong` and `em`, and every paragraph (text between
  blank lines) that does not open with a heading tag into a `p` element.
*/
module MdToHtml {
  import opened Wrappers
  import opened PyStr
  import opened HtmlEscape
  import opened MdSpans

  /**
    A line `# text`, `## text` or `### text` as its heading element, any other line as it is.
    Under `re.MULTILINE` the lazy `(.*?)$` runs to the end of the line, and a line converted by
    one of the three passes opens with `<`, so no later pass matches it.
  */
  function HeadingLine(line: string): string {
    if StartsWith(line, "# ") then "<h1>" + line[2..] + "</h1>"
    else if StartsWith(line, "## ") then "<h2>" + line[3..] + "</h2>"
    else if StartsWith(line, "### ") then "<h3>" + line[4..] + "</h3>"
    else line
  }

  function HeadingLines(lines: seq<string>): seq<string> {
    if lines == [] then [] else [HeadingLine(lines[0])] + HeadingLines(lines[1..])
  }

  /** `re.sub(r'^# (.*?)$', r'<h1>\1</h1>', ...)` and the same for `##` and `###`. */
  function HeadingTags(s: string): string {
    Join("\n", HeadingLines(Split(s, "\n")))
  }

  /** `re.match(r'^<[hH][1-6]>', p)` */
  predicate TagOpen(p: string) {
    |p| >= 4 && p[0] == '<' && (p[1] == 'h' || p[1] == 'H') && '1' <= p[2] <= '6' && p[3] == '>'
  }

  /** The HTML element a paragraph becomes, if any, from the paragraph stripped. */
  function ParagraphElement(p: string): string {
    if TagOpen(p) then p else "<p>" + ReplaceChar(p, '\n', "<br>") + "</p>"
  }

  /** One turn of the paragraph loop: nothing for a blank paragraph, its element otherwise. */
  function RenderParagraph(para: string): seq<string> {
    var p := Strip(para);
    if p == [] then [] else [ParagraphElement(p)]
  }

  function RenderParagraphs(paras: seq<string>): seq<string>
    decreases |paras|
  {
    if paras == [] then [] else RenderParagraphs(paras[..|paras| - 1]) + RenderParagraph(paras[|paras| - 1])
  }

  /** The paragraph half of the conversion: split on blank lines, render, join with newlines. */
  function ParagraphsOf(content: string): string {
    Join("\n", RenderParagraphs(Split(content, "\n\n")))
  }

  /** `_convert_markdown_to_html(content)` */
  function ToHtml(content: string): string {
    var escaped := Escape(content);
    var headed := HeadingTags(escaped);
    var bold := Spans(headed, Double, "<strong>", "</strong>");
    var italic := Spans(bold, Single, "<em>", "</em>");
    ParagraphsOf(italic)
  }

  /** The paragraph loop of `_convert_markdown_to_html`. */
  method ConvertParagraphs(content: string) returns (html: string)
    ensures html == ParagraphsOf(content)
  {
    var paragraphs := Split(content, "\n\n");
    var htmlParagraphs: seq<string> := [];
    var i := 0;
    while i < |paragraphs|
      invariant 0 <= i <= |paragraphs|
      invariant htmlParagraphs == RenderParagraphs(paragraphs[..i])
    {
      var rendered := RenderOne(paragraphs[i]);
      htmlParagraphs := htmlParagraphs + rendered;
      RenderStep(paragraphs, i);
      i := i + 1;
    }
    assert paragraphs[..i] == paragraphs;
    html := Join("\n", htmlParagraphs);
  }

  /** The body of the paragraph loop: strip the paragraph, skip it when blank, wrap it in `p` unless it opens with a heading tag. */
  method RenderOne(para: string) returns (rendered: seq<string>)
    ensures rendered == RenderParagraph(para)
  {
    var p := Strip(para);
    rendered := [];
    if p != [] {
      if !TagOpen(p) {
        p := "<p>" + ReplaceChar(p, '\n', "<br>") + "</p>";
      }
      rendered := [p];
    }
  }

  lemma RenderStep(paras: seq<string>, i: nat)
    requires i < |paras|
    ensures RenderParagraphs(paras[..i + 1]) == RenderParagraphs(paras[..i]) + RenderParagraph(paras[i])
  {
    assert paras[..i + 1][..i] == paras[..i];
  }

  method ConvertMarkdownToHtml(content: string) returns (html: string)
    ensures html == ToHtml(content)
  {
    var c := Escape(content);
    c := HeadingTags(c);
    c := Spans(c, Double, "<strong>", "</strong>");
    c := Spans(c, Single, "<em>", "</em>");
    html := ConvertParagraphs(c);
  }

  // The shape of the paragraphs.

  /** Every element is non-empty; one that does not open with a heading tag is a single-line `p` element. */
  predicate WellFormedElement(q: string) {
    q != [] && (TagOpen(q) || (StartsWith(q, "<p>") && EndsWith(q, "</p>") && '\n' !in q))
  }

  lemma {:induction false} ReplaceCharGone(s: string, c: char, rep: string)
    requires c !in rep
    ensures c !in ReplaceChar(s, c, rep)
  {
    if s != [] {
      ReplaceCharGone(s[1..], c, rep);
    }
  }

  lemma ElementWellFormed(p: string)
    requires p != []
    ensures WellFormedElement(ParagraphElement(p))
  {
    if !TagOpen(p) {
      var r := ReplaceChar(p, '\n', "<br>");
      ReplaceCharGone(p, '\n', "<br>");
      var q := "<p>" + r + "</p>";
      assert q == "<p>" + (r + "</p>");
      StartsWithAppend("<p>", r + "</p>");
      assert q[|q| - 4..] == "</p>";
    }
  }

  /** Blank paragraphs are dropped and every other one becomes a well-formed element. */
  lemma {:induction false} ParagraphsWellFormed(paras: seq<string>)
    ensures forall q :: q in RenderParagraphs(paras) ==> WellFormedElement(q)
    decreases |paras|
  {
    if paras != [] {
      ParagraphsWellFormed(paras[..|paras| - 1]);
      var p := Strip(paras[|paras| - 1]);
      if p != [] {
        ElementWellFormed(p);
      }
    }
  }

  /** Exactly the paragraphs that are not blank are rendered, in order. */
  lemma {:induction false} ParagraphsCount(paras: seq<string>)
    ensures |RenderParagraphs(paras)| <= |paras|
    ensures (forall p :: p in paras ==> Strip(p) != []) ==> |RenderParagraphs(paras)| == |paras|
    decreases |paras|
  {
    if paras != [] {
      ParagraphsCount(paras[..|paras| - 1]);
      assert forall p :: p in paras[..|paras| - 1] ==> p in paras;
      assert paras[|paras| - 1] in paras;
    }
  }

  // No quote survives: the converted text cannot close an attribute value.

  predicate QuoteFree(s: string) {
    forall x :: x in s ==> x != '"' && x != '\''
  }

  lemma EscapeQuoteFree(s: string)
    ensures QuoteFree(Escape(s))
  {
    EscapeSafe(s);
  }

  lemma {:induction false} JoinQuoteFree(sep: string, parts: seq<string>)
    requires QuoteFree(sep) && forall p :: p in parts ==> QuoteFree(p)
    ensures QuoteFree(Join(sep, parts))
  {
    if |parts| > 1 {
      assert parts[0] in parts;
      assert forall p :: p in parts[1..] ==> p in parts;
      JoinQuoteFree(sep, parts[1..]);
    } else if |parts| == 1 {
      assert parts[0] in parts;
    }
  }

  lemma SplitQuoteFree(s: string, sep: string)
    requires sep != [] && QuoteFree(s)
    ensures forall p :: p in Split(s, sep) ==> QuoteFree(p)
  {
    SplitChars(s, sep);
  }

  lemma SliceQuoteFree(s: string, k: nat)
    requires k <= |s| && QuoteFree(s)
    ensures QuoteFree(s[k..])
  {
    assert forall x :: x in s[k..] ==> x in s;
  }

  lemma WrapQuoteFree(a: string, t: string, b: string)
    requires QuoteFree(a) && QuoteFree(t) && QuoteFree(b)
    ensures QuoteFree(a + t + b)
  {
  }

  lemma HeadingLineQuoteFree(line: string)
    requires QuoteFree(line)
    ensures QuoteFree(HeadingLine(line))
  {
    if StartsWith(line, "# ") {
      SliceQuoteFree(line, 2);
      WrapQuoteFree("<h1>", line[2..], "</h1>");
    } else if StartsWith(line, "## ") {
      SliceQuoteFree(line, 3);
      WrapQuoteFree("<h2>", line[3..], "</h2>");
    } else if StartsWith(line, "### ") {
      SliceQuoteFree(line, 4);
      WrapQuoteFree("<h3>", line[4..], "</h3>");
    }
  }

  lemma {:induction false} HeadingLinesQuoteFree(lines: seq<string>)
    requires forall l :: l in lines ==> QuoteFree(l)
    ensures forall l :: l in HeadingLines(lines) ==> QuoteFree(l)
  {
    if lines != [] {
      assert lines[0] in lines;
      HeadingLineQuoteFree(lines[0]);
      assert forall l :: l in lines[1..] ==> l in lines;
      HeadingLinesQuoteFree(lines[1..]);
    }
  }

  lemma HeadingTagsQuoteFree(s: string)
    requires QuoteFree(s)
    ensures QuoteFree(HeadingTags(s))
  {
    SplitQuoteFree(s, "\n");
    HeadingLinesQuoteFree(Split(s, "\n"));
    JoinQuoteFree("\n", HeadingLines(Split(s, "\n")));
  }

  lemma SpansQuoteFree(s: string, m: Marker, open: string, close: string)
    requires QuoteFree(s) && QuoteFree(open) && QuoteFree(close)
    ensures QuoteFree(Spans(s, m, open, close))
  {
    SpansChars(s, m, open, close);
  }

  lemma {:induction false} ReplaceCharChars(s: string, c: char, rep: string)
    ensures forall x :: x in ReplaceChar(s, c, rep) ==> x in s || x in rep
  {
    if s != [] {
      ReplaceCharChars(s[1..], c, rep);
      assert forall x :: x in s[1..] ==> x in s;
    }
  }

  lemma ElementQuoteFree(p: string)
    requires QuoteFree(p)
    ensures QuoteFree(ParagraphElement(p))
  {
    if !TagOpen(p) {
      var r := ReplaceChar(p, '\n', "<br>");
      ReplaceCharChars(p, '\n', "<br>");
      assert QuoteFree(r);
      WrapQuoteFree("<p>", r, "</p>");
    }
  }

  lemma RenderParagraphQuoteFree(para: string)
    requires QuoteFree(para)
    ensures forall q :: q in RenderParagraph(para) ==> QuoteFree(q)
  {
    var p := Strip(para);
    StripQuoteFree(para);
    if p != [] {
      ElementQuoteFree(p);
      assert RenderParagraph(para) == [ParagraphElement(p)];
    } else {
      assert RenderParagraph(para) == [];
    }
  }

  lemma StripQuoteFree(s: string)
    requires QuoteFree(s)
    ensures QuoteFree(Strip(s))
  {
    StripChars(s);
  }

  lemma {:induction false} RenderParagraphsQuoteFree(paras: seq<string>)
    requires forall p :: p in paras ==> QuoteFree(p)
    ensures forall q :: q in RenderParagraphs(paras) ==> QuoteFree(q)
    decreases |paras|
  {
    if paras != [] {
      assert forall p :: p in paras[..|paras| - 1] ==> p in paras;
      RenderParagraphsQuoteFree(paras[..|paras| - 1]);
      assert paras[|paras| - 1] in paras;
      RenderParagraphQuoteFree(paras[|paras| - 1]);
    }
  }

  lemma ParagraphsQuoteFree(s: string)
    requires QuoteFree(s)
    ensures QuoteFree(ParagraphsOf(s))
  {
    SplitQuoteFree(s, "\n\n");
    RenderParagraphsQuoteFree(Split(s, "\n\n"));
    JoinQuoteFree("\n", RenderParagraphs(Split(s, "\n\n")));
  }

  /** Whatever the content, the converted text holds no `"` and no `'`: every quote was escaped. */
  lemma ToHtmlQuoteFree(content: string)
    ensures QuoteFree(ToHtml(content))
  {
    var escaped := Escape(content);
    EscapeQuoteFree(content);
    var headed := HeadingTags(escaped);
    HeadingTagsQuoteFree(escaped);
    var bold := Spans(headed, Double, "<strong>", "</strong>");
    SpansQuoteFree(headed, Double, "<strong>", "</strong>");
    SpansQuoteFree(bold, Single, "<em>", "</em>");
    ParagraphsQuoteFree(Spans(bold, Single, "<em>", "</em>"));
  }

  /** The whole conversion yields well-formed elements, one per paragraph that is not blank. */
  lemma ToHtmlParagraphs(content: string)
    ensures var paras := RenderParagraphs(Split(Spans(Spans(HeadingTags(Escape(content)), Double, "<strong>", "</strong>"), Single, "<em>", "</em>"), "\n\n"));
      ToHtml(content) == Join("\n", paras) && forall q :: q in paras ==> WellFormedElement(q)
  {
    ParagraphsWellFormed(Split(Spans(Spans(HeadingTags(Escape(content)), Double, "<strong>", "</strong>"), Single, "<em>", "</em>"), "\n\n"));
  }

  // Plain text.

  /** A character no step of the conversion rewrites. */
  predicate PlainChar(x: char) {
    !Special(x) && x != '*' && x != '\n'
  }

  /** Text that is a single plain line passes through everything but the paragraph wrapping. */
  predicate PlainLine(t: string) {
    t != [] && Trimmed(t) && t[0] != '#' && forall x :: x in t ==> PlainChar(x)
  }

  lemma {:induction false} ReplaceCharAbsent(s: string, c: char, rep: string)
    requires c !in s
    ensures ReplaceChar(s, c, rep) == s
  {
    if s != [] {
      ReplaceCharAbsent(s[1..], c, rep);
    }
  }

  lemma HeadingTagsPlain(t: string)
    requires '\n' !in t && (t == [] || t[0] != '#')
    ensures HeadingTags(t) == t
  {
    SplitWithoutSeparator(t, "\n");
    assert HeadingLines([t]) == [HeadingLine(t)];
    if t != [] {
      NotStartsWith(t, "# ");
      NotStartsWith(t, "## ");
      NotStartsWith(t, "### ");
    }
  }

  lemma ParagraphsOne(p: string)
    requires '\n' !in p && p != [] && Trimmed(p)
    ensures ParagraphsOf(p) == ParagraphElement(p)
  {
    SplitWithoutSeparator(p, "\n\n");
    StripKeeps(p);
    assert [p][..0] == [];
    assert RenderParagraphs([p]) == RenderParagraphs([]) + RenderParagraph(p);
  }

  lemma PlainFacts(t: string)
    requires PlainLine(t)
    ensures '*' !in t && '\n' !in t && forall x :: x in t ==> !Special(x)
    ensures !TagOpen(t)
  {
    assert t[0] in t;
  }

  /** A plain line becomes one `p` element holding it. */
  lemma ToHtmlPlain(t: string)
    requires PlainLine(t)
    ensures ToHtml(t) == "<p>" + t + "</p>"
  {
    PlainFacts(t);
    EscapePlain(t);
    HeadingTagsPlain(t);
    SpansPlain(t, Double, "<strong>", "</strong>");
    SpansPlain(t, Single, "<em>", "</em>");
    ParagraphsOne(t);
    ReplaceCharAbsent(t, '\n', "<br>");
  }

  lemma HeadingPlain(t: string)
    requires PlainLine(t)
    ensures forall x :: x in "# " + t ==> !Special(x)
    ensures '\n' !in "# " + t
  {
    PlainFacts(t);
  }

  lemma HeadingTagsOne(t: string)
    requires '\n' !in t
    ensures HeadingTags("# " + t) == "<h1>" + t + "</h1>"
  {
    var s := "# " + t;
    assert '\n' !in s;
    SplitWithoutSeparator(s, "\n");
    assert HeadingLines([s]) == [HeadingLine(s)];
    StartsWithAppend("# ", t);
    assert s[2..] == t;
  }

  lemma H1Facts(t: string)
    requires '*' !in t && '\n' !in t
    ensures var h := "<h1>" + t + "</h1>"; '*' !in h && '\n' !in h && TagOpen(h) && Trimmed(h)
  {
  }

  /** A `# ` line of plain text becomes an `h1` element and is not wrapped in a paragraph. */
  lemma ToHtmlHeading(t: string)
    requires PlainLine(t)
    ensures ToHtml("# " + t) == "<h1>" + t + "</h1>"
  {
    var s := "# " + t;
    var h := "<h1>" + t + "</h1>";
    PlainFacts(t);
    HeadingPlain(t);
    H1Facts(t);
    calc {
      ToHtml(s);
      { EscapePlain(s); }
      ParagraphsOf(Spans(Spans(HeadingTags(s), Double, "<strong>", "</strong>"), Single, "<em>", "</em>"));
      { HeadingTagsOne(t); }
      ParagraphsOf(Spans(Spans(h, Double, "<strong>", "</strong>"), Single, "<em>", "</em>"));
      { SpansPlain(h, Double, "<strong>", "</strong>"); SpansPlain(h, Single, "<em>", "</em>"); }
      ParagraphsOf(h);
      { ParagraphsOne(h); }
      h;
    }
  }
}
