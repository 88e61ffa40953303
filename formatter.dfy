/**
  `OutputFormatter`: the four renderings of a text and its metadata (Markdown, HTML, plain
  text, a JSON record), the dispatch between them with its fail-open catch, and the two
  entry points that build the metadata or pick the format by name.
*/
module Formatter {
  import opened Wrappers
  import opened PyStr
  import opened Metadata
  import MdEnhance
  import MdToHtml
  import MdStrip

  /** `OutputFormat` */
  datatype OutputFormat = Markdown | Html | Text | Json

  /** A line emitted only when its condition holds. */
  function LineIf(cond: bool, line: string): seq<string> {
    if cond then [line] else []
  }

  /** `if metadata.get(key): result.append(f"{caption}{metadata[key]}")` */
  function Field(m: Metadata, key: string, caption: string): seq<string> {
    LineIf(Has(m, key), caption + Show(Get(m, key)))
  }

  /** The same with the value inside markup: `before`, the value, `after`. */
  function Wrapped(m: Metadata, key: string, before: string, after: string): seq<string> {
    LineIf(Has(m, key), before + Show(Get(m, key)) + after)
  }

  /** `metadata and any(key in metadata for key in ['word_count', 'char_count'])` */
  predicate HasStats(m: Metadata) {
    "word_count" in m || "char_count" in m
  }

  /** How many lines a field contributes: one when its value is truthy. */
  function Shown(m: Metadata, key: string): nat {
    if Has(m, key) then 1 else 0
  }


  // Markdown.

  const MdSource: string := "**来源**: "
  const MdTime: string := "**生成时间**: "
  const MdTemplate: string := "**风格模板**: "
  const MdWords: string := "- 字数: "
  const MdChars: string := "- 字符数: "

  /** The `---` header: present only for non-empty metadata. */
  function MarkdownHeader(m: Metadata): seq<string> {
    if |m| == 0 then []
    else ["---"] + Field(m, "source_url", MdSource) + Field(m, "timestamp", MdTime)
         + Field(m, "template", MdTemplate) + ["---\n"]
  }

  /** The statistics block: present only when a count key is. */
  function MarkdownStats(m: Metadata): seq<string> {
    if !HasStats(m) then []
    else ["\n---", "**统计信息**"] + Field(m, "word_count", MdWords) + Field(m, "char_count", MdChars)
  }

  /** The lines of the Markdown rendering around an already enhanced `body`. */
  function MarkdownLines(body: string, m: Metadata): seq<string> {
    MarkdownHeader(m) + [body] + MarkdownStats(m)
  }

  /** `_format_as_markdown(content, metadata)` */
  function MarkdownOf(content: string, m: Metadata): string {
    Join("\n", MarkdownLines(MdEnhance.Enhance(content), m))
  }

  /** The header block, one line at a time. */
  method HeaderLines(m: Metadata) returns (block: seq<string>)
    requires |m| > 0
    ensures block == MarkdownHeader(m)
  {
    block := ["---"];
    if Has(m, "source_url") {
      block := block + [MdSource + Show(Get(m, "source_url"))];
    }
    if Has(m, "timestamp") {
      block := block + [MdTime + Show(Get(m, "timestamp"))];
    }
    if Has(m, "template") {
      block := block + [MdTemplate + Show(Get(m, "template"))];
    }
    block := block + ["---\n"];
  }

  /** The statistics block, one line at a time. */
  method StatsLines(m: Metadata) returns (block: seq<string>)
    requires HasStats(m)
    ensures block == MarkdownStats(m)
  {
    block := ["\n---", "**统计信息**"];
    if Has(m, "word_count") {
      block := block + [MdWords + Show(Get(m, "word_count"))];
    }
    if Has(m, "char_count") {
      block := block + [MdChars + Show(Get(m, "char_count"))];
    }
  }

  method FormatAsMarkdown(content: string, m: Metadata) returns (out: string)
    ensures out == MarkdownOf(content, m)
  {
    var result: seq<string> := [];
    if |m| > 0 {
      result := HeaderLines(m);
    }
    var formattedContent := MdEnhance.Enhance(content);
    result := result + [formattedContent];
    var stats: seq<string> := [];
    if HasStats(m) {
      stats := StatsLines(m);
    }
    result := result + stats;
    out := Join("\n", result);
  }

  /** Without metadata the Markdown rendering is the enhanced text alone. */
  lemma MarkdownBare(body: string, m: Metadata)
    requires |m| == 0
    ensures Join("\n", MarkdownLines(body, m)) == body
  {
    assert m == map[];
    assert MarkdownLines(body, m) == [body];
  }

  lemma HeaderFraming(m: Metadata)
    requires |m| > 0
    ensures MarkdownHeader(m) != []
    ensures StartsWith(Join("\n", MarkdownHeader(m)), "---\n")
    ensures EndsWith(Join("\n", MarkdownHeader(m)), "---\n")
  {
    var h := MarkdownHeader(m);
    var rest := h[1..];
    assert h == ["---"] + rest;
    JoinCons("\n", "---", rest);
    assert Join("\n", h) == "---\n" + Join("\n", rest);
    StartsWithAppend("---\n", Join("\n", rest));
    JoinEndsWith("\n", h);
  }

  /**
    With metadata, the rendering is the header, framed by `---` lines, a blank line, the
    enhanced text, and the statistics block behind a `---` line when a count key is present.
  */
  lemma MarkdownLayout(body: string, m: Metadata)
    requires |m| > 0
    ensures var header := Join("\n", MarkdownHeader(m));
      && StartsWith(header, "---\n") && EndsWith(header, "---\n")
      && Join("\n", MarkdownLines(body, m)) == header + "\n" + body
           + (if HasStats(m) then "\n" + Join("\n", MarkdownStats(m)) else "")
  {
    HeaderFraming(m);
    var h := MarkdownHeader(m);
    var e := [body];
    var s := MarkdownStats(m);
    JoinAppend("\n", h, e);
    if HasStats(m) {
      JoinAppend("\n", h + e, s);
      StatsOpen(m);
    } else {
      assert MarkdownLines(body, m) == h + e;
    }
  }

  lemma StatsOpen(m: Metadata)
    requires HasStats(m)
    ensures MarkdownStats(m) != [] && StartsWith(Join("\n", MarkdownStats(m)), "\n---" + "\n" + "**统计信息**")
  {
    JoinOpens("\n", "\n---", "**统计信息**", Field(m, "word_count", MdWords), Field(m, "char_count", MdChars));
  }

  /** A join of lines `a`, `b` and more opens with `a`, the separator and `b`. */
  lemma JoinOpens(sep: string, a: string, b: string, t1: seq<string>, t2: seq<string>)
    ensures StartsWith(Join(sep, [a, b] + t1 + t2), a + sep + b)
  {
    var tail := t1 + t2;
    assert [a, b] + t1 + t2 == [a] + ([b] + tail);
    if tail == [] {
      JoinCons(sep, a, [b]);
      StartsWithAppend(a + sep + b, []);
      assert a + sep + b + [] == a + sep + b;
    } else {
      JoinCons(sep, a, [b] + tail);
      JoinCons(sep, b, tail);
      assert Join(sep, [a, b] + t1 + t2) == a + sep + b + (sep + Join(sep, tail));
      StartsWithAppend(a + sep + b, sep + Join(sep, tail));
    }
  }

  /** Two lines whose captions differ at some position are different. */
  lemma Differ(p: string, x: string, q: string, y: string, i: nat)
    requires i < |p| && i < |q| && p[i] != q[i]
    ensures p + x != q + y
  {
    assert (p + x)[i] == p[i] && (q + y)[i] == q[i];
  }

  /** Two lines behind the same caption are equal only when what follows it is. */
  lemma Cancel(p: string, x: string, y: string)
    requires p + x == p + y
    ensures x == y
  {
    assert x == (p + x)[|p|..];
    assert y == (p + y)[|p|..];
  }

  lemma FieldMember(m: Metadata, key: string, caption: string, u: string)
    ensures caption + u in Field(m, key, caption) <==> Has(m, key) && u == Show(Get(m, key))
  {
    if caption + u in Field(m, key, caption) {
      Cancel(caption, u, Show(Get(m, key)));
    }
  }

  lemma FieldAbsent(m: Metadata, key: string, caption: string, line: string)
    requires forall v :: line != caption + v
    ensures line !in Field(m, key, caption)
  {
    var v := Show(Get(m, key));
    assert line != caption + v;
  }

  /** The header shows the source line exactly when `source_url` is truthy, and shows its value. */
  lemma MarkdownShowsSource(m: Metadata, u: string)
    ensures MdSource + u in MarkdownHeader(m) <==> Has(m, "source_url") && u == Show(Get(m, "source_url"))
  {
    var line := MdSource + u;
    FieldMember(m, "source_url", MdSource, u);
    forall v ensures line != MdTime + v { Differ(MdSource, u, MdTime, v, 2); }
    forall v ensures line != MdTemplate + v { Differ(MdSource, u, MdTemplate, v, 2); }
    FieldAbsent(m, "timestamp", MdTime, line);
    FieldAbsent(m, "template", MdTemplate, line);
    assert line != "---" && line != "---\n" by { assert line[0] == '*'; }
    if Has(m, "source_url") {
      assert |m| > 0;
    }
  }

  /** The header shows the time line exactly when `timestamp` is truthy, and shows its value. */
  lemma MarkdownShowsTime(m: Metadata, t: string)
    ensures MdTime + t in MarkdownHeader(m) <==> Has(m, "timestamp") && t == Show(Get(m, "timestamp"))
  {
    var line := MdTime + t;
    FieldMember(m, "timestamp", MdTime, t);
    forall v ensures line != MdSource + v { Differ(MdTime, t, MdSource, v, 2); }
    forall v ensures line != MdTemplate + v { Differ(MdTime, t, MdTemplate, v, 2); }
    FieldAbsent(m, "source_url", MdSource, line);
    FieldAbsent(m, "template", MdTemplate, line);
    assert line != "---" && line != "---\n" by { assert line[0] == '*'; }
    if Has(m, "timestamp") {
      assert |m| > 0;
    }
  }

  /** The header shows the template line exactly when `template` is truthy, and shows its value. */
  lemma MarkdownShowsTemplate(m: Metadata, t: string)
    ensures MdTemplate + t in MarkdownHeader(m) <==> Has(m, "template") && t == Show(Get(m, "template"))
  {
    var line := MdTemplate + t;
    FieldMember(m, "template", MdTemplate, t);
    forall v ensures line != MdSource + v { Differ(MdTemplate, t, MdSource, v, 2); }
    forall v ensures line != MdTime + v { Differ(MdTemplate, t, MdTime, v, 2); }
    FieldAbsent(m, "source_url", MdSource, line);
    FieldAbsent(m, "timestamp", MdTime, line);
    assert line != "---" && line != "---\n" by { assert line[0] == '*'; }
    if Has(m, "template") {
      assert |m| > 0;
    }
  }

  /** The statistics block shows the word count exactly when `word_count` is truthy. */
  lemma MarkdownShowsWords(m: Metadata, w: string)
    ensures MdWords + w in MarkdownStats(m) <==> Has(m, "word_count") && w == Show(Get(m, "word_count"))
  {
    var line := MdWords + w;
    FieldMember(m, "word_count", MdWords, w);
    forall v ensures line != MdChars + v { Differ(MdWords, w, MdChars, v, 3); }
    FieldAbsent(m, "char_count", MdChars, line);
    assert line != "\n---" && line != "**统计信息**" by { assert line[0] == '-' && line[1] == ' '; }
  }

  /** The statistics block shows the character count exactly when `char_count` is truthy. */
  lemma MarkdownShowsChars(m: Metadata, n: string)
    ensures MdChars + n in MarkdownStats(m) <==> Has(m, "char_count") && n == Show(Get(m, "char_count"))
  {
    var line := MdChars + n;
    FieldMember(m, "char_count", MdChars, n);
    forall v ensures line != MdWords + v { Differ(MdChars, n, MdWords, v, 3); }
    FieldAbsent(m, "word_count", MdWords, line);
    assert line != "\n---" && line != "**统计信息**" by { assert line[0] == '-' && line[1] == ' '; }
  }

  // HTML.

  /** `_get_html_styles()`: the stylesheet text, line by line. */
  const Stylesheet: string :=
    "\n" +
    "        body {\n" +
    "            font-family: -apple-system, BlinkMacSystemFont, 'Segoe UI', Roboto, sans-serif;\n" +
    "            line-height: 1.6;\n" +
    "            max-width: 800px;\n" +
    "            margin: 0 auto;\n" +
    "            padding: 20px;\n" +
    "            background-color: #f5f5f5;\n" +
    "        }\n" +
    "        \n" +
    "        .metadata {\n" +
    "            background: #e3f2fd;\n" +
    "            border-left: 4px solid #2196f3;\n" +
    "            padding: 15px;\n" +
    "            margin-bottom: 20px;\n" +
    "            border-radius: 4px;\n" +
    "        }\n" +
    "        \n" +
    "        .metadata h3 {\n" +
    "            margin-top: 0;\n" +
    "            color: #1976d2;\n" +
    "        }\n" +
    "        \n" +
    "        .content {\n" +
    "            background: white;\n" +
    "            padding: 30px;\n" +
    "            border-radius: 8px;\n" +
    "            box-shadow: 0 2px 10px rgba(0,0,0,0.1);\n" +
    "            margin-bottom: 20px;\n" +
    "        }\n" +
    "        \n" +
    "        .content h1, .content h2, .content h3 {\n" +
    "            color: #333;\n" +
    "            border-bottom: 2px solid #eee;\n" +
    "            padding-bottom: 10px;\n" +
    "        }\n" +
    "        \n" +
    "        .content p {\n" +
    "            margin-bottom: 15px;\n" +
    "            text-align: justify;\n" +
    "        }\n" +
    "        \n" +
    "        .stats {\n" +
    "            background: #f1f8e9;\n" +
    "            border-left: 4px solid #8bc34a;\n" +
    "            padding: 15px;\n" +
    "            border-radius: 4px;\n" +
    "        }\n" +
    "        \n" +
    "        .stats h3 {\n" +
    "            margin-top: 0;\n" +
    "            color: #689f38;\n" +
    "        }\n" +
    "        \n" +
    "        .stat-item {\n" +
    "            display: inline-block;\n" +
    "            background: #dcedc8;\n" +
    "            padding: 5px 10px;\n" +
    "            border-radius: 15px;\n" +
    "            margin-right: 10px;\n" +
    "            font-size: 14px;\n" +
    "        }\n" +
    "        \n" +
    "        a {\n" +
    "            color: #1976d2;\n" +
    "            text-decoration: none;\n" +
    "        }\n" +
    "        \n" +
    "        a:hover {\n" +
    "            text-decoration: underline;\n" +
    "        }\n" +
    "        "

  /** The page up to the body, with `styles` inside the `style` element. */
  function HtmlHead(styles: string): seq<string> {
    [
    "<!DOCTYPE html>",
    "<html lang=\"zh-CN\">",
    "<head>",
    "    <meta charset=\"UTF-8\">",
    "    <meta name=\"viewport\" content=\"width=device-width, initial-scale=1.0\">",
    "    <title>网页内容整理结果</title>",
    "    <style>",
    styles,
    "    </style>",
    "</head>",
    "<body>"
    ]
  }

  const HtmlTail: seq<string> := ["</body>", "</html>"]

  /** The line linking the source, with the URL as both target and text. */
  function SourceLink(u: string): string {
    "        <p><strong>来源:</strong> <a href=\"" + u + "\" target=\"_blank\">" + u + "</a></p>"
  }

  /** The metadata `div`: present only for non-empty metadata. */
  function HtmlMetadata(m: Metadata): seq<string> {
    if |m| == 0 then []
    else ["    <div class=\"metadata\">", "        <h3>\U{1F4CB} 信息概览</h3>"]
         + LineIf(Has(m, "source_url"), SourceLink(Show(Get(m, "source_url"))))
         + Wrapped(m, "timestamp", "        <p><strong>生成时间:</strong> ", "</p>")
         + Wrapped(m, "template", "        <p><strong>风格模板:</strong> ", "</p>")
         + ["    </div>"]
  }

  /** The content `div` around the converted text `body`. */
  function HtmlContent(body: string): seq<string> {
    ["    <div class=\"content\">", "        " + body, "    </div>"]
  }

  /** The statistics `div`: present only when a count key is. */
  function HtmlStats(m: Metadata): seq<string> {
    if !HasStats(m) then []
    else ["    <div class=\"stats\">", "        <h3>\U{1F4CA} 统计信息</h3>"]
         + Wrapped(m, "word_count", "        <span class=\"stat-item\">字数: ", "</span>")
         + Wrapped(m, "char_count", "        <span class=\"stat-item\">字符数: ", "</span>")
         + ["    </div>"]
  }

  /** The lines of the page around the converted text `body`. */
  function HtmlLines(styles: string, body: string, m: Metadata): seq<string> {
    HtmlHead(styles) + HtmlMetadata(m) + HtmlContent(body) + HtmlStats(m) + HtmlTail
  }

  /** `_format_as_html(content, metadata)`, with `styles` the stylesheet text. */
  function HtmlOf(styles: string, content: string, m: Metadata): string {
    Join("\n", HtmlLines(styles, MdToHtml.ToHtml(content), m))
  }

  /** The metadata `div`, one line at a time. */
  method MetadataDiv(m: Metadata) returns (block: seq<string>)
    requires |m| > 0
    ensures block == HtmlMetadata(m)
  {
    block := ["    <div class=\"metadata\">", "        <h3>\U{1F4CB} 信息概览</h3>"];
    if Has(m, "source_url") {
      block := block + [SourceLink(Show(Get(m, "source_url")))];
    }
    if Has(m, "timestamp") {
      block := block + ["        <p><strong>生成时间:</strong> " + Show(Get(m, "timestamp")) + "</p>"];
    }
    if Has(m, "template") {
      block := block + ["        <p><strong>风格模板:</strong> " + Show(Get(m, "template")) + "</p>"];
    }
    block := block + ["    </div>"];
  }

  /** The statistics `div`, one line at a time. */
  method StatsDiv(m: Metadata) returns (block: seq<string>)
    requires HasStats(m)
    ensures block == HtmlStats(m)
  {
    block := ["    <div class=\"stats\">", "        <h3>\U{1F4CA} 统计信息</h3>"];
    if Has(m, "word_count") {
      block := block + ["        <span class=\"stat-item\">字数: " + Show(Get(m, "word_count")) + "</span>"];
    }
    if Has(m, "char_count") {
      block := block + ["        <span class=\"stat-item\">字符数: " + Show(Get(m, "char_count")) + "</span>"];
    }
    block := block + ["    </div>"];
  }

  method FormatAsHtml(styles: string, content: string, m: Metadata) returns (out: string)
    ensures out == HtmlOf(styles, content, m)
  {
    var htmlParts := HtmlHead(styles);
    var metadataDiv: seq<string> := [];
    if |m| > 0 {
      metadataDiv := MetadataDiv(m);
    }
    htmlParts := htmlParts + metadataDiv;
    var formattedContent := MdToHtml.ConvertMarkdownToHtml(content);
    htmlParts := htmlParts + ["    <div class=\"content\">", "        " + formattedContent, "    </div>"];
    var statsDiv: seq<string> := [];
    if HasStats(m) {
      statsDiv := StatsDiv(m);
    }
    htmlParts := htmlParts + statsDiv;
    htmlParts := htmlParts + HtmlTail;
    out := Join("\n", htmlParts);
  }

  /** The document always opens with the doctype and closes with the `html` end tag. */
  lemma HtmlFramed(styles: string, body: string, m: Metadata)
    ensures StartsWith(Join("\n", HtmlLines(styles, body, m)), "<!DOCTYPE html>")
    ensures EndsWith(Join("\n", HtmlLines(styles, body, m)), "</html>")
  {
    var lines := HtmlLines(styles, body, m);
    assert lines[0] == "<!DOCTYPE html>";
    assert lines[|lines| - 1] == "</html>";
    JoinStartsWith("\n", lines);
    JoinEndsWith("\n", lines);
  }

  /** Indexing into the middle block of a concatenation. */
  lemma IndexMiddle(pre: seq<string>, block: seq<string>, post: seq<string>, j: nat)
    requires j < |block|
    ensures (pre + block + post)[|pre| + j] == block[j]
  {
  }

  /** The converted text sits on its own line inside the content `div`, right after the metadata block. */
  lemma HtmlContentLine(styles: string, body: string, m: Metadata)
    ensures var lines := HtmlLines(styles, body, m); var i := |HtmlHead(styles)| + |HtmlMetadata(m)| + 1;
      && i + 1 < |lines|
      && lines[i - 1] == "    <div class=\"content\">"
      && lines[i] == "        " + body
      && lines[i + 1] == "    </div>"
  {
    var pre := HtmlHead(styles) + HtmlMetadata(m);
    var block := HtmlContent(body);
    var post := HtmlStats(m) + HtmlTail;
    Regroup(HtmlHead(styles), HtmlMetadata(m), block, HtmlStats(m), HtmlTail);
    assert HtmlLines(styles, body, m) == pre + block + post by {
      Regroup3(pre, block, HtmlStats(m), HtmlTail);
    }
    IndexMiddle(pre, block, post, 0);
    IndexMiddle(pre, block, post, 1);
    IndexMiddle(pre, block, post, 2);
  }

  /**
    A quote-free body, as every converted text is, leaves the content line quote-free, so no
    attribute can be opened from the text.
  */
  lemma HtmlBodyQuoteFree(body: string)
    requires MdToHtml.QuoteFree(body)
    ensures MdToHtml.QuoteFree(HtmlContent(body)[1])
  {
    assert forall x :: x in "        " + body ==> x == ' ' || x in body;
  }

  lemma Regroup3(a: seq<string>, b: seq<string>, c: seq<string>, d: seq<string>)
    ensures a + b + c + d == a + b + (c + d)
  {
  }

  lemma Length5(a: seq<string>, b: seq<string>, c: seq<string>, d: seq<string>, e: seq<string>)
    ensures |a + b + c + d + e| == |a| + |b| + |c| + |d| + |e|
  {
  }

  lemma SizeIf(cond: bool, line: string)
    ensures |LineIf(cond, line)| == if cond then 1 else 0
  {
  }

  lemma HtmlMetadataSize(m: Metadata)
    ensures |HtmlMetadata(m)| == if |m| > 0 then 3 + Shown(m, "source_url") + Shown(m, "timestamp") + Shown(m, "template") else 0
  {
  }

  lemma HtmlStatsSize(m: Metadata)
    ensures |HtmlStats(m)| == if HasStats(m) then 3 + Shown(m, "word_count") + Shown(m, "char_count") else 0
  {
  }

  /** The line count: the fixed sixteen, plus each block's frame and its shown fields. */
  lemma HtmlLineCount(styles: string, body: string, m: Metadata)
    ensures |HtmlLines(styles, body, m)| == 16
      + (if |m| > 0 then 3 + Shown(m, "source_url") + Shown(m, "timestamp") + Shown(m, "template") else 0)
      + (if HasStats(m) then 3 + Shown(m, "word_count") + Shown(m, "char_count") else 0)
  {
    Length5(HtmlHead(styles), HtmlMetadata(m), HtmlContent(body), HtmlStats(m), HtmlTail);
    HtmlMetadataSize(m);
    HtmlStatsSize(m);
    assert |HtmlHead(styles)| == 11;
  }

  // Plain text.

  /** `"=" * 80` */
  function Rule(): string {
    Repeat('=', 80)
  }

  /** `"-" * 50` */
  function Dashes(): string {
    Repeat('-', 50)
  }

  function TextBanner(): seq<string> {
    [Rule(), "网页内容整理结果", Rule()]
  }

  /** The overview block: present only for non-empty metadata. */
  function TextMetadata(m: Metadata): seq<string> {
    if |m| == 0 then []
    else ["", "【信息概览】"] + Field(m, "source_url", "来源: ") + Field(m, "timestamp", "生成时间: ")
         + Field(m, "template", "风格模板: ")
  }

  /** The content block: the text with its Markdown marks removed. */
  function TextContent(content: string): seq<string> {
    ["", "【整理内容】", Dashes(), MdStrip.RemoveMarkdown(content)]
  }

  /** The statistics block: present only when a count key is. */
  function TextStats(m: Metadata): seq<string> {
    if !HasStats(m) then []
    else ["", Dashes(), "【统计信息】"] + Field(m, "word_count", "字数: ") + Field(m, "char_count", "字符数: ")
  }

  function TextLines(content: string, m: Metadata): seq<string> {
    TextBanner() + TextMetadata(m) + TextContent(content) + TextStats(m) + [Rule()]
  }

  /** `_format_as_text(content, metadata)` */
  function TextOf(content: string, m: Metadata): string {
    Join("\n", TextLines(content, m))
  }

  /** The overview block, one line at a time. */
  method OverviewLines(m: Metadata) returns (block: seq<string>)
    requires |m| > 0
    ensures block == TextMetadata(m)
  {
    block := ["", "【信息概览】"];
    if Has(m, "source_url") {
      block := block + ["来源: " + Show(Get(m, "source_url"))];
    }
    if Has(m, "timestamp") {
      block := block + ["生成时间: " + Show(Get(m, "timestamp"))];
    }
    if Has(m, "template") {
      block := block + ["风格模板: " + Show(Get(m, "template"))];
    }
  }

  /** The statistics block of the text, one line at a time. */
  method TextStatsLines(m: Metadata) returns (block: seq<string>)
    requires HasStats(m)
    ensures block == TextStats(m)
  {
    block := ["", Dashes(), "【统计信息】"];
    if Has(m, "word_count") {
      block := block + ["字数: " + Show(Get(m, "word_count"))];
    }
    if Has(m, "char_count") {
      block := block + ["字符数: " + Show(Get(m, "char_count"))];
    }
  }

  method FormatAsText(content: string, m: Metadata) returns (out: string)
    ensures out == TextOf(content, m)
  {
    var result := TextBanner();
    var overview: seq<string> := [];
    if |m| > 0 {
      overview := OverviewLines(m);
    }
    result := result + overview;
    var cleanContent := MdStrip.RemoveMarkdown(content);
    result := result + ["", "【整理内容】", Dashes(), cleanContent];
    var stats: seq<string> := [];
    if HasStats(m) {
      stats := TextStatsLines(m);
    }
    result := result + stats;
    result := result + [Rule()];
    out := Join("\n", result);
  }

  /** Regrouping five blocks of lines. */
  lemma Regroup(a: seq<string>, b: seq<string>, c: seq<string>, d: seq<string>, e: seq<string>)
    ensures a + b + c + d + e == a + (b + c + d + e)
    ensures a + b + c + d + e == (a + b + c + d) + e
  {
  }

  lemma Join3(sep: string, a: string, b: string, c: string)
    ensures Join(sep, [a, b, c]) == a + sep + b + sep + c
  {
    JoinCons(sep, a, [b, c]);
    JoinCons(sep, b, [c]);
  }

  lemma EndsWithAppend(p: string, q: string)
    ensures EndsWith(p + q, q)
  {
    assert (p + q)[|p + q| - |q|..] == q;
  }

  /** The text opens with the titled banner and closes with the rule of 80 `=`. */
  lemma TextFramed(content: string, m: Metadata)
    ensures StartsWith(TextOf(content, m), Rule() + "\n" + "网页内容整理结果" + "\n" + Rule() + "\n")
    ensures EndsWith(TextOf(content, m), "\n" + Rule())
  {
    var r := Rule();
    var banner := TextBanner();
    var rest := TextMetadata(m) + TextContent(content) + TextStats(m) + [r];
    Regroup(banner, TextMetadata(m), TextContent(content), TextStats(m), [r]);
    JoinAppend("\n", banner, rest);
    Join3("\n", r, "网页内容整理结果", r);
    StartsWithAppend(r + "\n" + "网页内容整理结果" + "\n" + r + "\n", Join("\n", rest));
    var front := banner + TextMetadata(m) + TextContent(content) + TextStats(m);
    JoinSnoc("\n", front, r);
    Assoc(Join("\n", front), "\n", r);
    EndsWithAppend(Join("\n", front), "\n" + r);
  }

  lemma Assoc(a: string, b: string, c: string)
    ensures a + b + c == a + (b + c)
  {
  }

  /** Without metadata the text has eight lines: the banner, the content heading and rule, the stripped text and the closing rule. */
  lemma TextBare(content: string, m: Metadata)
    requires |m| == 0
    ensures TextLines(content, m) ==
      [Rule(), "网页内容整理结果", Rule(), "", "【整理内容】", Dashes(), MdStrip.RemoveMarkdown(content), Rule()]
  {
    assert m == map[];
    assert TextMetadata(m) == [] && TextStats(m) == [];
    Eight(Rule(), "网页内容整理结果", "", "【整理内容】", Dashes(), MdStrip.RemoveMarkdown(content));
  }

  lemma Eight(r: string, t: string, e: string, h: string, d: string, c: string)
    ensures [r, t, r] + [] + [e, h, d, c] + [] + [r] == [r, t, r, e, h, d, c, r]
  {
  }

  /** The line count: the fixed eight, plus each block's frame and its shown fields. */
  lemma TextLineCount(content: string, m: Metadata)
    ensures |TextLines(content, m)| == 8
      + (if |m| > 0 then 2 + Shown(m, "source_url") + Shown(m, "timestamp") + Shown(m, "template") else 0)
      + (if HasStats(m) then 3 + Shown(m, "word_count") + Shown(m, "char_count") else 0)
  {
  }

  // JSON.

  /** The `statistics` object, recomputed from the content. */
  datatype Statistics = Statistics(characterCount: nat, wordCount: nat, lineCount: nat)

  /** The dictionary `_format_as_json` serialises; `metadata` is present only when truthy. */
  datatype JsonRecord = JsonRecord(content: string, timestamp: string, format: string,
                                   metadata: Option<Metadata>, statistics: Statistics)

  predicate AllSerialisable(m: Metadata) {
    forall k :: k in m ==> Serialisable(m[k])
  }

  /**
    `_format_as_json(content, metadata)` with `now` the ISO time: the record, or the `TypeError`
    of `json.dumps` when the metadata it includes holds a value JSON cannot represent.
  */
  function JsonOf(content: string, m: Metadata, now: string): Result<JsonRecord, string> {
    var data := JsonRecord(content, now, "json", if |m| > 0 then Some(m) else None,
                           Statistics(CharCount(content), WordCount(content), LineCount(content)));
    if |m| > 0 && !AllSerialisable(m) then Failure("TypeError") else Success(data)
  }

  /**
    The record holds the content as given, the time, the format name and the metadata exactly
    when it is non-empty; its statistics count characters, maximal whitespace-free runs and
    newlines plus one. Serialising fails exactly when included metadata holds a foreign value.
  */
  lemma JsonRecordFacts(content: string, m: Metadata, now: string)
    ensures JsonOf(content, m, now).Failure? <==> |m| > 0 && exists k :: k in m && !Serialisable(m[k])
    ensures JsonOf(content, m, now).Success? ==>
      var r := JsonOf(content, m, now).value;
      && r.content == content && r.timestamp == now && r.format == "json"
      && (r.metadata.Some? <==> |m| > 0) && (r.metadata.Some? ==> r.metadata.value == m)
      && r.statistics.characterCount == |content|
      && r.statistics.wordCount == RunStarts(content, true)
      && r.statistics.lineCount == Count(content, '\n') + 1
  {
    CountsMeaning(content);
  }

  // Dispatch.

  /** What `format_content` returns: a rendered document, or the JSON record to be serialised. */
  datatype Output = Document(text: string) | Record(json: JsonRecord)

  /** The `try` block of `format_content` for a chosen format, with its catch returning the content. */
  function Render(styles: string, f: OutputFormat, content: string, m: Metadata, now: string): Output {
    match f
    case Markdown => Document(MarkdownOf(content, m))
    case Html => Document(HtmlOf(styles, content, m))
    case Text => Document(TextOf(content, m))
    case Json =>
      match JsonOf(content, m, now)
      case Success(r) => Record(r)
      case Failure(_) => Document(content)
  }

  /**
    Rendering yields a record exactly for JSON that serialises, and that record is the one
    built; JSON that fails to serialise yields the content unchanged.
  */
  lemma RenderFailOpen(styles: string, f: OutputFormat, content: string, m: Metadata, now: string)
    ensures Render(styles, f, content, m, now).Record? <==> f == Json && (|m| == 0 || AllSerialisable(m))
    ensures f == Json && JsonOf(content, m, now).Success? ==> Render(styles, f, content, m, now) == Record(JsonOf(content, m, now).value)
    ensures f == Json && |m| > 0 && !AllSerialisable(m) ==> Render(styles, f, content, m, now) == Document(content)
  {
    if f != Json {
      assert Render(styles, f, content, m, now).Document?;
    }
  }

  /** `OutputFormatter`: the format used when none is asked for, and the stylesheet its HTML pages embed. */
  class OutputFormatter {
    const defaultFormat: OutputFormat
    const styles: string

    constructor (defaultFormat: OutputFormat)
      ensures this.defaultFormat == defaultFormat
      ensures styles == Stylesheet
    {
      this.defaultFormat := defaultFormat;
      styles := Stylesheet;
    }

    /** `format_content(content, format_type, metadata)`; `None` asks for the default format. */
    method FormatContent(content: string, formatType: Option<OutputFormat>, m: Metadata, now: string) returns (out: Output)
      ensures formatType.Some? ==> out == Render(styles, formatType.value, content, m, now)
      ensures formatType.None? ==> out == Render(styles, defaultFormat, content, m, now)
    {
      var f := if formatType.Some? then formatType.value else defaultFormat;
      match f {
        case Markdown =>
          var s := FormatAsMarkdown(content, m);
          out := Document(s);
        case Html =>
          var s := FormatAsHtml(styles, content, m);
          out := Document(s);
        case Text =>
          var s := FormatAsText(content, m);
          out := Document(s);
        case Json =>
          var r := JsonOf(content, m, now);
          if r.Failure? {
            out := Document(content);
          } else {
            out := Record(r.value);
          }
      }
    }

    /** `format_with_template(content, template_name, source_url, output_format)`, `stamp` the time `add_metadata` records. */
    method FormatWithTemplate(content: string, templateName: string, sourceUrl: string, outputFormat: Option<OutputFormat>,
                              stamp: string, now: string) returns (out: Output)
      ensures out == Render(styles, if outputFormat.Some? then outputFormat.value else defaultFormat,
                            content, MetadataOf(content, sourceUrl, templateName, map[], stamp), now)
    {
      var m := AddMetadata(content, sourceUrl, templateName, map[], stamp);
      out := FormatContent(content, outputFormat, m, now);
    }
  }

  /** A record built from a dictionary that describes the content: it serialises, carries that dictionary and agrees with its counts. */
  lemma DescribedJson(content: string, m: Metadata, now: string)
    requires Describes(m, content)
    ensures var r := JsonOf(content, m, now);
      && r.Success? && r.value.metadata == Some(m)
      && Get(m, "char_count") == Int(r.value.statistics.characterCount)
      && Get(m, "word_count") == Int(r.value.statistics.wordCount)
      && Get(m, "line_count") == Int(r.value.statistics.lineCount)
  {
    assert AllSerialisable(m);
  }

  /**
    With metadata it built itself, the JSON rendering never fails, carries that metadata, and
    its statistics agree with the counts the metadata recorded.
  */
  lemma TemplateJson(content: string, sourceUrl: string, templateName: string, stamp: string, now: string)
    ensures var m := MetadataOf(content, sourceUrl, templateName, map[], stamp);
      var r := JsonOf(content, m, now);
      && r.Success? && r.value.metadata == Some(m)
      && Get(m, "char_count") == Int(r.value.statistics.characterCount)
      && Get(m, "word_count") == Int(r.value.statistics.wordCount)
      && Get(m, "line_count") == Int(r.value.statistics.lineCount)
  {
    MetadataDescribes(content, sourceUrl, templateName, stamp);
    DescribedJson(content, MetadataOf(content, sourceUrl, templateName, map[], stamp), now);
  }

  /**
    With metadata it built itself, the Markdown rendering of any enhanced `body` always carries
    the header and the statistics block.
  */
  lemma TemplateMarkdown(content: string, sourceUrl: string, templateName: string, stamp: string, body: string)
    ensures var m := MetadataOf(content, sourceUrl, templateName, map[], stamp);
      Join("\n", MarkdownLines(body, m)) == Join("\n", MarkdownHeader(m)) + "\n" + body + "\n" + Join("\n", MarkdownStats(m))
  {
    var m := MetadataOf(content, sourceUrl, templateName, map[], stamp);
    MetadataHasStats(content, sourceUrl, templateName, map[], stamp);
    MarkdownLayout(body, m);
  }

  /** The format named by a `format_content_output` argument, compared case-insensitively; anything else is Markdown. */
  function FormatFromName(name: string): OutputFormat {
    var lower := ToLower(name);
    if lower == "html" then Html
    else if lower == "text" then Text
    else if lower == "json" then Json
    else Markdown
  }

  /** A name picks HTML, text or JSON exactly when its lower-case form is that format's name, and Markdown otherwise. */
  lemma FormatNames(name: string)
    ensures FormatFromName(name) == Html <==> ToLower(name) == "html"
    ensures FormatFromName(name) == Text <==> ToLower(name) == "text"
    ensures FormatFromName(name) == Json <==> ToLower(name) == "json"
    ensures FormatFromName(name) == Markdown <==> ToLower(name) != "html" && ToLower(name) != "text" && ToLower(name) != "json"
  {
  }

  /** Case does not matter: a name and its lower-case form pick the same format. */
  lemma FormatNamesIgnoreCase(name: string)
    ensures FormatFromName(ToLower(name)) == FormatFromName(name)
  {
    ToLowerIdempotent(name);
  }

  /** The format `format_content_output` asks for: the name lower-cased and compared with each format's name. */
  method FormatOfName(formatType: string) returns (formatEnum: OutputFormat)
    ensures formatEnum == FormatFromName(formatType)
  {
    formatEnum := Markdown;
    var lower := ToLower(formatType);
    if lower == "html" {
      formatEnum := Html;
    } else if lower == "text" {
      formatEnum := Text;
    } else if lower == "json" {
      formatEnum := Json;
    }
  }

  /** `format_content_output(content, format_type, metadata)`: a default formatter asked for the named format. */
  method FormatContentOutput(content: string, formatType: string, m: Metadata, now: string) returns (out: Output)
    ensures out == Render(Stylesheet, FormatFromName(formatType), content, m, now)
  {
    var formatter := new OutputFormatter(Markdown);
    var formatEnum := FormatOfName(formatType);
    out := formatter.FormatContent(content, Some(formatEnum), m, now);
  }
}
