/**
  `ContentProcessor.process_html` and `extract_readable_content`: filter the parsed document,
  run every extractor over the filtered tree, summarise the main content, and render the
  readable text from the result.
*/
module Processor {
  import opened Wrappers
  import opened PyStr
  import opened Dom
  import opened ElementFilter
  import opened Cleaning
  import opened Extractors
  import opened References
  import opened Summary

  /** The dictionary `process_html` returns. */
  datatype Record = Record(
    title: string, description: string, mainContent: string, summary: string, keywords: string,
    links: seq<Link>, images: seq<Image>)

  /** What `process_html` returns when anything inside it raises. */
  const EmptyRecord: Record := Record("", "", "", "", "", [], [])

  /**
    `process_html(html, base_url)` for the parsed document `doc`. The only exception the
    extractors can raise here is the one `urljoin` raises, and it yields the empty record.
  */
  function ProcessOf(doc: Node, base: Option<string>, resolve: Resolver, cfg: Config): Record {
    RecordFrom(RemoveUnwanted(doc), base, resolve, cfg)
  }

  /** The extractors, run over the filtered tree `root`. */
  function RecordFrom(root: Node, base: Option<string>, resolve: Resolver, cfg: Config): Record {
    var links := LinksOf(root, base, resolve);
    var images := ImagesOf(root, base, resolve);
    if links.None? || images.None? then EmptyRecord
    else
      var main := MainContentOf(root, cfg);
      Record(TitleOf(root), DescriptionOf(root), main, SummaryOf(main, DefaultMaxLength), KeywordsOf(root),
             links.value, images.value)
  }

  /**
    `process_html` with the class pass as the source writes it: where that pass raises (a
    denied element holds a classed element), the `except` branch yields the empty record.
  */
  function ProcessAsWritten(doc: Node, base: Option<string>, resolve: Resolver, cfg: Config): Record {
    match ClassPassAsWritten(WithoutTags(doc, RemoveTags))
    case None => EmptyRecord
    case Some(root) => RecordFrom(root, base, resolve, cfg)
  }

  /** The pipeline as written differs from the modelled one only where the class pass raises. */
  lemma ProcessAsWrittenAgrees(doc: Node, base: Option<string>, resolve: Resolver, cfg: Config)
    ensures ClassPassRaises(WithoutTags(doc, RemoveTags)) ==> ProcessAsWritten(doc, base, resolve, cfg) == EmptyRecord
    ensures !ClassPassRaises(WithoutTags(doc, RemoveTags)) ==>
      ProcessAsWritten(doc, base, resolve, cfg) == ProcessOf(doc, base, resolve, cfg)
  {
    var tagged := WithoutTags(doc, RemoveTags);
    assert RemoveUnwanted(doc) == Prune(tagged, ByDeniedClass);
  }

  /** `<div class="ad"><p class="note">x</p></div>`: the pipeline as written returns the empty record. */
  lemma NestedAdProcessedEmpty(base: Option<string>, resolve: Resolver, cfg: Config)
    ensures ProcessAsWritten(
      Element("[document]", map[], [Element("div", map["class" := "ad"], [Element("p", map["class" := "note"], [Text("x")])])]),
      base, resolve, cfg) == EmptyRecord
  {
    var p := Element("p", map["class" := "note"], [Text("x")]);
    var div := Element("div", map["class" := "ad"], [p]);
    var doc := Element("[document]", map[], [div]);
    DescendantsOfOnlyChild(p);
    DescendantsOfOnlyChild(div);
    DescendantsOfOnlyChild(doc);
    assert Descendants(doc) == [div, p, Text("x")];
    forall t | t in RemoveTags
      ensures Clean(doc, ByTag(t))
    {
    }
    WithoutTagsCleanIsIdentity(doc, RemoveTags);
    NestedClassedElementRaises();
  }

  /** Every field of the record keeps its bound. */
  lemma ProcessBounds(doc: Node, base: Option<string>, resolve: Resolver, cfg: Config)
    requires 0 <= cfg.maxTextLength
    ensures var r := ProcessOf(doc, base, resolve, cfg);
      && |r.mainContent| <= cfg.maxTextLength + 3
      && (|r.mainContent| >= MinContentLength ==> |r.summary| <= DefaultMaxLength + 1)
      && (|r.mainContent| < MinContentLength ==> r.summary == r.mainContent)
      && |r.links| <= MaxLinks && |r.images| <= MaxImages
      && (forall l :: l in r.links ==> l.text != [] && |l.text| <= MaxLabel)
      && (forall m :: m in r.images ==> |m.alt| <= MaxLabel)
      && (r.keywords != [] ==> |Split(r.keywords, ", ")| <= MaxKeywords)
  {
    var root := RemoveUnwanted(doc);
    var r := ProcessOf(doc, base, resolve, cfg);
    if r != EmptyRecord {
      MainContentBound(root, cfg);
      if |r.mainContent| >= MinContentLength {
        SummaryLength(r.mainContent, DefaultMaxLength);
      }
      LinksBound(root, base, resolve);
      ImagesBound(root, base, resolve);
      LinksWellFormed(root, base, resolve);
      ImagesWellFormed(root, base, resolve);
      KeywordsRoundTrip(root);
    } else {
      assert Split("", ", ") == [""];
    }
  }

  /** Title and description are cleaned: no control character and no whitespace but plain spaces. */
  lemma ProcessCleanFields(doc: Node, base: Option<string>, resolve: Resolver, cfg: Config)
    ensures var r := ProcessOf(doc, base, resolve, cfg);
      forall x :: (x in r.title || x in r.description) ==> !IsControl(x) && (IsSpace(x) ==> x == ' ')
  {
    var root := RemoveUnwanted(doc);
    ChosenIsClean(FirstCandidates(root, TitleField, TitleSelectors), 3);
    ChosenIsClean(FirstCandidates(root, DescriptionField, DescriptionSelectors), 10);
  }

  lemma ChosenIsClean(cands: seq<Option<string>>, threshold: int)
    ensures forall x :: x in Chosen(cands, threshold) ==> !IsControl(x) && (IsSpace(x) ==> x == ' ')
  {
    match FirstQualifying(cands, threshold)
    case None =>
    case Some(i) =>
      CleanTextNoControl(cands[i].value);
      CleanTextPlainSpaces(cands[i].value);
  }

  /** The extractors read a tree whose filtering is already complete, so filtering the input first changes nothing. */
  lemma ProcessFiltered(doc: Node, base: Option<string>, resolve: Resolver, cfg: Config)
    ensures ProcessOf(RemoveUnwanted(doc), base, resolve, cfg) == ProcessOf(doc, base, resolve, cfg)
  {
    RemoveUnwantedIdempotent(doc);
  }

  /** A raising `urljoin` empties the whole record. */
  lemma ProcessFailsClosed(doc: Node, base: Option<string>, resolve: Resolver, cfg: Config)
    ensures var root := RemoveUnwanted(doc);
      LinksOf(root, base, resolve).None? || ImagesOf(root, base, resolve).None? ==>
        ProcessOf(doc, base, resolve, cfg) == EmptyRecord
  {
  }

  /** `process_html(html, base_url)`: the filter edits the soup in place, then each extractor reads it. */
  method ProcessHtml(doc: Node, base: Option<string>, resolve: Resolver, cfg: Config) returns (result: Record)
    ensures result == ProcessOf(doc, base, resolve, cfg)
  {
    var soup := new Soup(doc);
    soup.RemoveUnwantedElements();
    var root := soup.root;
    var title := ExtractTitle(root);
    var description := ExtractDescription(root);
    var mainContent := ExtractMainContent(root, cfg);
    var keywords := ExtractKeywords(root);
    var links := ExtractLinks(root, base, resolve);
    if links.None? {
      return EmptyRecord;
    }
    var images := ExtractImages(root, base, resolve);
    if images.None? {
      return EmptyRecord;
    }
    var summary := GenerateSummary(mainContent, DefaultMaxLength);
    result := Record(title, description, mainContent, summary, keywords, links.value, images.value);
  }

  const TitleLabel: string := "标题: "
  const DescriptionLabel: string := "描述: "
  const MainLabel: string := "正文内容:\n"

  /** The parts `extract_readable_content` joins: one per non-empty field, each behind its label. */
  function ReadableParts(r: Record): seq<string> {
    (if r.title != [] then [TitleLabel + r.title] else []) +
    (if r.description != [] then [DescriptionLabel + r.description] else []) +
    (if r.mainContent != [] then [MainLabel + r.mainContent] else [])
  }

  /** The readable text of a record: its parts separated by blank lines. */
  function ReadableOf(r: Record): string {
    Join("\n\n", ReadableParts(r))
  }

  /** The readable text is empty exactly when title, description and main content all are. */
  lemma ReadableEmpty(r: Record)
    ensures ReadableOf(r) == [] <==> r.title == [] && r.description == [] && r.mainContent == []
  {
    var parts := ReadableParts(r);
    if parts != [] {
      assert parts[0][0] in TitleLabel || parts[0][0] in DescriptionLabel || parts[0][0] in MainLabel;
      JoinNonEmpty("\n\n", parts);
    }
  }

  /** With a title, the readable text opens with it behind its label. */
  lemma ReadableStartsWithTitle(r: Record)
    requires r.title != []
    ensures StartsWith(ReadableOf(r), TitleLabel + r.title)
  {
    JoinStartsWith("\n\n", ReadableParts(r));
  }

  /** With main content, the readable text closes with it behind its label. */
  lemma ReadableEndsWithMain(r: Record)
    requires r.mainContent != []
    ensures EndsWith(ReadableOf(r), MainLabel + r.mainContent)
  {
    JoinEndsWith("\n\n", ReadableParts(r));
  }

  /** The rendering half of `extract_readable_content`: label the non-empty fields and join them. */
  method RenderReadable(processed: Record) returns (text: string)
    ensures text == ReadableOf(processed)
  {
    var r := processed;
    var parts: seq<string> := [];
    if r.title != [] {
      parts := parts + [TitleLabel + r.title];
    }
    assert parts == (if r.title != [] then [TitleLabel + r.title] else []);
    if r.description != [] {
      parts := parts + [DescriptionLabel + r.description];
    }
    assert parts == (if r.title != [] then [TitleLabel + r.title] else []) +
                    (if r.description != [] then [DescriptionLabel + r.description] else []);
    if r.mainContent != [] {
      parts := parts + [MainLabel + r.mainContent];
    }
    assert parts == ReadableParts(r);
    text := Join("\n\n", parts);
  }

  /** `extract_readable_content(html, base_url)` */
  method ExtractReadableContent(doc: Node, base: Option<string>, resolve: Resolver, cfg: Config) returns (text: string)
    ensures text == ReadableOf(ProcessOf(doc, base, resolve, cfg))
  {
    var processed := ProcessHtml(doc, base, resolve, cfg);
    text := RenderReadable(processed);
  }

  /** `extract_content_from_html(html, base_url)`: a processor with its default settings. */
  method ExtractContentFromHtml(doc: Node, base: Option<string>, resolve: Resolver) returns (text: string)
    ensures text == ReadableOf(ProcessOf(doc, base, resolve, DefaultConfig))
  {
    text := ExtractReadableContent(doc, base, resolve, DefaultConfig);
  }
}
