# Web content agent: extraction and rendering core

This project models two classes of the web content agent in Dafny and proves properties of the model.

- `ContentProcessor` turns a parsed HTML page into a record. The record holds the title, description, main content, keywords, links, images and a summary. The processor also renders that record as readable text.
- `OutputFormatter` renders a text and its metadata dictionary as Markdown, as an HTML page, as plain text or as a JSON record. It also builds the metadata dictionary and picks the format by name.

The parsed page is a tree of `Dom.Node` values. The CSS selectors and `find_all` filters that the core uses become a small `Dom.Selector` datatype. `select`, `select_one` and `find_all` become document-order traversals.

Each regular expression of the core is written out as its own scanner: a `Piece`/`Next` function pair over positions of the input. It has the same greedy or lazy matching, line anchors and resumption point as the pattern. `str.strip`, `str.split`, `str.join` and `str.lower` are modelled in the module `PyStr`, where `IsSpace` is Python's whitespace set; `html.escape` is `HtmlEscape.Escape`.

Where the source loops and appends, the model has a `method` with loop invariants. Its `ensures` ties the result to a specification function, and the lemmas state what that function means. Where the source edits the parsed tree in place (`decompose`), the model has a class `ElementFilter.Soup` whose method reassigns its tree.

Layout, one module per file:

| module | models |
|---|---|
| `Wrappers`, `PyStr`, `Dom` | `Option`/`Result`; the Python string operations; the parsed tree and its queries |
| `ElementFilter` | `_remove_unwanted_elements` |
| `Cleaning` | `_clean_text` and the main-content length cap |
| `Extractors` | `_extract_title`, `_extract_description`, `_extract_main_content`, `_extract_text_from_elements`, `_extract_keywords` |
| `References` | `_extract_links`, `_extract_images` |
| `Summary` | `_generate_summary` |
| `Processor` | `process_html`, `extract_readable_content`, `extract_content_from_html` |
| `Metadata` | the metadata dictionary, its counts and `add_metadata` |
| `HtmlEscape`, `MdSpans`, `MdEnhance`, `MdToHtml`, `MdStrip` | `html.escape`; the bold/italic rewrites; `_enhance_markdown_formatting`; `_convert_markdown_to_html`; `_remove_markdown_formatting` |
| `Formatter` | `OutputFormat`, the four renderings, `format_content`, `format_with_template`, `format_content_output` |

Differences from the code's own comments and docstrings. In each case the model follows the code.

- The title and description must pass their length threshold BEFORE they are cleaned. A text that only passes by counting its white space is still chosen.
- `_clean_text` deletes control characters AFTER it collapses white space. Text such as `"a \x01 b"` therefore keeps a double space and becomes `"a  b"` (`Cleaning.ControlLeavesDoubleSpace`). The text is single-spaced only when it holds no control character outside the white-space set (`Cleaning.CleanTextNormalForm`).
- The emoji rewrite consumes the pair it matches. In a run of emoji written together, only the first one is spaced off.

## Model

| member | source | states |
|---|---|---|
| Processor.ProcessHtml | web_content_agent/src/processor/content_processor.py:37-82 | The record is the one the reference `ProcessOf` gives: the page is filtered in place first, then each extractor reads the filtered tree and the summary is made from the main content; a raising `urljoin` yields the all-empty record |
| Processor.ProcessBounds | web_content_agent/src/processor/content_processor.py:56-66 | Main content is at most `max_text_length + 3` long; short main content is its own summary, longer gives a summary of at most 201 characters; at most 50 links with non-empty text and 20 images, labels at most 100 characters; at most 10 keywords, recovered by splitting at `", "` |
| Processor.ProcessCleanFields | web_content_agent/src/processor/content_processor.py:107-135 | Title and description hold no control character and no white space but the plain space |
| Processor.ProcessFiltered | web_content_agent/src/processor/content_processor.py:53-63 | Filtering the page beforehand changes no field of the record |
| Processor.ProcessFailsClosed | web_content_agent/src/processor/content_processor.py:72-82 | When link or image resolution raises, every field is empty |
| Processor.ProcessAsWrittenAgrees | web_content_agent/src/processor/content_processor.py:50-82 | With the class pass as written, the record is all empty where that pass raises, and is the modelled record everywhere else |
| Processor.NestedAdProcessedEmpty | web_content_agent/src/processor/content_processor.py:72-95 | With the class pass as written, `<div class="ad"><p class="note">x</p></div>` gives the all-empty record |
| Processor.ReadableEmpty | web_content_agent/src/processor/content_processor.py:310-321 | The readable text is empty exactly when title, description and main content all are |
| Processor.ReadableStartsWithTitle | web_content_agent/src/processor/content_processor.py:312-313 | With a title, the readable text opens with `标题: ` and the title |
| Processor.ReadableEndsWithMain | web_content_agent/src/processor/content_processor.py:318-321 | With main content, the readable text ends with the label `正文内容:`, a newline and the content |
| Processor.RenderReadable | web_content_agent/src/processor/content_processor.py:310-321 | The three conditional appends collect the labelled non-empty fields, and the text is those parts joined by blank lines |
| Processor.ExtractReadableContent | web_content_agent/src/processor/content_processor.py:296-321 | The readable text of the processed record |
| Processor.ExtractContentFromHtml | web_content_agent/src/processor/content_processor.py:325-337 | The readable text with the default settings (10, 50000) |
| Dom.FilterMembers | web_content_agent/src/processor/content_processor.py:88-92 | A query returns exactly the matching nodes of the searched list and never more nodes than it |
| Dom.FilterAppend | web_content_agent/src/processor/content_processor.py:88-92 | A query over two lists in a row is the query over the first followed by the query over the second, so the matches keep document order |
| Dom.ForestSubtree | web_content_agent/src/processor/content_processor.py:92 | In document order, the descendants of each node directly follow it |
| Dom.DescendantAt | web_content_agent/src/processor/content_processor.py:92 | Every position in the run after a node holds one of its descendants |
| Dom.PositionBelow | web_content_agent/src/processor/content_processor.py:92 | Every descendant of a node sits in the run after it |
| ElementFilter.Soup.RemoveUnwantedElements | web_content_agent/src/processor/content_processor.py:84-95 | The tree is replaced by its filtered form (the tag pass, tag by tag, then the class pass), and no element below the root is left with a denied tag or a denied class |
| ElementFilter.Soup.constructor | web_content_agent/src/processor/content_processor.py:50 | The soup holds the parsed document |
| ElementFilter.RemoveUnwantedComplete | web_content_agent/src/processor/content_processor.py:84-95 | After the filter no descendant has a tag of `remove_tags` or a class string containing a keyword of `remove_classes` |
| ElementFilter.RemoveUnwantedKeepsWantedTree | web_content_agent/src/processor/content_processor.py:84-95 | A tree with nothing unwanted below its root is left unchanged |
| ElementFilter.RemoveUnwantedIdempotent | web_content_agent/src/processor/content_processor.py:84-95 | A second pass of the filter removes nothing |
| ElementFilter.PruneRemoves | web_content_agent/src/processor/content_processor.py:88-89 | Decomposing all elements a rule hits leaves none that it hits |
| ElementFilter.PruneKeepsClean | web_content_agent/src/processor/content_processor.py:87-95 | Decomposing only deletes: a tree clean for one rule stays clean for it |
| ElementFilter.PruneCleanIsIdentity | web_content_agent/src/processor/content_processor.py:88-89 | Decomposing in a tree where nothing is hit changes nothing |
| ElementFilter.PruneSameNode | web_content_agent/src/processor/content_processor.py:89 | Decomposing below a node keeps its name and attributes, so no rule judges the node differently |
| ElementFilter.WithoutTagsRemoves | web_content_agent/src/processor/content_processor.py:87-89 | After the tag pass no descendant carries any of the denied tags |
| ElementFilter.WithoutTagsKeepsClean | web_content_agent/src/processor/content_processor.py:87-89 | The tag pass keeps a clean tree clean for any rule |
| ElementFilter.WithoutTagsCleanIsIdentity | web_content_agent/src/processor/content_processor.py:87-89 | The tag pass over a tree with none of the tags changes nothing |
| ElementFilter.AdIsDenied | web_content_agent/src/processor/content_processor.py:31-35 | An element of class `ad` has a denied class |
| ElementFilter.RunClassPass | web_content_agent/src/processor/content_processor.py:92-95 | The class-pass loop as written, over the classed elements listed before any deletion, raises exactly when an element with a denied class has a classed element below it |
| ElementFilter.WalkMarks | web_content_agent/src/processor/content_processor.py:92-95 | The loop, position by position, tracking the end of the last deleted subtree, computes the walk |
| ElementFilter.ClassPassAsWritten | web_content_agent/src/processor/content_processor.py:92-95 | The result of the class pass as written: nothing exactly when it raises, the prune by denied class otherwise |
| ElementFilter.ClassWalkMeans | web_content_agent/src/processor/content_processor.py:92-95 | The walk raises exactly when a denied element has a classed element below it, in both directions |
| ElementFilter.WalkRaisesSound | web_content_agent/src/processor/content_processor.py:92-93 | A raise happens only at a classed element inside the subtree of an element deleted earlier |
| ElementFilter.WalkRaisesComplete | web_content_agent/src/processor/content_processor.py:92-95 | A classed element below a denied element that the walk still has ahead, or already wiped, makes it raise |
| ElementFilter.RaisesAt | web_content_agent/src/processor/content_processor.py:92-95 | A raising pair of positions is a denied element with a classed element below it |
| ElementFilter.RaisesSomewhere | web_content_agent/src/processor/content_processor.py:92-95 | A denied element with a classed element below it gives a raising pair of positions |
| ElementFilter.DeniedIsClassed | web_content_agent/src/processor/content_processor.py:92-94 | An element with a denied class carries a class attribute, so the class pass lists it |
| ElementFilter.NestedClassedElementRaises | web_content_agent/src/processor/content_processor.py:92-95 | On `<div class="ad"><p class="note">x</p></div>` the class pass as written raises |
| Extractors.FirstQualifyingIsFirst | web_content_agent/src/processor/content_processor.py:107-116 | The chain picks candidate `i` exactly when it is present, non-empty and over the threshold and no earlier one is |
| Extractors.FirstQualifyingNone | web_content_agent/src/processor/content_processor.py:107-118 | The chain picks nothing exactly when no candidate qualifies |
| Extractors.ChosenFirst | web_content_agent/src/processor/content_processor.py:115-116 | The first qualifying candidate is returned, cleaned |
| Extractors.ChosenNone | web_content_agent/src/processor/content_processor.py:118 | With no qualifying candidate the result is `""` |
| Extractors.FirstCandidatesAt | web_content_agent/src/processor/content_processor.py:107-113 | Candidate `i` is the text of the first match of selector `i`: `content` of a `meta`, the element text otherwise |
| Extractors.ReadFirst | web_content_agent/src/processor/content_processor.py:108-113 | One turn reads the candidate of its selector |
| Extractors.SearchChain | web_content_agent/src/processor/content_processor.py:107-118 | The early-return loop returns the chosen candidate of the chain |
| Extractors.ExtractTitle | web_content_agent/src/processor/content_processor.py:97-118 | The title chain `h1`, `title`, `og:title`, `meta title` with threshold 3 |
| Extractors.ExtractDescription | web_content_agent/src/processor/content_processor.py:120-135 | The description chain with threshold 10 |
| Extractors.ParagraphTextsKept | web_content_agent/src/processor/content_processor.py:187-190 | Every kept paragraph text is non-empty and at least `min_text_length` long |
| Extractors.TextsNonEmpty | web_content_agent/src/processor/content_processor.py:182-195 | Every collected text is non-empty |
| Extractors.TextFromElementsEmpty | web_content_agent/src/processor/content_processor.py:197 | The joined text is empty exactly when no text was collected |
| Extractors.AppendParagraphTexts | web_content_agent/src/processor/content_processor.py:187-190 | The inner loop appends the kept paragraph texts, in order |
| Extractors.AppendElementTexts | web_content_agent/src/processor/content_processor.py:184-195 | One element contributes its kept paragraphs, or its own non-empty text when it has no paragraph |
| Extractors.ExtractTextFromElements | web_content_agent/src/processor/content_processor.py:178-197 | The loop result is the texts of all elements joined by newlines |
| Extractors.LastPresentIsLast | web_content_agent/src/processor/content_processor.py:156-159 | The last present candidate is found exactly when none after it is present |
| Extractors.LastPresentNone | web_content_agent/src/processor/content_processor.py:156-159 | None is found exactly when no selector matched |
| Extractors.MainCandidatesAt | web_content_agent/src/processor/content_processor.py:156-159 | Candidate `i` is the text of all matches of selector `i`, absent when nothing matches |
| Extractors.ChainBreak | web_content_agent/src/processor/content_processor.py:160-161 | The first candidate longer than 100 characters wins |
| Extractors.ChainWinnerFallback | web_content_agent/src/processor/content_processor.py:156-161 | With no long candidate the last matched selector's text is kept, and `""` when none matched |
| Extractors.ChainEnd | web_content_agent/src/processor/content_processor.py:156-161 | Running out of selectors leaves the chain's winner |
| Extractors.ChainStep | web_content_agent/src/processor/content_processor.py:156-161 | One turn: a long text decides the winner, any other is held and the loop goes on |
| Extractors.ReadCandidate | web_content_agent/src/processor/content_processor.py:157-159 | One turn reads the candidate of its selector |
| Extractors.RunContentChain | web_content_agent/src/processor/content_processor.py:153-161 | The selector loop ends with the chain's winner |
| Extractors.ChainOrBody | web_content_agent/src/processor/content_processor.py:153-167 | The winner, or the body's text when the winner is shorter than 100 characters and a body exists |
| Extractors.MainContentBound | web_content_agent/src/processor/content_processor.py:169-174 | The cleaned text is capped: longer than `max_text_length` becomes its first `max_text_length` characters and `...`; the result is at most that plus 3 long |
| Extractors.ExtractMainContent | web_content_agent/src/processor/content_processor.py:137-176 | Selector loop, body fallback, cleaning and cap, as `MainContentOf` |
| Extractors.StripAllAt | web_content_agent/src/processor/content_processor.py:213 | Each comma piece is stripped, in place |
| Extractors.ElementKeywordsShape | web_content_agent/src/processor/content_processor.py:211-213 | Every keyword holds no comma and no white space at its ends |
| Extractors.KeywordsRoundTrip | web_content_agent/src/processor/content_processor.py:206-215 | At most 10 keywords are kept and splitting the joined result at `", "` gives them back |
| Extractors.KeywordsOfMatches | web_content_agent/src/processor/content_processor.py:210-213 | The inner loop extends the list with each element's keywords, in order |
| Extractors.CollectKeywords | web_content_agent/src/processor/content_processor.py:208-213 | The outer loop collects the keywords selector by selector |
| Extractors.ExtractKeywords | web_content_agent/src/processor/content_processor.py:199-215 | The first ten keywords joined with `", "` |
| References.LinkStepMeans | web_content_agent/src/processor/content_processor.py:222-233 | An anchor yields a link exactly when href and text are non-empty and resolution succeeds; the text is cut to 100 characters; the URL is the href or its join |
| References.ImageStepMeans | web_content_agent/src/processor/content_processor.py:246-257 | An image yields a record exactly when `src` is non-empty and resolution succeeds; `alt` is stripped and cut to 100; `data:` URLs are not joined |
| References.GatherPrefix | web_content_agent/src/processor/content_processor.py:230-237 | The collected records are the first ones offered, never more than the cap |
| References.GatherComplete | web_content_agent/src/processor/content_processor.py:221-239 | With no raise and no more than the cap offered, every record is collected |
| References.GatherFails | web_content_agent/src/processor/content_processor.py:227-228 | The loop fails only when some turn raised |
| References.GatherExact | web_content_agent/src/processor/content_processor.py:221-239 | A loop that ends without a raise holds the first `cap` records offered, or all of them if fewer |
| References.GatherNoneMeans | web_content_agent/src/processor/content_processor.py:221-239 | The loop fails exactly when a turn raises before the cap is filled |
| References.KeptFirst | web_content_agent/src/processor/content_processor.py:221-237 | The records the first turns offer, split after the first turn |
| References.GatherTurn | web_content_agent/src/processor/content_processor.py:230-237 | One turn: a raise fails the loop, a skip continues, a kept record that fills the cap ends it |
| References.CollectedFrom | web_content_agent/src/processor/content_processor.py:230-233 | Every collected record was offered by some turn |
| References.LinksBound | web_content_agent/src/processor/content_processor.py:219-239 | Exactly the first 50 links offered, or all of them if fewer, in document order; it fails exactly when `urljoin` raises for an anchor reached before the fiftieth link |
| References.ImagesBound | web_content_agent/src/processor/content_processor.py:243-263 | Exactly the first 20 images offered, or all of them if fewer, in document order; it fails exactly when `urljoin` raises for an image reached before the twentieth |
| References.LinksWellFormed | web_content_agent/src/processor/content_processor.py:225-233 | Every link has non-empty text of at most 100 characters |
| References.ImagesWellFormed | web_content_agent/src/processor/content_processor.py:254-257 | Every alt text is at most 100 characters |
| References.ReadLink | web_content_agent/src/processor/content_processor.py:222-228 | One turn of the anchor loop |
| References.ReadImage | web_content_agent/src/processor/content_processor.py:246-252 | One turn of the image loop |
| References.CollectLinks | web_content_agent/src/processor/content_processor.py:221-237 | The anchor loop collects as `Gather` with cap 50 |
| References.CollectImages | web_content_agent/src/processor/content_processor.py:245-261 | The image loop collects as `Gather` with cap 20 |
| References.ExtractLinks | web_content_agent/src/processor/content_processor.py:217-239 | `_extract_links` over the `a` elements with `href` |
| References.ExtractImages | web_content_agent/src/processor/content_processor.py:241-263 | `_extract_images` over the `img` elements with `src` |
| Summary.GenerateSummary | web_content_agent/src/processor/content_processor.py:265-281 | The summary is `SummaryOf`; content shorter than 50 characters is returned as it is |
| Summary.TakeSentences | web_content_agent/src/processor/content_processor.py:273-279 | The sentence loop yields the greedy summary of the qualifying sentences |
| Summary.QualifyingAt | web_content_agent/src/processor/content_processor.py:274-276 | Sentence `i` is kept, stripped, exactly when it is longer than ten characters |
| Summary.GreedyKeep | web_content_agent/src/processor/content_processor.py:275-279 | A short sentence is skipped, a kept one that would overflow stops the loop, any other is taken with `。` |
| Summary.GreedyStep | web_content_agent/src/processor/content_processor.py:274-279 | One loop turn: skip, stop or take |
| Summary.QualifyingShape | web_content_agent/src/processor/content_processor.py:275-276 | Every kept sentence is longer than ten characters and opens with a non-space |
| Summary.GreedyTakes | web_content_agent/src/processor/content_processor.py:273-279 | The loop state is always the start followed by the first `TakeCount` sentences |
| Summary.TakeCountRule | web_content_agent/src/processor/content_processor.py:277-278 | Every sentence taken fits when added; the first one left out does not |
| Summary.TakeCountLength | web_content_agent/src/processor/content_processor.py:277-279 | Starting within the limit, the taken sentences stay within one character over it |
| Summary.TakeCountMonotone | web_content_agent/src/processor/content_processor.py:277-278 | A larger limit never takes fewer sentences |
| Summary.JoinedPrefix | web_content_agent/src/processor/content_processor.py:279 | Taking fewer sentences gives a prefix of taking more |
| Summary.JoinedIsStripped | web_content_agent/src/processor/content_processor.py:281 | The final strip changes nothing |
| Summary.SummaryIsJoined | web_content_agent/src/processor/content_processor.py:271-281 | For content of 50 characters or more, the summary is the first `TakeCount` qualifying sentences, each followed by `。` |
| Summary.SummaryIsGreedyPrefix | web_content_agent/src/processor/content_processor.py:271-281 | That prefix is fixed by the greedy rule: every taken sentence fits, the next does not |
| Summary.SummaryLength | web_content_agent/src/processor/content_processor.py:277-281 | The summary of longer content is empty or at most `max_length + 1` characters |
| Summary.SummaryMonotone | web_content_agent/src/processor/content_processor.py:265-281 | A larger limit gives a summary that extends the smaller one |
| Cleaning.CollapseSingle | web_content_agent/src/processor/content_processor.py:289 | After the collapse every white space is one plain space with no white space next to it |
| Cleaning.CollapseChars | web_content_agent/src/processor/content_processor.py:289 | The collapse introduces no visible character |
| Cleaning.CollapseSingleSpaced | web_content_agent/src/processor/content_processor.py:289 | Single-spaced text is left as it is |
| Cleaning.RemoveControlNoControl | web_content_agent/src/processor/content_processor.py:292 | No character of the control class survives |
| Cleaning.RemoveControlChars | web_content_agent/src/processor/content_processor.py:292 | Only characters of the input are kept |
| Cleaning.RemoveControlKeeps | web_content_agent/src/processor/content_processor.py:292 | Text without control characters is left as it is |
| Cleaning.CleanText | web_content_agent/src/processor/content_processor.py:283-294 | Empty text gives `""`; the result is never longer than the input |
| Cleaning.CleanTextNoControl | web_content_agent/src/processor/content_processor.py:283-294 | The cleaned text holds no character of `[\x00-\x08\x0b\x0c\x0e-\x1f\x7f-\x9f]` |
| Cleaning.CleanTextPlainSpaces | web_content_agent/src/processor/content_processor.py:289-292 | The cleaned text's only white space is the plain space: no tab, newline or carriage return |
| Cleaning.CleanTextIsCollapse | web_content_agent/src/processor/content_processor.py:289-292 | Without bare control characters, cleaning is strip and collapse |
| Cleaning.CleanTextNormalForm | web_content_agent/src/processor/content_processor.py:289-292 | Without bare control characters, the result is single-spaced with no space at either end |
| Cleaning.CleanTextFixpoint | web_content_agent/src/processor/content_processor.py:283-294 | Single-spaced text without control characters and without a space at either end is left as it is |
| Cleaning.CleanTextIdempotent | web_content_agent/src/processor/content_processor.py:283-294 | For text without bare control characters, cleaning twice is cleaning once |
| Cleaning.ControlLeavesDoubleSpace | web_content_agent/src/processor/content_processor.py:289-292 | `"a \x01 b"` cleans to `"a  b"`, which is not single-spaced |
| Cleaning.TruncateContent | web_content_agent/src/processor/content_processor.py:173-174 | Within the limit the text is unchanged; past it, it is its first `max_length` characters and `...`, so 3 over the limit |
| Formatter.OutputFormatter.constructor | web_content_agent/src/formatter/output_formatter.py:23-24 | The formatter keeps the default format it is given, and the stylesheet |
| Formatter.OutputFormatter.FormatContent | web_content_agent/src/formatter/output_formatter.py:26-57 | The rendering of the asked format, or of the default one when none is asked |
| Formatter.RenderFailOpen | web_content_agent/src/formatter/output_formatter.py:42-57 | A JSON record comes back exactly for JSON that serialises; JSON that raises yields the content unchanged |
| Formatter.OutputFormatter.FormatWithTemplate | web_content_agent/src/formatter/output_formatter.py:369-389 | The rendering with the metadata `add_metadata` builds for the content, URL and template |
| Formatter.FormatNames | web_content_agent/src/formatter/output_formatter.py:409-415 | `html`, `text`, `json` are picked exactly when the lower-cased name equals them; anything else is Markdown |
| Formatter.FormatNamesIgnoreCase | web_content_agent/src/formatter/output_formatter.py:410-414 | A name and its lower case pick the same format |
| Formatter.FormatOfName | web_content_agent/src/formatter/output_formatter.py:409-415 | The comparison chain picks the format of the name |
| Formatter.FormatContentOutput | web_content_agent/src/formatter/output_formatter.py:393-417 | A default formatter renders the named format |
| Formatter.HeaderLines | web_content_agent/src/formatter/output_formatter.py:64-72 | The header block as appended |
| Formatter.StatsLines | web_content_agent/src/formatter/output_formatter.py:79-85 | The statistics block as appended |
| Formatter.FormatAsMarkdown | web_content_agent/src/formatter/output_formatter.py:59-87 | Header, enhanced text and statistics block joined by newlines |
| Formatter.MarkdownBare | web_content_agent/src/formatter/output_formatter.py:64-87 | Without metadata the rendering is the enhanced text alone |
| Formatter.HeaderFraming | web_content_agent/src/formatter/output_formatter.py:64-72 | With metadata the header opens with `---` and a newline and ends with `---` and a newline |
| Formatter.MarkdownLayout | web_content_agent/src/formatter/output_formatter.py:59-87 | With metadata: the framed header, a blank line, the text, and the statistics block behind `---` exactly when a count key is present |
| Formatter.MarkdownShowsSource | web_content_agent/src/formatter/output_formatter.py:66-67 | The source line appears exactly when `source_url` is truthy, with its value |
| Formatter.MarkdownShowsTime | web_content_agent/src/formatter/output_formatter.py:68-69 | The time line appears exactly when `timestamp` is truthy, with its value |
| Formatter.MarkdownShowsTemplate | web_content_agent/src/formatter/output_formatter.py:70-71 | The template line appears exactly when `template` is truthy, with its value |
| Formatter.MarkdownShowsWords | web_content_agent/src/formatter/output_formatter.py:82-83 | The word-count line appears exactly when `word_count` is truthy |
| Formatter.MarkdownShowsChars | web_content_agent/src/formatter/output_formatter.py:84-85 | The character-count line appears exactly when `char_count` is truthy |
| Formatter.TemplateMarkdown | web_content_agent/src/formatter/output_formatter.py:383-389 | With metadata it built itself, the Markdown rendering always has header and statistics block |
| Formatter.MetadataDiv | web_content_agent/src/formatter/output_formatter.py:107-116 | The metadata `div` as appended |
| Formatter.StatsDiv | web_content_agent/src/formatter/output_formatter.py:125-132 | The statistics `div` as appended |
| Formatter.FormatAsHtml | web_content_agent/src/formatter/output_formatter.py:89-138 | The page lines around the converted text, joined by newlines |
| Formatter.HtmlFramed | web_content_agent/src/formatter/output_formatter.py:94-136 | Every page opens with `<!DOCTYPE html>` and ends with `</html>` |
| Formatter.HtmlContentLine | web_content_agent/src/formatter/output_formatter.py:119-122 | The converted text sits on its own indented line inside the content `div`, right after the metadata block |
| Formatter.HtmlBodyQuoteFree | web_content_agent/src/formatter/output_formatter.py:121 | A quote-free converted text leaves the content line quote-free |
| Formatter.HtmlLineCount | web_content_agent/src/formatter/output_formatter.py:91-138 | The page has 16 lines plus each block's frame and its shown fields |
| Formatter.OverviewLines | web_content_agent/src/formatter/output_formatter.py:150-158 | The overview block as appended |
| Formatter.TextStatsLines | web_content_agent/src/formatter/output_formatter.py:170-177 | The statistics block as appended |
| Formatter.FormatAsText | web_content_agent/src/formatter/output_formatter.py:140-181 | Banner, overview, plain content, statistics and closing rule joined by newlines |
| Formatter.TextFramed | web_content_agent/src/formatter/output_formatter.py:145-179 | The text opens with a rule of 80 `=` and the title and closes with a rule of 80 `=` |
| Formatter.TextBare | web_content_agent/src/formatter/output_formatter.py:145-179 | Without metadata the text has exactly eight lines |
| Formatter.TextLineCount | web_content_agent/src/formatter/output_formatter.py:142-181 | Eight lines plus each block's frame and its shown fields |
| Formatter.JsonRecordFacts | web_content_agent/src/formatter/output_formatter.py:183-201 | Serialising fails exactly when included metadata holds a foreign value; otherwise the record holds the content, the time, `json`, the metadata exactly when non-empty, and the character count, the number of whitespace-free runs and the newlines plus one |
| Formatter.DescribedJson | web_content_agent/src/formatter/output_formatter.py:191-199 | A dictionary that describes the content serialises and agrees with the recomputed statistics |
| Formatter.TemplateJson | web_content_agent/src/formatter/output_formatter.py:383-389 | With metadata it built itself, the JSON rendering never fails and its statistics agree with that metadata |
| Metadata.CountsMeaning | web_content_agent/src/formatter/output_formatter.py:353-355 | The word count is the number of maximal whitespace-free runs and the line count is the newlines plus one |
| Metadata.GetMerge | web_content_agent/src/formatter/output_formatter.py:365 | After `update`, the right-hand dictionary wins |
| Metadata.GetSetIf | web_content_agent/src/formatter/output_formatter.py:358-362 | A conditional assignment changes only its key, and only when its condition holds |
| Metadata.FieldsGet | web_content_agent/src/formatter/output_formatter.py:351-356 | The starting dictionary holds exactly the time and the three counts |
| Metadata.AssembleGet | web_content_agent/src/formatter/output_formatter.py:358-365 | Extra fields win, then given arguments, then the starting dictionary |
| Metadata.MetadataKeys | web_content_agent/src/formatter/output_formatter.py:351-365 | The keys are the four computed ones, `source_url`/`template` only when truthy, and the extra ones |
| Metadata.MetadataOverride | web_content_agent/src/formatter/output_formatter.py:365 | Extra fields override computed ones |
| Metadata.MetadataCounts | web_content_agent/src/formatter/output_formatter.py:351-356 | Unless overridden, the time is the given stamp and each count is computed from the content |
| Metadata.MetadataArguments | web_content_agent/src/formatter/output_formatter.py:358-362 | Unless overridden, `source_url` and `template` hold the arguments when truthy and are absent otherwise |
| Metadata.MetadataHasStats | web_content_agent/src/formatter/output_formatter.py:351-356 | The built dictionary is non-empty and holds both count keys |
| Metadata.MetadataSteps | web_content_agent/src/formatter/output_formatter.py:351-365 | The dictionary case by case after the two conditional assignments and the update |
| Metadata.MetadataPlain | web_content_agent/src/formatter/output_formatter.py:351-365 | Without extra fields every value is a string or an integer |
| Metadata.MetadataDescribes | web_content_agent/src/formatter/output_formatter.py:351-367 | Without extra fields, the dictionary is plain and records the counts of its content |
| Metadata.AddMetadata | web_content_agent/src/formatter/output_formatter.py:337-367 | The imperative construction yields `MetadataOf` |
| MdEnhance.CollapseNoBlankRun | web_content_agent/src/formatter/output_formatter.py:209 | After the collapse no three newlines follow each other |
| MdEnhance.CollapseKeeps | web_content_agent/src/formatter/output_formatter.py:209 | Text without a run of three newlines is kept |
| MdEnhance.CollapseIdempotent | web_content_agent/src/formatter/output_formatter.py:209 | Collapsing twice is collapsing once |
| MdEnhance.CollapseKeepsText | web_content_agent/src/formatter/output_formatter.py:209 | Only newlines are removed |
| MdEnhance.SpaceEmojiSpaced | web_content_agent/src/formatter/output_formatter.py:212 | Afterwards every emoji has white space, another emoji or nothing before it |
| MdEnhance.SpaceEmojiOnlySpaces | web_content_agent/src/formatter/output_formatter.py:212 | Only spaces are added |
| MdEnhance.SpaceEmojiNoBlankRun | web_content_agent/src/formatter/output_formatter.py:209-212 | The added spaces create no run of three newlines |
| MdEnhance.SpaceEmojiPlain | web_content_agent/src/formatter/output_formatter.py:212 | Text without emoji is kept |
| MdEnhance.EnhanceShape | web_content_agent/src/formatter/output_formatter.py:203-214 | The enhanced text is stripped, has no run of three newlines and has every emoji spaced off |
| MdEnhance.EnhanceKeeps | web_content_agent/src/formatter/output_formatter.py:203-214 | Stripped text without emoji or runs of three newlines is already enhanced |
| HtmlEscape.EscapeRoundTrip | web_content_agent/src/formatter/output_formatter.py:219 | Unescaping the escaped text gives the text back |
| HtmlEscape.EscapeSafe | web_content_agent/src/formatter/output_formatter.py:219 | No `<`, `>`, `"` or `'` survives escaping |
| HtmlEscape.EscapeAmpersands | web_content_agent/src/formatter/output_formatter.py:219 | Every `&` of the escaped text opens one of the five entities |
| HtmlEscape.EscapeCharAmpersand | web_content_agent/src/formatter/output_formatter.py:219 | Within one replacement, `&` stands only at the start of the entity |
| HtmlEscape.EscapePlain | web_content_agent/src/formatter/output_formatter.py:219 | Text without special characters is kept |
| MdSpans.CloseFirst | web_content_agent/src/formatter/output_formatter.py:227-230 | The lazy match closes at the first closing marker, on the same line |
| MdSpans.CloseNone | web_content_agent/src/formatter/output_formatter.py:227-230 | With no close found, every later marker has a newline before it |
| MdSpans.SpansPlain | web_content_agent/src/formatter/output_formatter.py:227-230 | Text without stars is kept |
| MdSpans.SpansFromMatch | web_content_agent/src/formatter/output_formatter.py:227-230 | A marked span is replaced by its text between the tags, and the scan resumes after it |
| MdSpans.SpansChars | web_content_agent/src/formatter/output_formatter.py:227-230 | The rewrite copies only characters of the text or of the tags |
| MdSpans.SpansOne | web_content_agent/src/formatter/output_formatter.py:227-230 | One marked span followed by plain text is rewritten once |
| MdSpans.AtAgree | web_content_agent/src/formatter/output_formatter.py:252-255 | Whether a marker occurs at a position depends only on the text from there on |
| MdSpans.CloseAgree | web_content_agent/src/formatter/output_formatter.py:252-255 | Where the lazy match stops depends only on the text from its start on |
| MdSpans.SpanAtAgree | web_content_agent/src/formatter/output_formatter.py:252-255 | Whether a span opens at a position, and where it closes, depends only on the text from there on |
| MdSpans.StepAgree | web_content_agent/src/formatter/output_formatter.py:252-255 | One step of the emphasis scan depends only on the text from its position on |
| MdSpans.SpansFromAgree | web_content_agent/src/formatter/output_formatter.py:252-255 | Two scans over the same remaining text emit the same output |
| MdSpans.SpansFromShift | web_content_agent/src/formatter/output_formatter.py:252-255 | The emphasis scan never looks behind its position |
| MdSpans.NoSpanStep | web_content_agent/src/formatter/output_formatter.py:252-255 | Where the marker does not occur the character is copied |
| MdSpans.SpansAfterPlain | web_content_agent/src/formatter/output_formatter.py:252-255 | Star-free text in front is copied before the rest is rewritten |
| MdSpans.SpansAfterMatch | web_content_agent/src/formatter/output_formatter.py:252-255 | A span in front is rewritten before the rest is |
| MdSpans.SpanHead | web_content_agent/src/formatter/output_formatter.py:252-255 | A span in front is emitted rewritten, and the scan resumes right after its closing marker |
| MdSpans.SpansAfterHead | web_content_agent/src/formatter/output_formatter.py:252-255 | A front part the scan emits as one piece is replaced by that piece, and the rest is rewritten on its own |
| MdSpans.BoldPassLoneStar | web_content_agent/src/formatter/output_formatter.py:252 | A star not followed by another is no bold marker and is copied |
| MdSpans.SpansFromShrinks | web_content_agent/src/formatter/output_formatter.py:252-255 | Dropping the markers never lengthens the text |
| MdToHtml.ConvertParagraphs | web_content_agent/src/formatter/output_formatter.py:233-244 | The paragraph loop yields `ParagraphsOf` |
| MdToHtml.RenderOne | web_content_agent/src/formatter/output_formatter.py:237-242 | One loop turn: a blank paragraph gives nothing, any other gives its one element |
| MdToHtml.ConvertMarkdownToHtml | web_content_agent/src/formatter/output_formatter.py:216-244 | Escape, headings, bold, italic, paragraphs, in that order |
| MdToHtml.ParagraphsWellFormed | web_content_agent/src/formatter/output_formatter.py:236-242 | Every element is non-empty and either opens with a heading tag or is a one-line `<p>` element |
| MdToHtml.ParagraphsCount | web_content_agent/src/formatter/output_formatter.py:236-242 | Never more elements than paragraphs, and exactly one per paragraph when none is blank |
| MdToHtml.ToHtmlQuoteFree | web_content_agent/src/formatter/output_formatter.py:219-244 | The converted text holds no `"` and no `'` |
| MdToHtml.ToHtmlParagraphs | web_content_agent/src/formatter/output_formatter.py:219-244 | The conversion is the well-formed elements joined by newlines |
| MdToHtml.ToHtmlPlain | web_content_agent/src/formatter/output_formatter.py:233-244 | A plain line becomes one `<p>` element |
| MdToHtml.HeadingTagsOne | web_content_agent/src/formatter/output_formatter.py:222 | A `# ` line becomes an `h1` element |
| MdToHtml.ToHtmlHeading | web_content_agent/src/formatter/output_formatter.py:222-240 | A `# ` line of plain text becomes `<h1>…</h1>` and is not wrapped in a paragraph |
| MdStrip.HeadingRemoved | web_content_agent/src/formatter/output_formatter.py:249 | One to six `#` and white space at a line start go; the line's text stays |
| MdStrip.HeadingsFromMatch | web_content_agent/src/formatter/output_formatter.py:249 | At the start of any line, one to six `#` followed by white space go together with all of that white space |
| MdStrip.SpaceRunFrom | web_content_agent/src/formatter/output_formatter.py:249 | The greedy `\s+` takes the whole run of white space |
| MdStrip.HeadingTooDeep | web_content_agent/src/formatter/output_formatter.py:249 | Seven or more `#` are no marker |
| MdStrip.FindCharFirst | web_content_agent/src/formatter/output_formatter.py:258 | The search finds the first occurrence |
| MdStrip.LinkReplaced | web_content_agent/src/formatter/output_formatter.py:258 | `[anchor](target)` becomes `anchor` |
| MdStrip.LinksFromMatch | web_content_agent/src/formatter/output_formatter.py:258 | At any `[` that opens `[anchor](target)`, the pass emits the anchor and goes on after the `)` |
| MdStrip.LinkHead | web_content_agent/src/formatter/output_formatter.py:258 | A text opening with a link is read as its anchor, and the pass resumes right after the `)` |
| MdStrip.LinksFromShift | web_content_agent/src/formatter/output_formatter.py:258 | The link pass never looks behind its position |
| MdStrip.LinksAfterPlain | web_content_agent/src/formatter/output_formatter.py:258 | Text without `[` in front is copied before the rest is rendered |
| MdStrip.LinksAfterLink | web_content_agent/src/formatter/output_formatter.py:258 | A link in front becomes its anchor before the rest is rendered |
| MdStrip.LinksAfterHead | web_content_agent/src/formatter/output_formatter.py:258 | A front part the link pass reads as one piece is replaced by that piece, and the rest is rendered on its own |
| MdStrip.LinkAtShift | web_content_agent/src/formatter/output_formatter.py:258 | Whether a link opens at a position does not depend on the text before it |
| MdStrip.FindCharShift | web_content_agent/src/formatter/output_formatter.py:258 | Finding the next `]` or `)` does not depend on the text before the search |
| MdStrip.LinkStepShift | web_content_agent/src/formatter/output_formatter.py:258 | One step of the link pass does not depend on the text before it |
| MdStrip.MixedMarkupRemoved | web_content_agent/src/formatter/output_formatter.py:246-260 | A line with a bold span, an italic span and a link loses the markers and the link target and keeps every text |
| MdStrip.MixedMarkupExample | web_content_agent/src/formatter/output_formatter.py:246-260 | `**bold** and *italic* and [a link](http://x)` reads `bold and italic and a link` |
| MdStrip.BoldPass | web_content_agent/src/formatter/output_formatter.py:252 | On such a line the bold pass drops the bold markers only |
| MdStrip.BoldPassItalic | web_content_agent/src/formatter/output_formatter.py:252 | The bold pass copies star-free text and a single-starred span |
| MdStrip.BoldPassStarTail | web_content_agent/src/formatter/output_formatter.py:252 | The bold pass copies a lone star after star-free text |
| MdStrip.ItalicPass | web_content_agent/src/formatter/output_formatter.py:255 | The italic pass drops the single stars of the italic span |
| MdStrip.LinkPass | web_content_agent/src/formatter/output_formatter.py:258 | The link pass turns the trailing link into its anchor |
| MdStrip.RemoveMarkdownPlain | web_content_agent/src/formatter/output_formatter.py:246-260 | Text without `#`, `*` or `[` is kept |
| MdStrip.RemoveMarkdownShrinks | web_content_agent/src/formatter/output_formatter.py:246-260 | The plain-text rendering adds no character and is never longer |

## Left out

- HTML parsing (BeautifulSoup) is not modelled. The input is an already parsed `Dom.Node` tree. Only the selector forms the core uses are modelled.
- `urljoin` is a function parameter `resolve`. Its `ValueError` is that function's `None`, which the catch-all of `process_html` turns into the empty record.
- `datetime.now()` is not modelled. The times are the parameters `stamp` (in `add_metadata`) and `now` (in `_format_as_json`).
- `json.dumps` is not modelled. The JSON output is the record it would serialise. Its `TypeError` is raised for a metadata value the model marks as not serialisable. Indentation and character escaping of the serialised text are left out.
- Logging calls are not modelled: they change no result.
- The first rewrite of `_enhance_markdown_formatting` (line 206) has no counterpart. It puts every match back unchanged.
- The regular-expression engine is not modelled in general. Each pattern is its own scanner.
- The `else` branch of `format_content` (lines 51-53) is not modelled. It cannot be reached with an `OutputFormat` value, and every caller passes one.
- `None` and `""` string arguments are the same value: both are falsy, and falsiness is all the code looks at. The same holds for a `None` and an empty metadata dictionary.
- `str()` of a foreign metadata value is the value's `repr` field. A `__str__` that raises is not modelled.
- `PyStr.ToLower` lower-cases ASCII letters only. A name or class string whose non-ASCII letters lower-case to ASCII (KELVIN SIGN to `k`) can compare differently from Python's `lower()`.
- Metadata values reach the HTML page unescaped, as in the code. No safety property is claimed for them.
- The truncated title in the log message of `process_html` is left out.
- `_get_html_styles` is the constant `Formatter.Stylesheet`. The formatter object stores it as `styles`, and the HTML lemmas hold for any stylesheet text.
- Cleaning.CleanTextNormalForm: single spacing is stated only for text without bare control characters, because deleting one between two spaces leaves a double space (see `Cleaning.ControlLeavesDoubleSpace`).
- Cleaning.CleanTextIdempotent: not stated for text holding a bare control character, because there it fails: `"a \x01 b"` cleans to `"a  b"`, which cleans to `"a b"` (see `Cleaning.ControlLeavesDoubleSpace`).
- ElementFilter.Soup.RemoveUnwantedElements: the corrected filter, not the class pass as written, which can raise (see Findings). The class pass as written is `ElementFilter.RunClassPass` and `ElementFilter.ClassPassAsWritten`.
- Processor.ProcessHtml: modelled with the corrected filter. With the class pass as written, `process_html` returns the all-empty record on every page where a denied element holds a classed element; that pipeline is `Processor.ProcessAsWritten`, and `Processor.ProcessAsWrittenAgrees` shows it agrees with `ProcessHtml` on every other page.

## Findings

| source | as written | input that shows it | evidently intended | confidence | as-written member | corrected member |
|---|---|---|---|---|---|---|
| web_content_agent/src/processor/content_processor.py:92-95 | The class pass takes the list of classed elements once, before any deletion. `decompose()` of an element wipes the attributes of every node below it. Reading the class of a wiped element later in the list raises `AttributeError`, and `process_html` then returns the all-empty record. | `<div class="ad"><p class="note">x</p></div>` | Skip the elements already deleted with an ancestor: prune every element with a denied class, together with its subtree | not executed | ElementFilter.NestedClassedElementRaises | ElementFilter.RemoveUnwantedComplete |
