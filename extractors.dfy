/**
  The field extractors of `ContentProcessor` that read text: title, description, main content
  (with `_extract_text_from_elements`) and keywords. Each runs over the already filtered tree.
*/
module Extractors {
  import opened Wrappers
  import opened PyStr
  import opened Dom
  import opened Cleaning

  /** The two settings of a `ContentProcessor`, fixed at construction. */
  datatype Config = Config(minTextLength: int, maxTextLength: int)

  /** `ContentProcessor()` with its default arguments. */
  const DefaultConfig: Config := Config(10, 50000)

  // ---------------------------------------------------------------- candidate search

  /** A candidate text is accepted when it is present, non-empty and longer than the threshold. */
  predicate Qualifies(c: Option<string>, threshold: int) {
    c.Some? && c.value != [] && |c.value| > threshold
  }

  /** The position of the first accepted candidate, in priority order. */
  function FirstQualifying(cands: seq<Option<string>>, threshold: int): (r: Option<nat>)
    ensures r.Some? ==> r.value < |cands| && Qualifies(cands[r.value], threshold)
  {
    if cands == [] then None
    else if Qualifies(cands[0], threshold) then Some(0)
    else match FirstQualifying(cands[1..], threshold)
      case None => None
      case Some(k) => Some(k + 1)
  }

  /** `FirstQualifying` finds position `i` exactly when candidate `i` is accepted and none before it is. */
  lemma {:induction false} FirstQualifyingIsFirst(cands: seq<Option<string>>, threshold: int, i: nat)
    ensures FirstQualifying(cands, threshold) == Some(i) <==>
      i < |cands| && Qualifies(cands[i], threshold) && forall j :: 0 <= j < i ==> !Qualifies(cands[j], threshold)
  {
    if cands != [] && !Qualifies(cands[0], threshold) && i > 0 {
      FirstQualifyingIsFirst(cands[1..], threshold, i - 1);
      assert forall j :: 0 < j < |cands| ==> cands[j] == cands[1..][j - 1];
    }
  }

  /** `FirstQualifying` finds nothing exactly when no candidate is accepted. */
  lemma {:induction false} FirstQualifyingNone(cands: seq<Option<string>>, threshold: int)
    ensures FirstQualifying(cands, threshold).None? <==> forall j :: 0 <= j < |cands| ==> !Qualifies(cands[j], threshold)
  {
    if cands != [] && !Qualifies(cands[0], threshold) {
      FirstQualifyingNone(cands[1..], threshold);
      assert forall j :: 0 < j < |cands| ==> cands[j] == cands[1..][j - 1];
    }
  }

  /** The position of the last present candidate. */
  function LastPresent(cands: seq<Option<string>>): (r: Option<nat>)
    ensures r.Some? ==> r.value < |cands| && cands[r.value].Some?
  {
    if cands == [] then None
    else if cands[|cands| - 1].Some? then Some(|cands| - 1)
    else LastPresent(cands[..|cands| - 1])
  }

  /** `LastPresent` finds position `i` exactly when candidate `i` is present and none after it is. */
  lemma {:induction false} LastPresentIsLast(cands: seq<Option<string>>, i: nat)
    ensures LastPresent(cands) == Some(i) <==>
      i < |cands| && cands[i].Some? && forall j :: i < j < |cands| ==> cands[j].None?
  {
    if cands != [] && cands[|cands| - 1].None? && i < |cands| - 1 {
      LastPresentIsLast(cands[..|cands| - 1], i);
    }
  }

  /** `LastPresent` finds nothing exactly when no candidate is present. */
  lemma {:induction false} LastPresentNone(cands: seq<Option<string>>)
    ensures LastPresent(cands).None? <==> forall j :: 0 <= j < |cands| ==> cands[j].None?
  {
    if cands != [] && cands[|cands| - 1].None? {
      LastPresentNone(cands[..|cands| - 1]);
    }
  }

  // ---------------------------------------------------------------- title and description

  /** `title_selectors`, in priority order. */
  const TitleSelectors: seq<Selector> :=
    [Tag("h1"), Tag("title"), TagAttrEquals("meta", "property", "og:title"), TagAttrEquals("meta", "name", "title")]

  /** `description_selectors`, in priority order. */
  const DescriptionSelectors: seq<Selector> :=
    [TagAttrEquals("meta", "name", "description"), TagAttrEquals("meta", "property", "og:description"),
     TagAttrEquals("meta", "name", "summary")]

  /** `element.get('content', '').strip()` */
  function ContentAttr(e: Node): string {
    Strip(Attr(e, "content", ""))
  }

  /** The text a title element offers: the `content` attribute of a `meta`, otherwise `get_text(strip=True)`. */
  function TitleText(e: Node): string {
    if e.Element? && e.name == "meta" then ContentAttr(e) else GetText(e)
  }

  /** Which field a first-match selector chain is looking for; each reads its match differently. */
  datatype Field = TitleField | DescriptionField

  /** How the title and the description read their first match. */
  function ReadText(field: Field, e: Node): string {
    if field.TitleField? then TitleText(e) else ContentAttr(e)
  }

  /** What one selector offers the title or the description: the text of its first match (`select_one`), or `None`. */
  function FirstCandidate(root: Node, field: Field, sel: Selector): Option<string> {
    match SelectOne(root, sel) case None => None case Some(e) => Some(ReadText(field, e))
  }

  /** The candidates of a title or description chain, in priority order. */
  function FirstCandidates(root: Node, field: Field, sels: seq<Selector>): (r: seq<Option<string>>)
    ensures |r| == |sels|
  {
    if sels == [] then [] else FirstCandidates(root, field, sels[..|sels| - 1]) + [FirstCandidate(root, field, sels[|sels| - 1])]
  }

  lemma {:induction false} FirstCandidatesAt(root: Node, field: Field, sels: seq<Selector>, i: nat)
    requires i < |sels|
    ensures FirstCandidates(root, field, sels)[i] == FirstCandidate(root, field, sels[i])
  {
    if i < |sels| - 1 {
      FirstCandidatesAt(root, field, sels[..|sels| - 1], i);
    }
  }

  /** The cleaned first accepted candidate, or `""` when none is accepted. */
  function Chosen(cands: seq<Option<string>>, threshold: int): string {
    match FirstQualifying(cands, threshold)
    case None => ""
    case Some(i) => CleanText(cands[i].value)
  }

  /** The first accepted candidate is the one chosen, cleaned. */
  lemma ChosenFirst(cands: seq<Option<string>>, threshold: int, i: nat)
    requires i < |cands| && Qualifies(cands[i], threshold)
    requires forall j :: 0 <= j < i ==> !Qualifies(cands[j], threshold)
    ensures Chosen(cands, threshold) == CleanText(cands[i].value)
  {
    FirstQualifyingIsFirst(cands, threshold, i);
  }

  /** With no accepted candidate the result is `""`. */
  lemma ChosenNone(cands: seq<Option<string>>, threshold: int)
    requires forall j :: 0 <= j < |cands| ==> !Qualifies(cands[j], threshold)
    ensures Chosen(cands, threshold) == ""
  {
    FirstQualifyingNone(cands, threshold);
  }

  /** `_extract_title(soup)` */
  function TitleOf(root: Node): string {
    Chosen(FirstCandidates(root, TitleField, TitleSelectors), 3)
  }

  /** `_extract_description(soup)` */
  function DescriptionOf(root: Node): string {
    Chosen(FirstCandidates(root, DescriptionField, DescriptionSelectors), 10)
  }

  /** What selector `i` contributes to a first-match chain: the text of its first match, if any. */
  method ReadFirst(root: Node, field: Field, sels: seq<Selector>, i: nat) returns (t: Option<string>)
    requires i < |sels|
    ensures t == FirstCandidates(root, field, sels)[i]
  {
    FirstCandidatesAt(root, field, sels, i);
    var element := SelectOne(root, sels[i]);
    if element.Some? {
      t := Some(ReadText(field, element.value));
    } else {
      t := None;
    }
  }

  /**
    The early-return loop of `_extract_title` and `_extract_description`: for each selector in
    turn, read the first match and return its cleaned text if it is long enough.
  */
  method SearchChain(root: Node, field: Field, sels: seq<Selector>, threshold: int) returns (text: string)
    ensures text == Chosen(FirstCandidates(root, field, sels), threshold)
  {
    ghost var cands := FirstCandidates(root, field, sels);
    for i := 0 to |sels|
      invariant forall j :: 0 <= j < i ==> !Qualifies(cands[j], threshold)
    {
      var t := ReadFirst(root, field, sels, i);
      if t.Some? && t.value != [] && |t.value| > threshold {
        ChosenFirst(cands, threshold, i);
        return CleanText(t.value);
      }
    }
    ChosenNone(cands, threshold);
    return "";
  }

  /** `_extract_title(soup)` */
  method ExtractTitle(root: Node) returns (title: string)
    ensures title == TitleOf(root)
  {
    title := SearchChain(root, TitleField, TitleSelectors, 3);
  }

  /** `_extract_description(soup)` */
  method ExtractDescription(root: Node) returns (description: string)
    ensures description == DescriptionOf(root)
  {
    description := SearchChain(root, DescriptionField, DescriptionSelectors, 10);
  }

  // ---------------------------------------------------------------- text from elements

  /** The tags `_extract_text_from_elements` reads paragraphs from. */
  const ParagraphTags: seq<string> := ["p", "div", "h1", "h2", "h3", "h4", "h5", "h6", "li"]

  /** The texts of the paragraphs that are kept: non-empty and at least `minLength` long, in order. */
  function ParagraphTexts(ps: seq<Node>, minLength: int): (r: seq<string>)
    ensures |r| <= |ps|
  {
    if ps == [] then []
    else
      var t := GetText(ps[|ps| - 1]);
      ParagraphTexts(ps[..|ps| - 1], minLength) + (if t != [] && |t| >= minLength then [t] else [])
  }

  /** What one element contributes: its kept paragraph texts, or its own text when it has no paragraph at all. */
  function ElementTexts(e: Node, minLength: int): seq<string> {
    var ps := Select(e, AnyTag(ParagraphTags));
    if ps != [] then ParagraphTexts(ps, minLength)
    else var t := GetText(e); if t != [] then [t] else []
  }

  /** The texts of all elements, element by element. */
  function Texts(elements: seq<Node>, minLength: int): seq<string> {
    if elements == [] then []
    else Texts(elements[..|elements| - 1], minLength) + ElementTexts(elements[|elements| - 1], minLength)
  }

  /** Every paragraph text kept is non-empty and at least `minLength` long. */
  lemma {:induction false} ParagraphTextsKept(ps: seq<Node>, minLength: int)
    ensures forall k :: 0 <= k < |ParagraphTexts(ps, minLength)| ==>
      ParagraphTexts(ps, minLength)[k] != [] && |ParagraphTexts(ps, minLength)[k]| >= minLength
  {
    if ps != [] {
      ParagraphTextsKept(ps[..|ps| - 1], minLength);
    }
  }

  /** Every text collected is non-empty. */
  lemma {:induction false} TextsNonEmpty(elements: seq<Node>, minLength: int)
    ensures forall k :: 0 <= k < |Texts(elements, minLength)| ==> Texts(elements, minLength)[k] != []
  {
    if elements != [] {
      TextsNonEmpty(elements[..|elements| - 1], minLength);
      var e := elements[|elements| - 1];
      ParagraphTextsKept(Select(e, AnyTag(ParagraphTags)), minLength);
      var a := Texts(elements[..|elements| - 1], minLength);
      var b := ElementTexts(e, minLength);
      assert forall k :: 0 <= k < |b| ==> b[k] != [];
      assert forall k :: |a| <= k < |a| + |b| ==> (a + b)[k] == b[k - |a|];
    }
  }

  /** `_extract_text_from_elements(elements)` */
  function TextFromElements(elements: seq<Node>, minLength: int): string {
    Join("\n", Texts(elements, minLength))
  }

  /** No text is kept exactly when the joined result is empty, since every kept text is non-empty. */
  lemma TextFromElementsEmpty(elements: seq<Node>, minLength: int)
    ensures TextFromElements(elements, minLength) == [] <==> Texts(elements, minLength) == []
  {
    var ts := Texts(elements, minLength);
    TextsNonEmpty(elements, minLength);
    if |ts| > 1 {
      assert |Join("\n", ts)| >= |ts[0]| + 1;
    } else if |ts| == 1 {
      assert Join("\n", ts) == ts[0];
    }
  }

  lemma TextsSnoc(elements: seq<Node>, i: nat, minLength: int)
    requires i < |elements|
    ensures Texts(elements[..i + 1], minLength) == Texts(elements[..i], minLength) + ElementTexts(elements[i], minLength)
  {
    assert elements[..i + 1][..i] == elements[..i];
  }

  lemma ParagraphTextsSnoc(ps: seq<Node>, k: nat, minLength: int)
    requires k < |ps|
    ensures ParagraphTexts(ps[..k + 1], minLength) == ParagraphTexts(ps[..k], minLength) +
      (if GetText(ps[k]) != [] && |GetText(ps[k])| >= minLength then [GetText(ps[k])] else [])
  {
    assert ps[..k + 1][..k] == ps[..k];
  }

  /** The inner loop of `_extract_text_from_elements`: append the kept paragraph texts to `texts`. */
  method AppendParagraphTexts(texts: seq<string>, paragraphs: seq<Node>, minLength: int) returns (r: seq<string>)
    ensures r == texts + ParagraphTexts(paragraphs, minLength)
  {
    r := texts;
    for k := 0 to |paragraphs|
      invariant r == texts + ParagraphTexts(paragraphs[..k], minLength)
    {
      ParagraphTextsSnoc(paragraphs, k, minLength);
      var t := GetText(paragraphs[k]);
      if t != [] && |t| >= minLength {
        r := r + [t];
      }
    }
    assert paragraphs[..|paragraphs|] == paragraphs;
  }

  /** One turn of the outer loop: the element's paragraphs when it has some, otherwise its own text. */
  method AppendElementTexts(texts: seq<string>, element: Node, minLength: int) returns (r: seq<string>)
    ensures r == texts + ElementTexts(element, minLength)
  {
    var paragraphs := Select(element, AnyTag(ParagraphTags));
    if paragraphs != [] {
      r := AppendParagraphTexts(texts, paragraphs, minLength);
    } else {
      var t := GetText(element);
      r := if t != [] then texts + [t] else texts;
    }
  }

  /** `_extract_text_from_elements(elements)` as the loop that appends to `texts`. */
  method ExtractTextFromElements(elements: seq<Node>, minLength: int) returns (text: string)
    ensures text == TextFromElements(elements, minLength)
  {
    var texts: seq<string> := [];
    for i := 0 to |elements|
      invariant texts == Texts(elements[..i], minLength)
    {
      TextsSnoc(elements, i, minLength);
      texts := AppendElementTexts(texts, elements[i], minLength);
    }
    assert elements[..|elements|] == elements;
    text := Join("\n", texts);
  }

  // ---------------------------------------------------------------- main content

  /** `content_selectors`, in priority order. */
  const ContentSelectors: seq<Selector> :=
    [Tag("main"), Tag("article"), AttrEquals("role", "main"), HasClass("content"), HasClass("main-content"),
     HasClass("article-content"), HasClass("post-content"), HasClass("entry-content"), HasId("content"),
     HasId("main-content")]

  /** What one selector offers the main content: the text of all its matches (`select`), or `None` when there are none. */
  function MainCandidate(root: Node, sel: Selector, minLength: int): Option<string> {
    var els := Select(root, sel); if els == [] then None else Some(TextFromElements(els, minLength))
  }

  /** The candidates of the main-content chain, in priority order. */
  function MainCandidates(root: Node, sels: seq<Selector>, minLength: int): (r: seq<Option<string>>)
    ensures |r| == |sels|
  {
    if sels == [] then [] else MainCandidates(root, sels[..|sels| - 1], minLength) + [MainCandidate(root, sels[|sels| - 1], minLength)]
  }

  lemma {:induction false} MainCandidatesAt(root: Node, sels: seq<Selector>, minLength: int, i: nat)
    requires i < |sels|
    ensures MainCandidates(root, sels, minLength)[i] == MainCandidate(root, sels[i], minLength)
  {
    if i < |sels| - 1 {
      MainCandidatesAt(root, sels[..|sels| - 1], minLength, i);
    }
  }

  /** A selector's text wins the chain when it is longer than this; shorter chosen text falls back to the body. */
  const MainThreshold: int := 100

  /**
    The text the selector loop ends with: the first candidate longer than the threshold;
    failing that, the last candidate present; failing that, `""`.
  */
  function ChainWinner(cands: seq<Option<string>>): string {
    match FirstQualifying(cands, MainThreshold)
    case Some(i) => cands[i].value
    case None => LastText(cands)
  }

  /** The text the loop holds when no selector has won: the last candidate present, or `""`. */
  function LastText(cands: seq<Option<string>>): string {
    match LastPresent(cands) case None => "" case Some(k) => cands[k].value
  }

  /** With no long candidate, the winner is the last candidate present; with none present, `""`. */
  lemma ChainWinnerFallback(cands: seq<Option<string>>, i: nat)
    requires forall j :: 0 <= j < |cands| ==> !Qualifies(cands[j], MainThreshold)
    ensures i < |cands| && cands[i].Some? && (forall j :: i < j < |cands| ==> cands[j].None?) ==> ChainWinner(cands) == cands[i].value
    ensures (forall j :: 0 <= j < |cands| ==> cands[j].None?) ==> ChainWinner(cands) == ""
  {
    FirstQualifyingNone(cands, MainThreshold);
    LastPresentIsLast(cands, i);
    LastPresentNone(cands);
  }

  /** The text before cleaning: the chain winner, replaced by the body's text when shorter than the threshold and a body exists. */
  function RawMainContent(root: Node, minLength: int): string {
    var chosen := ChainWinner(MainCandidates(root, ContentSelectors, minLength));
    if |chosen| < MainThreshold then
      match SelectOne(root, Tag("body"))
      case Some(body) => TextFromElements([body], minLength)
      case None => chosen
    else chosen
  }

  /** `_extract_main_content(soup)` */
  function MainContentOf(root: Node, cfg: Config): string {
    TruncateContent(CleanText(RawMainContent(root, cfg.minTextLength)), cfg.maxTextLength)
  }

  /** The main content is clean up to the cap and never exceeds the cap by more than the three dots. */
  lemma MainContentBound(root: Node, cfg: Config)
    requires 0 <= cfg.maxTextLength
    ensures |MainContentOf(root, cfg)| <= cfg.maxTextLength + 3
    ensures var c := CleanText(RawMainContent(root, cfg.minTextLength));
            if |c| > cfg.maxTextLength then MainContentOf(root, cfg) == c[..cfg.maxTextLength] + "..."
            else MainContentOf(root, cfg) == c
  {
  }

  lemma LastTextSnoc(cands: seq<Option<string>>, i: nat)
    requires i < |cands|
    ensures LastText(cands[..i + 1]) == if cands[i].Some? then cands[i].value else LastText(cands[..i])
  {
    assert cands[..i + 1][..i] == cands[..i];
  }

  /** Breaking at the first long candidate leaves the chain winner. */
  lemma ChainBreak(cands: seq<Option<string>>, i: nat)
    requires i < |cands| && Qualifies(cands[i], MainThreshold)
    requires forall j :: 0 <= j < i ==> !Qualifies(cands[j], MainThreshold)
    ensures ChainWinner(cands) == cands[i].value
  {
    FirstQualifyingIsFirst(cands, MainThreshold, i);
  }

  /** Running out of selectors leaves the chain winner too. */
  lemma ChainEnd(cands: seq<Option<string>>)
    requires forall j :: 0 <= j < |cands| ==> !Qualifies(cands[j], MainThreshold)
    ensures ChainWinner(cands) == LastText(cands[..|cands|])
  {
    FirstQualifyingNone(cands, MainThreshold);
    assert cands[..|cands|] == cands;
  }

  /** One turn of the selector loop: a long candidate decides the winner, any other keeps the loop going. */
  lemma ChainStep(cands: seq<Option<string>>, i: nat, text: Option<string>)
    requires i < |cands| && cands[i] == text
    requires forall j :: 0 <= j < i ==> !Qualifies(cands[j], MainThreshold)
    ensures Qualifies(text, MainThreshold) ==> ChainWinner(cands) == text.value
    ensures !Qualifies(text, MainThreshold) ==> forall j :: 0 <= j < i + 1 ==> !Qualifies(cands[j], MainThreshold)
    ensures LastText(cands[..i + 1]) == if text.Some? then text.value else LastText(cands[..i])
  {
    LastTextSnoc(cands, i);
    if Qualifies(text, MainThreshold) {
      ChainBreak(cands, i);
    }
  }

  /** What one selector contributes to the loop: the text of the elements it selects, if it selects any. */
  method ReadCandidate(root: Node, sels: seq<Selector>, i: nat, minLength: int) returns (text: Option<string>)
    requires i < |sels|
    ensures text == MainCandidates(root, sels, minLength)[i]
  {
    MainCandidatesAt(root, sels, minLength, i);
    var elements := Select(root, sels[i]);
    if elements != [] {
      var t := ExtractTextFromElements(elements, minLength);
      text := Some(t);
    } else {
      text := None;
    }
  }

  /** The selector loop of `_extract_main_content`, which reassigns `main_content` and breaks on a long text. */
  method RunContentChain(root: Node, sels: seq<Selector>, minLength: int) returns (mainContent: string)
    ensures mainContent == ChainWinner(MainCandidates(root, sels, minLength))
  {
    ghost var cands := MainCandidates(root, sels, minLength);
    mainContent := "";
    var i := 0;
    while i < |sels|
      invariant 0 <= i <= |sels|
      invariant forall j :: 0 <= j < i ==> !Qualifies(cands[j], MainThreshold)
      invariant mainContent == LastText(cands[..i])
    {
      var text := ReadCandidate(root, sels, i, minLength);
      ChainStep(cands, i, text);
      if text.Some? {
        mainContent := text.value;
        if |mainContent| > MainThreshold {
          return;
        }
      }
      i := i + 1;
    }
    ChainEnd(cands);
  }

  /** The selector loop, then the body's text when the loop's text is shorter than the threshold and a body exists. */
  method ChainOrBody(root: Node, minLength: int) returns (mainContent: string)
    ensures mainContent == RawMainContent(root, minLength)
  {
    mainContent := RunContentChain(root, ContentSelectors, minLength);
    if |mainContent| < MainThreshold {
      var body := SelectOne(root, Tag("body"));
      if body.Some? {
        mainContent := ExtractTextFromElements([body.value], minLength);
      }
    }
  }

  /** `_extract_main_content(soup)`: the selector loop, the body fallback, cleaning and the length cap. */
  method ExtractMainContent(root: Node, cfg: Config) returns (mainContent: string)
    ensures mainContent == MainContentOf(root, cfg)
  {
    mainContent := ChainOrBody(root, cfg.minTextLength);
    mainContent := CleanText(mainContent);
    if |mainContent| > cfg.maxTextLength {
      mainContent := Prefix(mainContent, cfg.maxTextLength) + "...";
    }
  }

  // ---------------------------------------------------------------- keywords

  /** `keywords_selectors`, in order. */
  const KeywordSelectors: seq<Selector> :=
    [TagAttrEquals("meta", "name", "keywords"), TagAttrEquals("meta", "property", "article:tag")]

  /** How many keywords are kept. */
  const MaxKeywords: int := 10

  /** `[kw.strip() for kw in parts]` */
  function StripAll(parts: seq<string>): (r: seq<string>)
    ensures |r| == |parts|
  {
    if parts == [] then [] else [Strip(parts[0])] + StripAll(parts[1..])
  }

  /** Piece `k` of the result is piece `k` of the input, stripped. */
  lemma {:induction false} StripAllAt(parts: seq<string>)
    ensures forall k :: 0 <= k < |parts| ==> StripAll(parts)[k] == Strip(parts[k])
  {
    if parts != [] {
      StripAllAt(parts[1..]);
      assert forall k :: 0 < k < |parts| ==> parts[k] == parts[1..][k - 1];
    }
  }

  /** The keywords one element contributes: its stripped `content` split at commas, each piece stripped. */
  function ElementKeywords(e: Node): seq<string> {
    var content := ContentAttr(e);
    if content != [] then StripAll(Split(content, ",")) else []
  }

  /** The keywords of a run of elements, in order. */
  function KeywordsOfElements(es: seq<Node>): seq<string> {
    if es == [] then [] else KeywordsOfElements(es[..|es| - 1]) + ElementKeywords(es[|es| - 1])
  }

  /** All keywords, selector by selector. */
  function AllKeywords(root: Node, sels: seq<Selector>): seq<string> {
    if sels == [] then [] else AllKeywords(root, sels[..|sels| - 1]) + KeywordsOfElements(Select(root, sels[|sels| - 1]))
  }

  /** The keywords kept: the first ten. */
  function KeptKeywords(root: Node): (r: seq<string>)
    ensures |r| <= MaxKeywords
  {
    Prefix(AllKeywords(root, KeywordSelectors), MaxKeywords)
  }

  /** `_extract_keywords(soup)` */
  function KeywordsOf(root: Node): string {
    Join(", ", KeptKeywords(root))
  }

  /** A keyword as the result holds it: no comma inside and no whitespace at either end. */
  predicate IsKeyword(w: string) {
    ',' !in w && Trimmed(w)
  }

  /** Stripping pieces without commas gives keywords. */
  lemma {:induction false} StripAllShape(parts: seq<string>)
    requires forall p :: p in parts ==> ',' !in p
    ensures forall w :: w in StripAll(parts) ==> IsKeyword(w)
  {
    if parts != [] {
      assert parts[0] in parts;
      assert forall p :: p in parts[1..] ==> p in parts;
      StripAllShape(parts[1..]);
      StripChars(parts[0]);
      assert StripAll(parts) == [Strip(parts[0])] + StripAll(parts[1..]);
    }
  }

  /** Every element keyword is a keyword. */
  lemma ElementKeywordsShape(e: Node)
    ensures forall w :: w in ElementKeywords(e) ==> IsKeyword(w)
  {
    var content := ContentAttr(e);
    if content != [] {
      assert "," == [','];
      SplitOnChar(content, ',');
      StripAllShape(Split(content, ","));
    }
  }

  lemma {:induction false} KeywordsOfElementsShape(es: seq<Node>)
    ensures forall w :: w in KeywordsOfElements(es) ==> IsKeyword(w)
  {
    if es != [] {
      KeywordsOfElementsShape(es[..|es| - 1]);
      ElementKeywordsShape(es[|es| - 1]);
    }
  }

  lemma {:induction false} AllKeywordsShape(root: Node, sels: seq<Selector>)
    ensures forall w :: w in AllKeywords(root, sels) ==> IsKeyword(w)
  {
    if sels != [] {
      AllKeywordsShape(root, sels[..|sels| - 1]);
      KeywordsOfElementsShape(Select(root, sels[|sels| - 1]));
    }
  }

  /**
    At most ten keywords are kept, each without a comma and without whitespace at its ends, so
    splitting the result at `", "` gives them back whenever there is at least one.
  */
  lemma KeywordsRoundTrip(root: Node)
    ensures |KeptKeywords(root)| <= MaxKeywords
    ensures forall w :: w in KeptKeywords(root) ==> IsKeyword(w)
    ensures KeptKeywords(root) != [] ==> Split(KeywordsOf(root), ", ") == KeptKeywords(root)
  {
    var all := AllKeywords(root, KeywordSelectors);
    AllKeywordsShape(root, KeywordSelectors);
    var kept := KeptKeywords(root);
    assert forall w :: w in kept ==> w in all;
    if kept != [] {
      SplitJoin(", ", kept);
    }
  }

  lemma AllKeywordsSnoc(root: Node, sels: seq<Selector>, i: nat)
    requires i < |sels|
    ensures AllKeywords(root, sels[..i + 1]) == AllKeywords(root, sels[..i]) + KeywordsOfElements(Select(root, sels[i]))
  {
    assert sels[..i + 1][..i] == sels[..i];
  }

  lemma KeywordsOfElementsSnoc(es: seq<Node>, k: nat)
    requires k < |es|
    ensures KeywordsOfElements(es[..k + 1]) == KeywordsOfElements(es[..k]) +
      (if ContentAttr(es[k]) != [] then StripAll(Split(ContentAttr(es[k]), ",")) else [])
  {
    assert es[..k + 1][..k] == es[..k];
  }

  /** The inner loop of `_extract_keywords`: the keywords of the elements one selector matched. */
  method KeywordsOfMatches(elements: seq<Node>) returns (keywords: seq<string>)
    ensures keywords == KeywordsOfElements(elements)
  {
    keywords := [];
    for k := 0 to |elements|
      invariant keywords == KeywordsOfElements(elements[..k])
    {
      KeywordsOfElementsSnoc(elements, k);
      var content := ContentAttr(elements[k]);
      if content != [] {
        keywords := keywords + StripAll(Split(content, ","));
      }
    }
    assert elements[..|elements|] == elements;
  }

  /** The outer loop of `_extract_keywords`, selector by selector. */
  method CollectKeywords(root: Node, sels: seq<Selector>) returns (keywords: seq<string>)
    ensures keywords == AllKeywords(root, sels)
  {
    keywords := [];
    for s := 0 to |sels|
      invariant keywords == AllKeywords(root, sels[..s])
    {
      AllKeywordsSnoc(root, sels, s);
      var more := KeywordsOfMatches(Select(root, sels[s]));
      keywords := keywords + more;
    }
    assert sels[..|sels|] == sels;
  }

  /** `_extract_keywords(soup)` */
  method ExtractKeywords(root: Node) returns (keywords: string)
    ensures keywords == KeywordsOf(root)
  {
    var all := CollectKeywords(root, KeywordSelectors);
    keywords := Join(", ", Prefix(all, MaxKeywords));
  }
}
