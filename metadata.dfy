/**
  The metadata dictionary the formatter reads and `OutputFormatter.add_metadata` builds,
  with the values it can hold and the three content counts it records.
*/
module Metadata {
  import opened Wrappers
  import opened PyStr

  /**
    A metadata value. `Other` stands for any other Python object: `repr` is what `str()`
    shows, `truthy` its truth value, and `serialisable` whether `json.dumps` accepts it.
  */
  datatype Value = Str(s: string) | Int(i: int) | Bool(b: bool) | Null | Other(repr: string, truthy: bool, serialisable: bool)

  /** A metadata dictionary; an absent one (`None`) behaves as the empty one everywhere it is read. */
  type Metadata = map<string, Value>

  /** Python truthiness of a value. */
  predicate Truthy(v: Value) {
    match v
    case Str(s) => s != []
    case Int(i) => i != 0
    case Bool(b) => b
    case Null => false
    case Other(_, truthy, _) => truthy
  }

  /** `metadata.get(key)`: `None` when the key is absent. */
  function Get(m: Metadata, key: string): Value {
    if key in m then m[key] else Null
  }

  /** `if metadata.get(key):` */
  predicate Has(m: Metadata, key: string) {
    Truthy(Get(m, key))
  }

  /** `str(value)`, as an f-string shows it. */
  function Show(v: Value): string {
    match v
    case Str(s) => s
    case Int(i) => IntToString(i)
    case Bool(b) => if b then "True" else "False"
    case Null => "None"
    case Other(repr, _, _) => repr
  }

  /** Whether `json.dumps` accepts the value. */
  predicate Serialisable(v: Value) {
    !v.Other? || v.serialisable
  }

  /** `len(content)` */
  function CharCount(content: string): nat {
    |content|
  }

  /** `len(content.split())` */
  function WordCount(content: string): nat {
    |SplitWhitespace(content)|
  }

  /** `len(content.split('\n'))` */
  function LineCount(content: string): nat {
    |Split(content, "\n")|
  }

  /** The word count is the number of maximal runs of non-whitespace; the line count is one more than the number of newlines. */
  lemma CountsMeaning(content: string)
    ensures WordCount(content) == RunStarts(content, true)
    ensures LineCount(content) == Count(content, '\n') + 1
  {
    WordCountIsRunCount(content);
    SplitOnChar(content, '\n');
  }

  /** A string argument that defaults to `None` is used only when it is truthy; `None` and `""` both stand as `""` here. */
  predicate Given(o: string) {
    o != []
  }

  /** The keys `add_metadata` always computes. */
  const ComputedKeys: set<string> := {"timestamp", "char_count", "word_count", "line_count"}

  /** The dictionary literal `add_metadata` starts from: the time and the three counts. */
  function Fields(stamp: string, chars: nat, words: nat, lines: nat): Metadata {
    map["timestamp" := Str(stamp), "char_count" := Int(chars), "word_count" := Int(words), "line_count" := Int(lines)]
  }

  /** That literal for `content`. */
  function Computed(content: string, stamp: string): Metadata {
    Fields(stamp, CharCount(content), WordCount(content), LineCount(content))
  }

  /** `if cond: metadata[key] = value` */
  function SetIf(m: Metadata, cond: bool, key: string, v: Value): Metadata {
    if cond then m[key := v] else m
  }

  /** The two conditional assignments, then `metadata.update(extra)`, applied to the dictionary `c`. */
  function Assemble(c: Metadata, sourceUrl: string, template: string, extra: Metadata): Metadata {
    SetIf(SetIf(c, Given(sourceUrl), "source_url", Str(sourceUrl)), Given(template), "template", Str(template)) + extra
  }

  /** `add_metadata(content, source_url, template, **extra)` with `stamp` the formatted current time. */
  function MetadataOf(content: string, sourceUrl: string, template: string, extra: Metadata, stamp: string): Metadata {
    Assemble(Computed(content, stamp), sourceUrl, template, extra)
  }

  /** Looking a key up in a merged dictionary: the right-hand side wins. */
  lemma GetMerge(a: Metadata, b: Metadata, k: string)
    ensures Get(a + b, k) == if k in b then b[k] else Get(a, k)
    ensures k in a + b <==> k in a || k in b
  {
  }

  /** Looking a key up after a conditional assignment. */
  lemma GetSetIf(m: Metadata, cond: bool, key: string, v: Value, k: string)
    ensures Get(SetIf(m, cond, key, v), k) == if cond && k == key then v else Get(m, k)
    ensures k in SetIf(m, cond, key, v) <==> (cond && k == key) || k in m
  {
  }

  /** The six key names are pairwise different. */
  lemma KeysDistinct()
    ensures "timestamp" != "char_count" && "timestamp" != "word_count" && "timestamp" != "line_count"
    ensures "char_count" != "word_count" && "char_count" != "line_count" && "word_count" != "line_count"
    ensures "timestamp" != "source_url" && "char_count" != "source_url" && "word_count" != "source_url" && "line_count" != "source_url"
    ensures "timestamp" != "template" && "char_count" != "template" && "word_count" != "template" && "line_count" != "template"
    ensures "source_url" != "template"
  {
    assert "timestamp"[0] == 't' && "char_count"[0] == 'c' && "word_count"[0] == 'w' && "line_count"[0] == 'l';
    assert "source_url"[0] == 's' && "template"[0] == 't' && "template"[1] == 'e' && "timestamp"[1] == 'i';
  }

  /** The literal holds exactly the computed keys, each with its value; neither optional key is among them. */
  lemma FieldsGet(stamp: string, chars: nat, words: nat, lines: nat)
    ensures var f := Fields(stamp, chars, words, lines);
      && f.Keys == ComputedKeys && "source_url" !in f && "template" !in f
      && Get(f, "timestamp") == Str(stamp) && Get(f, "char_count") == Int(chars)
      && Get(f, "word_count") == Int(words) && Get(f, "line_count") == Int(lines)
  {
    KeysDistinct();
  }

  /** A key of the assembled dictionary: an extra field wins, then a given argument, then the starting dictionary. */
  lemma AssembleGet(c: Metadata, sourceUrl: string, template: string, extra: Metadata, k: string)
    ensures Get(Assemble(c, sourceUrl, template, extra), k) ==
      if k in extra then extra[k]
      else if k == "template" && Given(template) then Str(template)
      else if k == "source_url" && Given(sourceUrl) then Str(sourceUrl)
      else Get(c, k)
    ensures k in Assemble(c, sourceUrl, template, extra) <==>
              (k in extra || (k == "template" && Given(template)) || (k == "source_url" && Given(sourceUrl)) || k in c)
  {
    var u := SetIf(c, Given(sourceUrl), "source_url", Str(sourceUrl));
    var t := SetIf(u, Given(template), "template", Str(template));
    GetMerge(t, extra, k);
    GetSetIf(u, Given(template), "template", Str(template), k);
    GetSetIf(c, Given(sourceUrl), "source_url", Str(sourceUrl), k);
    KeysDistinct();
  }

  /** The keys are the four computed ones, `source_url` and `template` only when given, and the extra ones. */
  lemma MetadataKeys(content: string, sourceUrl: string, template: string, extra: Metadata, stamp: string)
    ensures var m := MetadataOf(content, sourceUrl, template, extra, stamp);
      forall k :: k in m <==> (k in ComputedKeys || (k == "source_url" && Given(sourceUrl))
                                 || (k == "template" && Given(template)) || k in extra)
  {
    var c := Computed(content, stamp);
    FieldsGet(stamp, CharCount(content), WordCount(content), LineCount(content));
    forall k
      ensures k in Assemble(c, sourceUrl, template, extra) <==> (k in ComputedKeys || (k == "source_url" && Given(sourceUrl))
                                                                 || (k == "template" && Given(template)) || k in extra)
    {
      AssembleGet(c, sourceUrl, template, extra, k);
    }
  }

  /** An extra field overrides a computed one. */
  lemma MetadataOverride(content: string, sourceUrl: string, template: string, extra: Metadata, stamp: string)
    ensures var m := MetadataOf(content, sourceUrl, template, extra, stamp);
      forall k :: k in extra ==> k in m && m[k] == extra[k]
  {
  }

  /** Unless overridden, the timestamp is the given one and each count is the one computed from the content. */
  lemma MetadataCounts(content: string, sourceUrl: string, template: string, extra: Metadata, stamp: string)
    ensures var m := MetadataOf(content, sourceUrl, template, extra, stamp);
      && ("timestamp" !in extra ==> "timestamp" in m && Get(m, "timestamp") == Str(stamp))
      && ("char_count" !in extra ==> "char_count" in m && Get(m, "char_count") == Int(CharCount(content)))
      && ("word_count" !in extra ==> "word_count" in m && Get(m, "word_count") == Int(WordCount(content)))
      && ("line_count" !in extra ==> "line_count" in m && Get(m, "line_count") == Int(LineCount(content)))
  {
    var c := Computed(content, stamp);
    FieldsGet(stamp, CharCount(content), WordCount(content), LineCount(content));
    KeysDistinct();
    AssembleGet(c, sourceUrl, template, extra, "timestamp");
    AssembleGet(c, sourceUrl, template, extra, "char_count");
    AssembleGet(c, sourceUrl, template, extra, "word_count");
    AssembleGet(c, sourceUrl, template, extra, "line_count");
  }

  /** Unless overridden, `source_url` and `template` hold the arguments when given and are absent otherwise. */
  lemma MetadataArguments(content: string, sourceUrl: string, template: string, extra: Metadata, stamp: string)
    ensures var m := MetadataOf(content, sourceUrl, template, extra, stamp);
      && ("source_url" !in extra ==> Get(m, "source_url") == if Given(sourceUrl) then Str(sourceUrl) else Null)
      && ("template" !in extra ==> Get(m, "template") == if Given(template) then Str(template) else Null)
  {
    var c := Computed(content, stamp);
    FieldsGet(stamp, CharCount(content), WordCount(content), LineCount(content));
    KeysDistinct();
    AssembleGet(c, sourceUrl, template, extra, "source_url");
    AssembleGet(c, sourceUrl, template, extra, "template");
  }

  /** The built dictionary always holds the stats keys, so every render that receives it shows its stats block. */
  lemma MetadataHasStats(content: string, sourceUrl: string, template: string, extra: Metadata, stamp: string)
    ensures var m := MetadataOf(content, sourceUrl, template, extra, stamp);
      |m| > 0 && "word_count" in m && "char_count" in m
  {
    var c := Computed(content, stamp);
    FieldsGet(stamp, CharCount(content), WordCount(content), LineCount(content));
    AssembleGet(c, sourceUrl, template, extra, "word_count");
    AssembleGet(c, sourceUrl, template, extra, "char_count");
  }

  /** The dictionary after the two conditional assignments and the update, case by case. */
  lemma MetadataSteps(content: string, sourceUrl: string, template: string, extra: Metadata, stamp: string)
    ensures MetadataOf(content, sourceUrl, template, extra, stamp) ==
      (if Given(template) then
         (if Given(sourceUrl) then Computed(content, stamp)["source_url" := Str(sourceUrl)] else Computed(content, stamp))["template" := Str(template)]
       else if Given(sourceUrl) then Computed(content, stamp)["source_url" := Str(sourceUrl)] else Computed(content, stamp)) + extra
  {
  }

  /** Every value is a string or an integer, as in a dictionary `add_metadata` built without extra fields. */
  predicate Plain(m: Metadata) {
    forall k :: k in m ==> m[k].Str? || m[k].Int?
  }

  /** A non-empty dictionary that holds the three counts of `content` and only plain values. */
  predicate Describes(m: Metadata, content: string) {
    && Plain(m) && |m| > 0
    && "char_count" in m && "word_count" in m && "line_count" in m
    && m["char_count"] == Int(CharCount(content))
    && m["word_count"] == Int(WordCount(content))
    && m["line_count"] == Int(LineCount(content))
  }

  lemma SetIfPlain(m: Metadata, cond: bool, key: string, s: string)
    requires Plain(m)
    ensures Plain(SetIf(m, cond, key, Str(s)))
  {
  }

  lemma ComputedPlain(content: string, stamp: string)
    ensures Plain(Computed(content, stamp))
  {
  }

  /** Without extra fields, the dictionary holds plain values only and records the counts of its content. */
  lemma MetadataDescribes(content: string, sourceUrl: string, template: string, stamp: string)
    ensures Describes(MetadataOf(content, sourceUrl, template, map[], stamp), content)
  {
    MetadataPlain(content, sourceUrl, template, stamp);
    MetadataCounts(content, sourceUrl, template, map[], stamp);
  }

  /** Without extra fields, every value is a string or an integer. */
  lemma MetadataPlain(content: string, sourceUrl: string, template: string, stamp: string)
    ensures Plain(MetadataOf(content, sourceUrl, template, map[], stamp))
  {
    var c := Computed(content, stamp);
    ComputedPlain(content, stamp);
    var u := SetIf(c, Given(sourceUrl), "source_url", Str(sourceUrl));
    SetIfPlain(c, Given(sourceUrl), "source_url", sourceUrl);
    var t := SetIf(u, Given(template), "template", Str(template));
    SetIfPlain(u, Given(template), "template", template);
    assert t + map[] == t;
  }

  /** `add_metadata`: build the dictionary, add the optional keys, then `update` it with the extra fields. */
  method AddMetadata(content: string, sourceUrl: string, template: string, extra: Metadata, stamp: string)
    returns (metadata: Metadata)
    ensures metadata == MetadataOf(content, sourceUrl, template, extra, stamp)
  {
    metadata := Computed(content, stamp);
    if Given(sourceUrl) {
      metadata := metadata["source_url" := Str(sourceUrl)];
    }
    if Given(template) {
      metadata := metadata["template" := Str(template)];
    }
    metadata := metadata + extra;
    MetadataSteps(content, sourceUrl, template, extra, stamp);
  }
}
