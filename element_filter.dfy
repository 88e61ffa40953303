/**
  The element filter (`ContentProcessor._remove_unwanted_elements`): before any field is
  extracted, every element whose tag is on a denylist, and then every element whose class
  string holds a denylisted keyword, is deleted together with its subtree.
*/
module ElementFilter {
  import opened Wrappers
  import opened PyStr
  import opened Dom

  /** `self.remove_tags` */
  const RemoveTags: seq<string> :=
    ["script", "style", "nav", "header", "footer", "aside", "advertisement", "ads", "sidebar", "menu", "comment"]

  /** `self.remove_classes` */
  const RemoveClasses: seq<string> :=
    ["nav", "menu", "sidebar", "footer", "header", "ad", "ads", "advertisement", "comment", "share",
     "social", "related", "recommend", "popup", "modal"]

  /** `' '.join(element.get('class', [])).lower()` */
  function ClassString(n: Node): string {
    ToLower(Join(" ", Classes(n)))
  }

  /** The class condition of the second pass: some denied keyword is a substring of the class string. */
  predicate HasDeniedClass(n: Node) {
    n.Element? && exists k :: k in RemoveClasses && Contains(ClassString(n), k)
  }

  /** What one removal step deletes: the elements with one tag name, or the elements with a denied class. */
  datatype Rule = ByTag(tag: string) | ByDeniedClass

  predicate Hits(n: Node, rule: Rule) {
    match rule
    case ByTag(t) => n.Element? && n.name == t
    case ByDeniedClass => HasDeniedClass(n)
  }

  /** `n` with every descendant that the rule hits decomposed, that is, deleted with its whole subtree. */
  function Prune(n: Node, rule: Rule): Node {
    match n
    case Text(_) => n
    case Element(name, attrs, children) => Element(name, attrs, PruneForest(children, rule))
  }

  function PruneForest(ns: seq<Node>, rule: Rule): seq<Node> {
    if ns == [] then []
    else (if Hits(ns[0], rule) then [] else [Prune(ns[0], rule)]) + PruneForest(ns[1..], rule)
  }

  /** No node of the forest, at any depth, is hit by the rule. */
  ghost predicate CleanForest(ns: seq<Node>, rule: Rule) {
    forall d :: d in Forest(ns) ==> !Hits(d, rule)
  }

  /** A `find_all` for what the rule hits finds nothing below `n`. */
  ghost predicate Clean(n: Node, rule: Rule) {
    forall d :: d in Descendants(n) ==> !Hits(d, rule)
  }

  lemma {:induction false} ForestAppend(a: seq<Node>, b: seq<Node>)
    ensures Forest(a + b) == Forest(a) + Forest(b)
  {
    if a == [] {
      assert a + b == b;
    } else {
      assert (a + b)[0] == a[0];
      assert (a + b)[1..] == a[1..] + b;
      ForestAppend(a[1..], b);
    }
  }

  /** Pruning keeps a node's name and attributes, so it does not change what any rule says about the node itself. */
  lemma PruneSameNode(n: Node, rule: Rule, other: Rule)
    ensures Hits(Prune(n, rule), other) == Hits(n, other)
  {
  }

  /** After pruning, nothing the rule hits is left. */
  lemma {:induction false} PruneRemoves(n: Node, rule: Rule)
    ensures Clean(Prune(n, rule), rule)
  {
    match n
    case Text(_) =>
    case Element(_, _, children) => PruneForestRemoves(children, rule);
  }

  lemma {:induction false} PruneForestRemoves(ns: seq<Node>, rule: Rule)
    ensures CleanForest(PruneForest(ns, rule), rule)
  {
    if ns != [] {
      var head := if Hits(ns[0], rule) then [] else [Prune(ns[0], rule)];
      PruneForestRemoves(ns[1..], rule);
      ForestAppend(head, PruneForest(ns[1..], rule));
      if !Hits(ns[0], rule) {
        PruneRemoves(ns[0], rule);
        PruneSameNode(ns[0], rule, rule);
        assert Forest(head) == [Prune(ns[0], rule)] + Descendants(Prune(ns[0], rule)) + Forest([]);
      }
    }
  }

  /** Pruning only deletes, so a tree already clean for another rule stays clean for it. */
  lemma {:induction false} PruneKeepsClean(n: Node, rule: Rule, other: Rule)
    requires Clean(n, other)
    ensures Clean(Prune(n, rule), other)
  {
    match n
    case Text(_) =>
    case Element(_, _, children) => PruneForestKeepsClean(children, rule, other);
  }

  lemma {:induction false} PruneForestKeepsClean(ns: seq<Node>, rule: Rule, other: Rule)
    requires CleanForest(ns, other)
    ensures CleanForest(PruneForest(ns, rule), other)
  {
    if ns != [] {
      assert Forest(ns) == [ns[0]] + Descendants(ns[0]) + Forest(ns[1..]);
      var head := if Hits(ns[0], rule) then [] else [Prune(ns[0], rule)];
      PruneForestKeepsClean(ns[1..], rule, other);
      ForestAppend(head, PruneForest(ns[1..], rule));
      if !Hits(ns[0], rule) {
        PruneKeepsClean(ns[0], rule, other);
        PruneSameNode(ns[0], rule, other);
        assert Forest(head) == [Prune(ns[0], rule)] + Descendants(Prune(ns[0], rule)) + Forest([]);
      }
    }
  }

  /** Pruning a tree in which the rule hits nothing changes nothing. */
  lemma {:induction false} PruneCleanIsIdentity(n: Node, rule: Rule)
    requires Clean(n, rule)
    ensures Prune(n, rule) == n
  {
    match n
    case Text(_) =>
    case Element(_, _, children) => PruneForestCleanIsIdentity(children, rule);
  }

  lemma {:induction false} PruneForestCleanIsIdentity(ns: seq<Node>, rule: Rule)
    requires CleanForest(ns, rule)
    ensures PruneForest(ns, rule) == ns
  {
    if ns != [] {
      assert Forest(ns) == [ns[0]] + Descendants(ns[0]) + Forest(ns[1..]);
      PruneCleanIsIdentity(ns[0], rule);
      PruneForestCleanIsIdentity(ns[1..], rule);
      assert ns == [ns[0]] + ns[1..];
    }
  }

  /** The first pass: for each denied tag name in turn, every element with that name is decomposed. */
  function WithoutTags(n: Node, tags: seq<string>): Node {
    if tags == [] then n else Prune(WithoutTags(n, tags[..|tags| - 1]), ByTag(tags[|tags| - 1]))
  }

  /** Both passes of `_remove_unwanted_elements`, as a function of the tree. */
  function RemoveUnwanted(n: Node): Node {
    Prune(WithoutTags(n, RemoveTags), ByDeniedClass)
  }

  /** What the filter is meant to remove. */
  predicate Unwanted(d: Node) {
    (d.Element? && d.name in RemoveTags) || HasDeniedClass(d)
  }

  lemma {:induction false} WithoutTagsRemoves(n: Node, tags: seq<string>)
    ensures forall d, t :: d in Descendants(WithoutTags(n, tags)) && t in tags ==> !Hits(d, ByTag(t))
  {
    if tags != [] {
      var prev := tags[..|tags| - 1];
      var last := tags[|tags| - 1];
      WithoutTagsRemoves(n, prev);
      PruneRemoves(WithoutTags(n, prev), ByTag(last));
      forall t | t in prev
        ensures Clean(WithoutTags(n, tags), ByTag(t))
      {
        PruneKeepsClean(WithoutTags(n, prev), ByTag(last), ByTag(t));
      }
      assert forall t :: t in tags ==> t in prev || t == last;
    }
  }

  lemma {:induction false} WithoutTagsKeepsClean(n: Node, tags: seq<string>, rule: Rule)
    requires Clean(n, rule)
    ensures Clean(WithoutTags(n, tags), rule)
  {
    if tags != [] {
      WithoutTagsKeepsClean(n, tags[..|tags| - 1], rule);
      PruneKeepsClean(WithoutTags(n, tags[..|tags| - 1]), ByTag(tags[|tags| - 1]), rule);
    }
  }

  lemma {:induction false} WithoutTagsCleanIsIdentity(n: Node, tags: seq<string>)
    requires forall t :: t in tags ==> Clean(n, ByTag(t))
    ensures WithoutTags(n, tags) == n
  {
    if tags != [] {
      WithoutTagsCleanIsIdentity(n, tags[..|tags| - 1]);
      PruneCleanIsIdentity(n, ByTag(tags[|tags| - 1]));
    }
  }

  /** After the filter, no element below the root has a denied tag or a denied class. */
  lemma RemoveUnwantedComplete(n: Node)
    ensures forall d :: d in Descendants(RemoveUnwanted(n)) ==> !Unwanted(d)
  {
    var afterTags := WithoutTags(n, RemoveTags);
    WithoutTagsRemoves(n, RemoveTags);
    PruneRemoves(afterTags, ByDeniedClass);
    forall t | t in RemoveTags
      ensures Clean(RemoveUnwanted(n), ByTag(t))
    {
      PruneKeepsClean(afterTags, ByDeniedClass, ByTag(t));
    }
  }

  /** A tree with nothing unwanted below its root passes through the filter unchanged. */
  lemma RemoveUnwantedKeepsWantedTree(n: Node)
    requires forall d :: d in Descendants(n) ==> !Unwanted(d)
    ensures RemoveUnwanted(n) == n
  {
    WithoutTagsCleanIsIdentity(n, RemoveTags);
    PruneCleanIsIdentity(n, ByDeniedClass);
  }

  /** A second pass of the filter removes nothing. */
  lemma RemoveUnwantedIdempotent(n: Node)
    ensures RemoveUnwanted(RemoveUnwanted(n)) == RemoveUnwanted(n)
  {
    RemoveUnwantedComplete(n);
    RemoveUnwantedKeepsWantedTree(RemoveUnwanted(n));
  }

  /** The parsed document (`soup`) that `_remove_unwanted_elements` edits in place. */
  class Soup {
    var root: Node

    constructor (doc: Node)
      ensures root == doc
    {
      root := doc;
    }

    /** `_remove_unwanted_elements(soup)`: the tag pass, tag name by tag name, then the class pass. */
    method RemoveUnwantedElements()
      modifies this
      ensures root == RemoveUnwanted(old(root))
      ensures forall d :: d in Descendants(root) ==> !Unwanted(d)
    {
      for i := 0 to |RemoveTags|
        invariant root == WithoutTags(old(root), RemoveTags[..i])
      {
        assert RemoveTags[..i + 1][..i] == RemoveTags[..i];
        root := Prune(root, ByTag(RemoveTags[i]));
      }
      assert RemoveTags[..|RemoveTags|] == RemoveTags;
      root := Prune(root, ByDeniedClass);
      RemoveUnwantedComplete(old(root));
    }
  }

  /** `find_all(class_=True)` picks the elements that carry a class attribute. */
  predicate Classed(d: Node) {
    d.Element? && "class" in d.attrs
  }

  /**
    The class pass as the source runs it raises exactly when some element with a denied class
    has a classed element below it: the list of classed elements is taken once, before any
    deletion; `decompose()` wipes the attributes of every node below the deleted element, and
    reading the class of such a wiped element, later in the list, raises `AttributeError`.
  */
  predicate ClassPassRaises(n: Node) {
    exists e :: e in Descendants(n) && HasDeniedClass(e) &&
      exists d :: d in Descendants(e) && Classed(d)
  }

  /**
    What the class pass reads at one position of the document order: whether the node is
    classed, whether its class is denied, and how many nodes lie below it.
  */
  datatype Mark = Mark(classed: bool, denied: bool, size: nat)

  function MarksOf(ds: seq<Node>): (ms: seq<Mark>)
    ensures |ms| == |ds|
    ensures forall j :: 0 <= j < |ds| ==>
      ms[j] == Mark(Classed(ds[j]), HasDeniedClass(ds[j]), |Descendants(ds[j])|)
  {
    seq(|ds|, j requires 0 <= j < |ds| => Mark(Classed(ds[j]), HasDeniedClass(ds[j]), |Descendants(ds[j])|))
  }

  /**
    The class pass as written, from position `i` of the marks of the nodes below the root, in
    document order (`find_all(class_=True)` lists the classed ones). Positions below `wiped`
    that follow the last deleted element lie in its subtree. Whether the pass raises.
  */
  function ClassWalk(ms: seq<Mark>, i: nat, wiped: nat): bool
    decreases |ms| - i
  {
    if i >= |ms| then false
    else if !ms[i].classed then ClassWalk(ms, i + 1, wiped)
    else if i < wiped then true
    else if ms[i].denied then ClassWalk(ms, i + 1, i + 1 + ms[i].size)
    else ClassWalk(ms, i + 1, wiped)
  }

  /** The class pass loop as written, run over the document; whether it raises. */
  method RunClassPass(n: Node) returns (raised: bool)
    ensures raised == ClassWalk(MarksOf(Descendants(n)), 0, 0)
    ensures raised <==> ClassPassRaises(n)
  {
    raised := WalkMarks(MarksOf(Descendants(n)));
    ClassWalkMeans(n);
  }

  /** The loop over the listed elements, deleting the denied ones, on their marks. */
  method WalkMarks(ms: seq<Mark>) returns (raised: bool)
    ensures raised == ClassWalk(ms, 0, 0)
  {
    var i: nat, wiped: nat := 0, 0;
    raised := false;
    while i < |ms| && !raised
      invariant i <= |ms|
      invariant ClassWalk(ms, 0, 0) == (raised || ClassWalk(ms, i, wiped))
    {
      if ms[i].classed {
        if i < wiped {
          raised := true;
        } else if ms[i].denied {
          wiped := i + 1 + ms[i].size;
        }
      }
      i := i + 1;
    }
  }

  /** The result of the class pass as written: `None` where it raises, the pruned tree otherwise. */
  function ClassPassAsWritten(n: Node): (r: Option<Node>)
    ensures r.None? <==> ClassPassRaises(n)
    ensures r.Some? ==> r.value == Prune(n, ByDeniedClass)
  {
    ClassWalkMeans(n);
    if ClassWalk(MarksOf(Descendants(n)), 0, 0) then None else Some(Prune(n, ByDeniedClass))
  }

  /** The walk raises exactly when a denied element has a classed element below it. */
  lemma ClassWalkMeans(n: Node)
    ensures ClassWalk(MarksOf(Descendants(n)), 0, 0) <==> ClassPassRaises(n)
  {
    var ms := MarksOf(Descendants(n));
    if ClassWalk(ms, 0, 0) {
      var p, q := WalkRaisesSound(ms, 0, 0);
      RaisesAt(n, p, q);
    }
    if ClassPassRaises(n) {
      var p, q := RaisesSomewhere(n);
      forall j | 0 <= j < |ms| && ms[j].denied
        ensures ms[j].classed
      {
        DeniedIsClassed(Descendants(n)[j]);
      }
      WalkRaisesComplete(ms, 0, 0, p, q);
    }
  }

  /** The element at `q` is classed and lies below the element at `p`, whose class is denied. */
  ghost predicate RaisingPair(ms: seq<Mark>, p: nat, q: nat) {
    p < q < |ms| && q < p + 1 + ms[p].size && ms[p].denied && ms[q].classed
  }

  /** A raising pair of marks is one of the tree. */
  lemma RaisesAt(n: Node, p: nat, q: nat)
    requires RaisingPair(MarksOf(Descendants(n)), p, q)
    ensures ClassPassRaises(n)
  {
    var ds := Descendants(n);
    DescendantAt(n, p, q);
    assert ds[p] in ds;
  }

  /** A raising pair of the tree, as positions in document order. */
  lemma RaisesSomewhere(n: Node) returns (p: nat, q: nat)
    requires ClassPassRaises(n)
    ensures RaisingPair(MarksOf(Descendants(n)), p, q)
  {
    var ds := Descendants(n);
    var e, d :| e in ds && HasDeniedClass(e) && d in Descendants(e) && Classed(d);
    p :| p < |ds| && ds[p] == e;
    q := PositionBelow(n, p, d);
  }

  /** `wiped` is zero or ends the subtree of a denied element that comes before position `i`. */
  ghost predicate WipedBy(ms: seq<Mark>, i: nat, wiped: nat) {
    wiped == 0 || exists p: nat :: p < i && p < |ms| && ms[p].denied && wiped == p + 1 + ms[p].size
  }

  /** A raise is always at a classed element below a denied one. */
  lemma {:induction false} WalkRaisesSound(ms: seq<Mark>, i: nat, wiped: nat) returns (p: nat, q: nat)
    requires WipedBy(ms, i, wiped)
    requires ClassWalk(ms, i, wiped)
    ensures RaisingPair(ms, p, q)
    decreases |ms| - i
  {
    if !ms[i].classed {
      p, q := WalkRaisesSound(ms, i + 1, wiped);
    } else if i < wiped {
      assert wiped != 0;
      p :| p < i && p < |ms| && ms[p].denied && wiped == p + 1 + ms[p].size;
      q := i;
    } else if ms[i].denied {
      p, q := WalkRaisesSound(ms, i + 1, i + 1 + ms[i].size);
    } else {
      p, q := WalkRaisesSound(ms, i + 1, wiped);
    }
  }

  /**
    The walk raises once it reaches the classed element at `q`, if `q` is wiped already or lies
    below the denied element at `p`, still ahead.
  */
  lemma {:induction false} WalkRaisesComplete(ms: seq<Mark>, i: nat, wiped: nat, p: nat, q: nat)
    requires forall j :: 0 <= j < |ms| && ms[j].denied ==> ms[j].classed
    requires q < |ms| && ms[q].classed
    requires (i <= q < wiped) || (i <= p && RaisingPair(ms, p, q))
    ensures ClassWalk(ms, i, wiped)
    decreases |ms| - i
  {
    if !ms[i].classed {
      WalkRaisesComplete(ms, i + 1, wiped, p, q);
    } else if i >= wiped {
      if ms[i].denied {
        WalkRaisesComplete(ms, i + 1, i + 1 + ms[i].size, p, q);
      } else {
        WalkRaisesComplete(ms, i + 1, wiped, p, q);
      }
    }
  }

  /** A denied class needs a class attribute: the class string of a classless element is empty. */
  lemma DeniedIsClassed(n: Node)
    requires HasDeniedClass(n)
    ensures Classed(n)
  {

  }

  lemma SplitAd()
    ensures SplitWhitespace("ad") == ["ad"]
  {
    var s: string := "ad";
    assert !IsSpace(s[0]) && !IsSpace(s[1]);
    assert LStrip(s) == s;
    assert NonSpacePrefix(s[1..][1..]) == 0;
    assert NonSpacePrefix(s[1..]) == 1;
    assert NonSpacePrefix(s) == 2;
    assert s[..2] == s && s[2..] == [];
    assert LStrip([]) == [];
    assert SplitWhitespace([]) == [];
  }

  lemma LowerAd()
    ensures ToLower("ad") == "ad"
  {
    var s: string := "ad";
    assert ToLower(s[2..]) == [];
    assert ToLower(s[1..]) == [LowerChar('d')] + ToLower(s[2..]);
    assert ToLower(s) == [LowerChar('a')] + ToLower(s[1..]);
  }

  /** An element whose only attribute is a single lower-case class has that class as its class string. */
  lemma OneClassString(div: Node, c: string)
    requires div.Element? && div.attrs == map["class" := c]
    requires SplitWhitespace(c) == [c] && ToLower(c) == c
    ensures ClassString(div) == c
  {
    assert Attr(div, "class", "") == c;
    assert Join(" ", [c]) == c;
  }

  lemma AdClassString(div: Node)
    requires div.Element? && div.attrs == map["class" := "ad"]
    ensures ClassString(div) == "ad"
  {
    SplitAd();
    LowerAd();
    OneClassString(div, "ad");
  }

  lemma AdIsDenied(children: seq<Node>)
    ensures HasDeniedClass(Element("div", map["class" := "ad"], children))
  {
    var div := Element("div", map["class" := "ad"], children);
    var ad: string := "ad";
    AdClassString(div);
    ContainsSelf(ad);
    AdInRemoveClasses();
    assert ad in RemoveClasses && Contains(ClassString(div), ad);
  }

  lemma AdInRemoveClasses()
    ensures "ad" in RemoveClasses
  {
    assert RemoveClasses[5] == "ad";
  }

  /** `<div class="ad"><p class="note">x</p></div>`: the class pass as written raises. */
  lemma NestedClassedElementRaises()
    ensures ClassPassAsWritten(
      Element("[document]", map[], [Element("div", map["class" := "ad"], [Element("p", map["class" := "note"], [Text("x")])])])
    ).None?
  {
    var p := Element("p", map["class" := "note"], [Text("x")]);
    var div := Element("div", map["class" := "ad"], [p]);
    var doc := Element("[document]", map[], [div]);
    DescendantsOfOnlyChild(div);
    DescendantsOfOnlyChild(doc);
    assert div in Descendants(doc) && p in Descendants(div);
    AdIsDenied([p]);
    assert Classed(p);
    assert ClassPassRaises(doc);
  }

  /** An element with one child has that child first among its descendants. */
  lemma DescendantsOfOnlyChild(n: Node)
    requires n.Element? && |n.children| == 1
    ensures Descendants(n) == [n.children[0]] + Descendants(n.children[0])
  {
    assert n.children[1..] == [];
    assert Forest(n.children) == [n.children[0]] + Descendants(n.children[0]) + Forest(n.children[1..]);
  }
}
