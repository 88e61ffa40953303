/**
  The parsed document as the extraction pipeline sees it, and the queries it asks of it:
  `select`, `select_one`, `find`, `find_all` and `get_text(strip=True)`.
*/
module Dom {
  import opened Wrappers
  import opened PyStr

  /**
    A node of the parsed document: an element, with its lower-case tag name, its attributes
    and its children in document order, or a piece of text.
  */
  datatype Node =
    | Element(name: string, attrs: map<string, string>, children: seq<Node>)
    | Text(text: string)

  /** `tag.get(key, default)` */
  function Attr(n: Node, key: string, default: string): string {
    if n.Element? && key in n.attrs then n.attrs[key] else default
  }

  /** `tag.get('class', [])`: class is a multi-valued attribute, split on whitespace. */
  function Classes(n: Node): seq<string> {
    SplitWhitespace(Attr(n, "class", ""))
  }

  /** The descendants of `n` in document order (pre-order), not including `n`. */
  function Descendants(n: Node): seq<Node> {
    match n
    case Text(_) => []
    case Element(_, _, children) => Forest(children)
  }

  /** Each node of `ns` followed by its own descendants, in order. */
  function Forest(ns: seq<Node>): seq<Node> {
    if ns == [] then [] else [ns[0]] + Descendants(ns[0]) + Forest(ns[1..])
  }

  /** In document order, the descendants of the node at position `p` directly follow it. */
  lemma {:induction false} ForestSubtree(ns: seq<Node>, p: nat)
    requires p < |Forest(ns)|
    ensures p + 1 + |Descendants(Forest(ns)[p])| <= |Forest(ns)|
    ensures Forest(ns)[p + 1..p + 1 + |Descendants(Forest(ns)[p])|] == Descendants(Forest(ns)[p])
    decreases ns, 1
  {
    var n, d, rest := ns[0], Descendants(ns[0]), Forest(ns[1..]);
    assert Forest(ns) == [n] + d + rest;
    if p == 0 {
      ThreeParts(n, d, rest, 1, 1 + |d|);
    } else if p <= |d| {
      InsideSubtree(ns, p);
    } else {
      AfterSubtree(ns, p);
    }
  }

  /** The position lies inside the subtree of the first node. */
  lemma {:induction false} InsideSubtree(ns: seq<Node>, p: nat)
    requires ns != [] && 1 <= p <= |Descendants(ns[0])|
    ensures p < |Forest(ns)|
    ensures p + 1 + |Descendants(Forest(ns)[p])| <= |Forest(ns)|
    ensures Forest(ns)[p + 1..p + 1 + |Descendants(Forest(ns)[p])|] == Descendants(Forest(ns)[p])
    decreases ns, 0
  {
    var n, d, rest := ns[0], Descendants(ns[0]), Forest(ns[1..]);
    assert Forest(ns) == [n] + d + rest;
    assert d == Forest(n.children);
    ForestSubtree(n.children, p - 1);
    ThreeParts(n, d, rest, p, p + 1 + |Descendants(d[p - 1])|);
  }

  /** The position lies after the subtree of the first node. */
  lemma {:induction false} AfterSubtree(ns: seq<Node>, p: nat)
    requires ns != [] && |Descendants(ns[0])| < p < |Forest(ns)|
    ensures p + 1 + |Descendants(Forest(ns)[p])| <= |Forest(ns)|
    ensures Forest(ns)[p + 1..p + 1 + |Descendants(Forest(ns)[p])|] == Descendants(Forest(ns)[p])
    decreases ns, 0
  {
    var n, d, rest := ns[0], Descendants(ns[0]), Forest(ns[1..]);
    assert Forest(ns) == [n] + d + rest;
    var q := p - 1 - |d|;
    ForestSubtree(ns[1..], q);
    ThreeParts(n, d, rest, p, p + 1 + |Descendants(rest[q])|);
  }

  /** Indexing and slicing `[x] + d + r` inside one of its parts. */
  lemma ThreeParts<T>(x: T, d: seq<T>, r: seq<T>, i: nat, j: nat)
    requires i <= j <= 1 + |d| + |r|
    ensures 1 <= i < 1 + |d| ==> ([x] + d + r)[i] == d[i - 1]
    ensures 1 + |d| <= i < j ==> ([x] + d + r)[i] == r[i - 1 - |d|]
    ensures i == 1 && j == 1 + |d| ==> ([x] + d + r)[i..j] == d
    ensures 1 <= i && j <= 1 + |d| ==> ([x] + d + r)[i..j] == d[i - 1..j - 1]
    ensures 1 + |d| <= i ==> ([x] + d + r)[i..j] == r[i - 1 - |d|..j - 1 - |d|]
  {
  }

  /** The same for the descendants of one node. */
  lemma DescendantsSubtree(n: Node, p: nat)
    requires p < |Descendants(n)|
    ensures p + 1 + |Descendants(Descendants(n)[p])| <= |Descendants(n)|
    ensures Descendants(n)[p + 1..p + 1 + |Descendants(Descendants(n)[p])|] == Descendants(Descendants(n)[p])
  {
    ForestSubtree(n.children, p);
  }

  /** A position inside the run that follows position `p` holds a descendant of the node at `p`. */
  lemma DescendantAt(n: Node, p: nat, q: nat)
    requires p < q && p < |Descendants(n)| && q < p + 1 + |Descendants(Descendants(n)[p])|
    ensures q < |Descendants(n)| && Descendants(n)[q] in Descendants(Descendants(n)[p])
  {
    DescendantsSubtree(n, p);
    var ds := Descendants(n);
    assert ds[q] == ds[p + 1..p + 1 + |Descendants(ds[p])|][q - p - 1];
  }

  /** Each descendant of the node at position `p` sits at some position of the run after `p`. */
  lemma PositionBelow(n: Node, p: nat, d: Node) returns (q: nat)
    requires p < |Descendants(n)| && d in Descendants(Descendants(n)[p])
    ensures p < q < p + 1 + |Descendants(Descendants(n)[p])| && q < |Descendants(n)|
    ensures Descendants(n)[q] == d
  {
    DescendantsSubtree(n, p);
    var ds := Descendants(n);
    var k :| 0 <= k < |Descendants(ds[p])| && Descendants(ds[p])[k] == d;
    q := p + 1 + k;
    assert ds[q] == ds[p + 1..p + 1 + |Descendants(ds[p])|][k];
  }

  /** `tag.get_text(strip=True)`: each text node stripped, the empty ones dropped, the rest concatenated. */
  function GetText(n: Node): string {
    match n
    case Text(t) => Strip(t)
    case Element(_, _, children) => ForestText(children)
  }

  function ForestText(ns: seq<Node>): string {
    if ns == [] then "" else GetText(ns[0]) + ForestText(ns[1..])
  }

  /** The selectors the core uses: CSS selectors for `select`, and the filters it passes to `find_all`. */
  datatype Selector =
    | Tag(tag: string)                                        // `tag`, find_all('tag')
    | TagAttrEquals(tag: string, attr: string, value: string) // `tag[attr="value"]`
    | AttrEquals(attr: string, value: string)                 // `[attr="value"]`
    | HasClass(cls: string)                                   // `.cls`
    | HasId(id: string)                                       // `#id`
    | TagWithAttr(tag: string, attr: string)                  // find_all('tag', attr=True)
    | AnyTag(tags: seq<string>)                               // find_all(['t1', 't2', ...])

  predicate Matches(n: Node, sel: Selector) {
    n.Element? &&
    match sel
    case Tag(t) => n.name == t
    case TagAttrEquals(t, a, v) => n.name == t && a in n.attrs && n.attrs[a] == v
    case AttrEquals(a, v) => a in n.attrs && n.attrs[a] == v
    case HasClass(c) => c in Classes(n)
    case HasId(i) => "id" in n.attrs && n.attrs["id"] == i
    case TagWithAttr(t, a) => n.name == t && a in n.attrs
    case AnyTag(ts) => n.name in ts
  }

  /** The nodes of `ns` that match `sel`, in their order. */
  function Filter(ns: seq<Node>, sel: Selector): seq<Node> {
    if ns == [] then []
    else Filter(ns[..|ns| - 1], sel) + (if Matches(ns[|ns| - 1], sel) then [ns[|ns| - 1]] else [])
  }

  /** The filter keeps exactly the matching nodes and never adds any. */
  lemma {:induction false} FilterMembers(ns: seq<Node>, sel: Selector)
    ensures |Filter(ns, sel)| <= |ns|
    ensures forall m :: m in Filter(ns, sel) <==> m in ns && Matches(m, sel)
  {
    if ns != [] {
      FilterMembers(ns[..|ns| - 1], sel);
      assert ns == ns[..|ns| - 1] + [ns[|ns| - 1]];
    }
  }

  /**
    Filtering a concatenation filters each part and keeps the parts in order, so the kept nodes
    stay in their relative document order.
  */
  lemma {:induction false} FilterAppend(a: seq<Node>, b: seq<Node>, sel: Selector)
    ensures Filter(a + b, sel) == Filter(a, sel) + Filter(b, sel)
    decreases |b|
  {
    if b == [] {
      assert a + b == a;
    } else {
      var c := a + b;
      assert c[..|c| - 1] == a + b[..|b| - 1];
      assert c[|c| - 1] == b[|b| - 1];
      FilterAppend(a, b[..|b| - 1], sel);
    }
  }

  /** `root.select(sel)`, `root.find_all(...)`: the matching descendants in document order. */
  function Select(root: Node, sel: Selector): seq<Node> {
    Filter(Descendants(root), sel)
  }

  /** `root.select_one(sel)`, `root.find(...)`: the first matching descendant, if any. */
  function SelectOne(root: Node, sel: Selector): Option<Node> {
    var found := Select(root, sel);
    if found == [] then None else Some(found[0])
  }
}
