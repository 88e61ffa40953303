/**
  `OutputFormatter._remove_markdown_formatting`: the plain-text rendering drops heading markers,
  bold and italic markers and link targets, in that order, each pass scanning the result of the
  one before.
*/
module MdStrip {
  import opened Wrappers
  import opened PyStr
  import opened MdSpans

  /** `^` under `re.MULTILINE`: the start of the text or just after a newline. */
  predicate LineStart(s: string, i: nat) {
    i == 0 || (i <= |s| && s[i - 1] == '\n')
  }

  /** The length of the run of `#` starting at `i`. */
  function HashRun(s: string, i: nat): (n: nat)
    requires i <= |s|
    ensures i + n <= |s|
    decreases |s| - i
  {
    if i < |s| && s[i] == '#' then 1 + HashRun(s, i + 1) else 0
  }

  /** The length of the run of whitespace starting at `i`: what the greedy `\s+` takes. */
  function SpaceRun(s: string, i: nat): (n: nat)
    requires i <= |s|
    ensures i + n <= |s|
    decreases |s| - i
  {
    if i < |s| && IsSpace(s[i]) then 1 + SpaceRun(s, i + 1) else 0
  }

  /**
    Where a heading marker `^#{1,6}\s+` found at `i` ends. Seven or more `#` never match: after
    six the pattern needs whitespace, and backing off leaves a `#` where it is needed.
  */
  function HeadingAt(s: string, i: nat): (r: Option<nat>)
    requires i < |s|
    ensures r.Some? ==> i < r.value <= |s|
  {
    var n := HashRun(s, i);
    if LineStart(s, i) && 1 <= n <= 6 && i + n < |s| && IsSpace(s[i + n]) then Some(i + n + SpaceRun(s, i + n))
    else None
  }

  /** Where the heading pass resumes after `i`. */
  function HeadingNext(s: string, i: nat): (n: nat)
    requires i < |s|
    ensures i < n <= |s|
  {
    match HeadingAt(s, i)
    case Some(e) => e
    case None => i + 1
  }

  /** What the heading pass keeps at `i`: nothing of a marker, the character otherwise. */
  function HeadingPiece(s: string, i: nat): string
    requires i < |s|
  {
    if HeadingAt(s, i).Some? then [] else [s[i]]
  }

  function HeadingsFrom(s: string, i: nat): string
    decreases |s| - i
  {
    if i >= |s| then [] else HeadingPiece(s, i) + HeadingsFrom(s, HeadingNext(s, i))
  }

  /** `re.sub(r'^#{1,6}\s+', '', s, flags=re.MULTILINE)` */
  function Headings(s: string): string {
    HeadingsFrom(s, 0)
  }

  /** The first position from `i` on holding `c`. */
  function FindChar(s: string, i: nat, c: char): (r: Option<nat>)
    ensures r.Some? ==> i <= r.value < |s| && s[r.value] == c
    decreases |s| - i
  {
    if i >= |s| then None else if s[i] == c then Some(i) else FindChar(s, i + 1, c)
  }

  /** `FindChar` finds the first occurrence. */
  lemma {:induction false} FindCharFirst(s: string, i: nat, c: char)
    ensures match FindChar(s, i, c)
      case Some(j) => forall p :: i <= p < j ==> s[p] != c
      case None => forall p :: i <= p < |s| ==> s[p] != c
    decreases |s| - i
  {
    if i < |s| && s[i] != c {
      FindCharFirst(s, i + 1, c);
    }
  }

  /**
    A link `[anchor](target)` starting at `i`, as the positions of its `]` and its `)`. The greedy
    `[^\]]+` runs to the first `]`, so the anchor is everything before it (at least one character,
    newlines included); `(` must follow at once, and the target runs to the first `)` after it
    (again at least one character).
  */
  function LinkAt(s: string, i: nat): (r: Option<(nat, nat)>)
    requires i < |s|
    ensures r.Some? ==> i + 1 < r.value.0 && r.value.0 + 2 < r.value.1 < |s|
  {
    if s[i] != '[' then None
    else match FindChar(s, i + 1, ']')
      case None => None
      case Some(j) =>
        if j == i + 1 || j + 1 >= |s| || s[j + 1] != '(' then None
        else match FindChar(s, j + 2, ')')
          case None => None
          case Some(k) => if k == j + 2 then None else Some((j, k))
  }

  function LinkNext(s: string, i: nat): (n: nat)
    requires i < |s|
    ensures i < n <= |s|
  {
    match LinkAt(s, i)
    case Some((_, k)) => k + 1
    case None => i + 1
  }

  /** What the link pass keeps at `i`: the anchor of a link, the character otherwise. */
  function LinkPiece(s: string, i: nat): string
    requires i < |s|
  {
    match LinkAt(s, i)
    case Some((j, _)) => s[i + 1..j]
    case None => [s[i]]
  }

  function LinksFrom(s: string, i: nat): string
    decreases |s| - i
  {
    if i >= |s| then [] else LinkPiece(s, i) + LinksFrom(s, LinkNext(s, i))
  }

  /** `re.sub(r'\[([^\]]+)\]\([^\)]+\)', r'\1', s)` */
  function Links(s: string): string {
    LinksFrom(s, 0)
  }

  /** `_remove_markdown_formatting(content)` */
  function RemoveMarkdown(content: string): string {
    Links(Spans(Spans(Headings(content), Double, "", ""), Single, "", ""))
  }

  // Copying where no marker can start.

  lemma HeadingStep(s: string, i: nat)
    requires i < |s| && s[i] != '#'
    ensures HeadingsFrom(s, i) == [s[i]] + HeadingsFrom(s, i + 1)
  {
  }

  lemma {:induction false} HeadingsFromPlain(s: string, i: nat, k: nat)
    requires i <= k <= |s|
    requires forall p :: i <= p < k ==> s[p] != '#'
    ensures HeadingsFrom(s, i) == s[i..k] + HeadingsFrom(s, k)
    decreases k - i
  {
    if i < k {
      var rest := HeadingsFrom(s, k);
      calc {
        HeadingsFrom(s, i);
        { HeadingStep(s, i); }
        [s[i]] + HeadingsFrom(s, i + 1);
        { HeadingsFromPlain(s, i + 1, k); }
        [s[i]] + (s[i + 1..k] + rest);
        { ConsSlice(s, i, k, rest); }
        s[i..k] + rest;
      }
    } else {
      assert s[i..k] == [];
    }
  }

  lemma LinkStep(s: string, i: nat)
    requires i < |s| && s[i] != '['
    ensures LinksFrom(s, i) == [s[i]] + LinksFrom(s, i + 1)
  {
  }

  lemma {:induction false} LinksFromPlain(s: string, i: nat, k: nat)
    requires i <= k <= |s|
    requires forall p :: i <= p < k ==> s[p] != '['
    ensures LinksFrom(s, i) == s[i..k] + LinksFrom(s, k)
    decreases k - i
  {
    if i < k {
      var rest := LinksFrom(s, k);
      calc {
        LinksFrom(s, i);
        { LinkStep(s, i); }
        [s[i]] + LinksFrom(s, i + 1);
        { LinksFromPlain(s, i + 1, k); }
        [s[i]] + (s[i + 1..k] + rest);
        { ConsSlice(s, i, k, rest); }
        s[i..k] + rest;
      }
    } else {
      assert s[i..k] == [];
    }
  }

  lemma HeadingsPlain(s: string)
    requires '#' !in s
    ensures Headings(s) == s
  {
    HeadingsFromPlain(s, 0, |s|);
    assert s[0..|s|] == s;
  }

  lemma LinksPlain(s: string)
    requires '[' !in s
    ensures Links(s) == s
  {
    LinksFromPlain(s, 0, |s|);
    assert s[0..|s|] == s;
  }

  /** Text without `#`, `*` or `[` comes through the plain-text rendering unchanged. */
  lemma RemoveMarkdownPlain(content: string)
    requires '#' !in content && '*' !in content && '[' !in content
    ensures RemoveMarkdown(content) == content
  {
    HeadingsPlain(content);
    SpansPlain(content, Double, "", "");
    SpansPlain(content, Single, "", "");
    LinksPlain(content);
  }

  // Removal only: no pass adds a character or lengthens the text.

  lemma {:induction false} HeadingsFromShrinks(s: string, i: nat)
    requires i <= |s|
    ensures |HeadingsFrom(s, i)| <= |s| - i
    ensures forall x :: x in HeadingsFrom(s, i) ==> x in s
    decreases |s| - i
  {
    if i < |s| {
      HeadingsFromShrinks(s, HeadingNext(s, i));
    }
  }

  lemma {:induction false} LinksFromShrinks(s: string, i: nat)
    requires i <= |s|
    ensures |LinksFrom(s, i)| <= |s| - i
    ensures forall x :: x in LinksFrom(s, i) ==> x in s
    decreases |s| - i
  {
    if i < |s| {
      LinksFromShrinks(s, LinkNext(s, i));
      match LinkAt(s, i)
      case Some((j, _)) =>
        assert forall x :: x in s[i + 1..j] ==> x in s;
      case None =>
    }
  }

  /** The plain-text rendering never adds a character and never lengthens the text. */
  lemma RemoveMarkdownShrinks(content: string)
    ensures |RemoveMarkdown(content)| <= |content|
    ensures forall x :: x in RemoveMarkdown(content) ==> x in content
  {
    var h := Headings(content);
    var b := Spans(h, Double, "", "");
    var e := Spans(b, Single, "", "");
    HeadingsFromShrinks(content, 0);
    SpansFromShrinks(h, 0, Double);
    SpansChars(h, Double, "", "");
    SpansFromShrinks(b, 0, Single);
    SpansChars(b, Single, "", "");
    LinksFromShrinks(e, 0);
  }

  // What each pass removes.

  lemma {:induction false} HashRunFrom(s: string, i: nat, n: nat)
    requires i <= n <= |s|
    requires forall p :: i <= p < n ==> s[p] == '#'
    requires n == |s| || s[n] != '#'
    ensures HashRun(s, i) == n - i
    decreases n - i
  {
    if i < n {
      HashRunFrom(s, i + 1, n);
    }
  }

  lemma HeadingPieces(n: nat, t: string)
    requires t != []
    ensures var s := Repeat('#', n) + " " + t;
      && |s| == n + 1 + |t| && s[n] == ' ' && s[n + 1] == t[0] && s[n + 1..|s|] == t
      && forall p :: 0 <= p < n ==> s[p] == '#'
  {
    var s := Repeat('#', n) + " " + t;
    assert s == Repeat('#', n) + (" " + t);
    assert s[..n] == Repeat('#', n);
  }

  /**
    A line opening with one to six `#` and a space loses that marker (with the whitespace
    after it), and the rest of the line is kept.
  */
  lemma HeadingRemoved(n: nat, t: string)
    requires 1 <= n <= 6 && t != [] && !IsSpace(t[0]) && '#' !in t
    ensures Headings(Repeat('#', n) + " " + t) == t
  {
    var s := Repeat('#', n) + " " + t;
    HeadingPieces(n, t);
    HashRunFrom(s, 0, n);
    assert SpaceRun(s, n) == 1 by {
      assert SpaceRun(s, n + 1) == 0;
    }
    assert HeadingAt(s, 0) == Some(n + 1);
    SliceChars(s, n + 1, |s|, t, '#');
    calc {
      Headings(s);
      HeadingPiece(s, 0) + HeadingsFrom(s, HeadingNext(s, 0));
      { assert HeadingPiece(s, 0) == [] && HeadingNext(s, 0) == n + 1; }
      HeadingsFrom(s, n + 1);
      { HeadingsFromPlain(s, n + 1, |s|); }
      s[n + 1..|s|] + HeadingsFrom(s, |s|);
      t;
    }
  }

  /** Seven or more `#` are no heading marker: the line keeps them. */
  lemma HeadingTooDeep(n: nat, t: string)
    requires n >= 7
    ensures var s := Repeat('#', n) + t; HeadingAt(s, 0).None? && Headings(s)[0] == '#'
  {
    var s := Repeat('#', n) + t;
    var r := HashRun(s, 0);
    HashRunAtLeast(s, 0, n);
    assert r >= 7;
    assert HeadingAt(s, 0).None?;
  }

  lemma {:induction false} HashRunAtLeast(s: string, i: nat, n: nat)
    requires i <= n <= |s|
    requires forall p :: i <= p < n ==> s[p] == '#'
    ensures HashRun(s, i) >= n - i
    decreases n - i
  {
    if i < n {
      HashRunAtLeast(s, i + 1, n);
    }
  }

  /** A link is replaced by its anchor; the target goes. */
  lemma LinkReplaced(anchor: string, target: string, rest: string)
    requires anchor != [] && ']' !in anchor && target != [] && ')' !in target && '[' !in rest
    ensures Links("[" + anchor + "](" + target + ")" + rest) == anchor + rest
  {
    var s := "[" + anchor + "](" + target + ")" + rest;
    var j := 1 + |anchor|;
    var k := j + 2 + |target|;
    LinkPieces(anchor, target, rest);
    SliceChars(s, 1, j, anchor, ']');
    SliceChars(s, j + 2, k, target, ')');
    SliceChars(s, k + 1, |s|, rest, '[');
    LinkFirst(s, j, k);
  }

  /** A string that opens with a link and has no other `[` reads as the link's anchor and the text after it. */
  lemma LinkFirst(s: string, j: nat, k: nat)
    requires 1 < j && j + 2 < k < |s| && s[0] == '[' && s[j] == ']' && s[j + 1] == '(' && s[k] == ')'
    requires forall p :: 1 <= p < j ==> s[p] != ']'
    requires forall p :: j + 2 <= p < k ==> s[p] != ')'
    requires forall p :: k + 1 <= p < |s| ==> s[p] != '['
    ensures Links(s) == s[1..j] + s[k + 1..]
  {
    calc {
      Links(s);
      { LinksFromMatch(s, 0, j, k); }
      s[1..j] + LinksFrom(s, k + 1);
      { LinksFromPlain(s, k + 1, |s|); }
      s[1..j] + (s[k + 1..|s|] + LinksFrom(s, |s|));
      { assert s[k + 1..|s|] == s[k + 1..]; }
      s[1..j] + s[k + 1..];
    }
  }

  lemma LinkPieces(anchor: string, target: string, rest: string)
    ensures var s := "[" + anchor + "](" + target + ")" + rest;
      var j := 1 + |anchor|; var k := j + 2 + |target|;
      && |s| == k + 1 + |rest| && s[0] == '[' && s[j] == ']' && s[j + 1] == '(' && s[k] == ')'
      && s[1..j] == anchor && s[j + 2..k] == target && s[k + 1..] == rest
  {
    var s := "[" + anchor + "](" + target + ")" + rest;
    var j := 1 + |anchor|;
    var k := j + 2 + |target|;
    assert s == ((("[" + anchor) + "](") + target) + (")" + rest);
    assert s[..k] == (("[" + anchor) + "](") + target;
    assert s[..j + 2] == ("[" + anchor) + "](";
    assert s[..j] == "[" + anchor;
  }

  lemma FindCharAt(s: string, i: nat, j: nat, c: char)
    requires i <= j < |s| && s[j] == c
    requires forall p :: i <= p < j ==> s[p] != c
    ensures FindChar(s, i, c) == Some(j)
    decreases j - i
  {
    if i < j {
      FindCharAt(s, i + 1, j, c);
    }
  }

  // Markers anywhere in the text.

  lemma {:induction false} SpaceRunFrom(s: string, i: nat, k: nat)
    requires i <= k <= |s|
    requires forall p :: i <= p < k ==> IsSpace(s[p])
    requires k == |s| || !IsSpace(s[k])
    ensures SpaceRun(s, i) == k - i
    decreases k - i
  {
    if i < k {
      SpaceRunFrom(s, i + 1, k);
    }
  }

  /**
    At the start of any line, one to six `#` followed by whitespace are dropped together with
    all of that whitespace, and the pass goes on after it.
  */
  lemma HeadingsFromMatch(s: string, i: nat, n: nat, k: nat)
    requires LineStart(s, i) && 1 <= n <= 6 && i + n < k <= |s|
    requires forall p :: i <= p < i + n ==> s[p] == '#'
    requires forall p :: i + n <= p < k ==> IsSpace(s[p])
    requires k == |s| || !IsSpace(s[k])
    ensures HeadingsFrom(s, i) == HeadingsFrom(s, k)
  {
    assert IsSpace(s[i + n]) && !IsSpace('#');
    HashRunFrom(s, i, i + n);
    SpaceRunFrom(s, i + n, k);
    assert HeadingAt(s, i) == Some(k);
  }

  /** At any `[` that opens a link `[anchor](target)`, the pass emits the anchor and goes on after the `)`. */
  lemma LinksFromMatch(s: string, i: nat, j: nat, k: nat)
    requires i + 1 < j && j + 2 < k < |s| && s[i] == '[' && s[j] == ']' && s[j + 1] == '(' && s[k] == ')'
    requires forall p :: i + 1 <= p < j ==> s[p] != ']'
    requires forall p :: j + 2 <= p < k ==> s[p] != ')'
    ensures LinksFrom(s, i) == s[i + 1..j] + LinksFrom(s, k + 1)
  {
    assert LinkPiece(s, i) == s[i + 1..j] && LinkNext(s, i) == k + 1 by {
      FindCharAt(s, i + 1, j, ']');
      FindCharAt(s, j + 2, k, ')');
      assert LinkAt(s, i) == Some((j, k));
    }
    LinksFromStepTo(s, i, s[i + 1..j], k + 1);
  }

  lemma {:induction false} FindCharShift(x: string, y: string, i: nat, c: char)
    ensures FindChar(x + y, |x| + i, c) == (match FindChar(y, i, c) case None => None case Some(j) => Some(|x| + j))
    decreases |y| - i
  {
    if i < |y| {
      assert (x + y)[|x| + i] == y[i];
      FindCharShift(x, y, i + 1, c);
    }
  }

  lemma LinkAtShift(x: string, y: string, i: nat)
    requires i < |y|
    ensures LinkAt(x + y, |x| + i) == (match LinkAt(y, i) case None => None case Some((j, k)) => Some((|x| + j, |x| + k)))
  {
    var s := x + y;
    assert s[|x| + i] == y[i];
    if y[i] == '[' {
      FindCharShift(x, y, i + 1, ']');
      match FindChar(y, i + 1, ']')
      case None =>
      case Some(j) =>
        if j + 1 < |y| {
          assert s[|x| + j + 1] == y[j + 1];
        }
        FindCharShift(x, y, j + 2, ')');
    }
  }

  lemma LinkStepShift(x: string, y: string, i: nat)
    requires i < |y|
    ensures LinkNext(x + y, |x| + i) == |x| + LinkNext(y, i)
    ensures LinkPiece(x + y, |x| + i) == LinkPiece(y, i)
  {
    var s := x + y;
    LinkAtShift(x, y, i);
    match LinkAt(y, i)
    case Some((j, _)) =>
      assert s[|x| + i + 1..|x| + j] == y[i + 1..j];
    case None =>
      assert s[|x| + i] == y[i];
  }

  /** The link pass never looks behind its position: past a prefix `x` it emits what it emits on `y`. */
  lemma {:induction false} LinksFromShift(x: string, y: string, i: nat)
    ensures LinksFrom(x + y, |x| + i) == LinksFrom(y, i)
    decreases |y| - i
  {
    if i < |y| {
      var n := LinkNext(y, i);
      calc {
        LinksFrom(x + y, |x| + i);
      == { LinksFromStep(x + y, |x| + i); }
        LinkPiece(x + y, |x| + i) + LinksFrom(x + y, LinkNext(x + y, |x| + i));
      == { LinkStepShift(x, y, i); }
        LinkPiece(y, i) + LinksFrom(x + y, |x| + n);
      == { LinksFromShift(x, y, n); }
        LinkPiece(y, i) + LinksFrom(y, n);
      == { LinksFromStep(y, i); }
        LinksFrom(y, i);
      }
    }
  }

  /** One step of the link pass, with what it emits and where it resumes. */
  lemma LinksFromStepTo(s: string, i: nat, piece: string, next: nat)
    requires i < |s| && LinkPiece(s, i) == piece && LinkNext(s, i) == next
    ensures LinksFrom(s, i) == piece + LinksFrom(s, next)
  {
    LinksFromStep(s, i);
  }

  /** One step of the link pass. */
  lemma LinksFromStep(s: string, i: nat)
    requires i < |s|
    ensures LinksFrom(s, i) == LinkPiece(s, i) + LinksFrom(s, LinkNext(s, i))
  {
  }

  /** Text without `[` in front is copied, and the pass goes on with what follows. */
  lemma LinksAfterPlain(x: string, y: string)
    requires '[' !in x
    ensures Links(x + y) == x + Links(y)
  {
    assert (x + y)[..|x|] == x;
    SliceChars(x + y, 0, |x|, x, '[');
    LinksFromPlain(x + y, 0, |x|);
    assert (x + y)[0..|x|] == x;
    LinksFromShift(x, y, 0);
  }

  /** A link in front is replaced by its anchor, and the pass goes on with what follows. */
  lemma LinksAfterLink(anchor: string, target: string, y: string)
    requires anchor != [] && ']' !in anchor && target != [] && ')' !in target
    ensures Links("[" + anchor + "](" + target + ")" + y) == anchor + Links(y)
  {
    LinkHead(anchor, target, y);
    LinksAfterHead("[" + anchor + "](" + target + ")", y, anchor);
  }

  /** A front part `x` the pass reads as one piece `p` is replaced by `p`. */
  lemma LinksAfterHead(x: string, y: string, p: string)
    requires x != [] && LinkPiece(x + y, 0) == p && LinkNext(x + y, 0) == |x|
    ensures Links(x + y) == p + Links(y)
  {
    LinksFromStepTo(x + y, 0, p, |x| + 0);
    LinksFromShift(x, y, 0);
  }

  /** A link in front is read as its anchor, and the pass resumes right after it. */
  lemma LinkHead(anchor: string, target: string, y: string)
    requires anchor != [] && ']' !in anchor && target != [] && ')' !in target
    ensures var x := "[" + anchor + "](" + target + ")";
      LinkPiece(x + y, 0) == anchor && LinkNext(x + y, 0) == |x|
  {
    var s := "[" + anchor + "](" + target + ")" + y;
    var j := 1 + |anchor|;
    var k := j + 2 + |target|;
    LinkPieces(anchor, target, y);
    assert FindChar(s, 1, ']') == Some(j) by {
      SliceChars(s, 1, j, anchor, ']');
      FindCharAt(s, 1, j, ']');
    }
    assert FindChar(s, j + 2, ')') == Some(k) by {
      SliceChars(s, j + 2, k, target, ')');
      FindCharAt(s, j + 2, k, ')');
    }
    assert LinkAt(s, 0) == Some((j, k));
  }

  /**
    Bold, italic and a link on one line, as in `**bold** and *italic* and [a link](http://x)`:
    the bold and italic markers and the link target go, the texts and what lies between stay.
  */
  lemma MixedMarkupRemoved(b: string, m1: string, t: string, m2: string, a: string, u: string)
    requires '*' !in b && '\n' !in b && '*' !in t && '\n' !in t && t != []
    requires '*' !in m1 && '*' !in m2 && '*' !in a && '*' !in u
    requires '#' !in b && '#' !in m1 && '#' !in t && '#' !in m2 && '#' !in a && '#' !in u
    requires '[' !in b && '[' !in m1 && '[' !in t && '[' !in m2
    requires a != [] && ']' !in a && u != [] && ')' !in u
    ensures RemoveMarkdown("**" + b + "**" + m1 + "*" + t + "*" + m2 + "[" + a + "](" + u + ")") == b + m1 + t + m2 + a
  {
    var link := "[" + a + "](" + u + ")";
    var rest := m2 + link;
    var s0 := "**" + b + "**" + m1 + "*" + t + "*" + rest;
    MixedShape(b, m1, t, m2, a, u);
    MixedNoHash(b, m1, t, rest);
    HeadingsPlain(s0);
    BoldPass(b, m1, t, rest);
    var s1 := b + m1 + "*" + t + "*" + rest;
    ItalicPass(b + m1, t, rest);
    var s2 := b + m1 + t + rest;
    assert Spans(s1, Single, "", "") == s2;
    LinkPass(b + m1 + t + m2, a, u);
    MixedTail(b + m1 + t, m2, link);
  }

  /** The line regrouped around the link at its end. */
  lemma MixedShape(b: string, m1: string, t: string, m2: string, a: string, u: string)
    ensures "**" + b + "**" + m1 + "*" + t + "*" + m2 + "[" + a + "](" + u + ")"
         == "**" + b + "**" + m1 + "*" + t + "*" + (m2 + ("[" + a + "](" + u + ")"))
  {
  }

  lemma MixedNoHash(b: string, m1: string, t: string, rest: string)
    requires '#' !in b && '#' !in m1 && '#' !in t && '#' !in rest
    ensures '#' !in "**" + b + "**" + m1 + "*" + t + "*" + rest
  {
  }

  lemma MixedTail(x: string, m2: string, link: string)
    ensures x + (m2 + link) == (x + m2) + link
  {
  }

  /** The italic pass over what the bold pass leaves: it drops the single stars. */
  lemma ItalicPass(pre: string, t: string, rest: string)
    requires '*' !in pre && '*' !in t && '\n' !in t && '*' !in rest
    ensures Spans(pre + "*" + t + "*" + rest, Single, "", "") == pre + t + rest
  {
    assert pre + "*" + t + "*" + rest == pre + (MarkerText(Single) + t + MarkerText(Single) + rest);
    SpansAfterPlain(pre, MarkerText(Single) + t + MarkerText(Single) + rest, Single, "", "");
    SpansAfterMatch(Single, t, rest, "", "");
    SpansPlain(rest, Single, "", "");
    assert pre + ("" + t + "" + rest) == pre + t + rest;
  }

  /** The link pass over what the emphasis passes leave: the link becomes its anchor. */
  lemma LinkPass(pre: string, a: string, u: string)
    requires '[' !in pre && a != [] && ']' !in a && u != [] && ')' !in u
    ensures Links(pre + ("[" + a + "](" + u + ")")) == pre + a
  {
    var link := "[" + a + "](" + u + ")";
    LinksAfterPlain(pre, link);
    assert link == link + "";
    LinksAfterLink(a, u, "");
    assert Links("") == "";
  }

  /** The bold pass over the same line: it drops the bold markers only. */
  lemma BoldPass(b: string, m1: string, t: string, rest: string)
    requires '*' !in b && '\n' !in b && '*' !in t && t != [] && '*' !in m1 && '*' !in rest
    ensures Spans("**" + b + "**" + m1 + "*" + t + "*" + rest, Double, "", "") == b + m1 + "*" + t + "*" + rest
  {
    var after := m1 + ("*" + (t + ("*" + rest)));
    assert "**" + b + "**" + m1 + "*" + t + "*" + rest == MarkerText(Double) + b + MarkerText(Double) + after;
    SpansAfterMatch(Double, b, after, "", "");
    BoldPassItalic(m1, t, rest);
    assert b + m1 + "*" + t + "*" + rest == "" + b + "" + after;
  }

  /** The bold pass copies star-free text and a single-starred span. */
  lemma BoldPassItalic(m1: string, t: string, rest: string)
    requires '*' !in t && t != [] && '*' !in m1 && '*' !in rest
    ensures Spans(m1 + ("*" + (t + ("*" + rest))), Double, "", "") == m1 + ("*" + (t + ("*" + rest)))
  {
    SpansAfterPlain(m1, "*" + (t + ("*" + rest)), Double, "", "");
    BoldPassLoneStar(t + ("*" + rest), "", "");
    BoldPassStarTail(t, rest);
  }

  lemma BoldPassStarTail(t: string, rest: string)
    requires '*' !in t && '*' !in rest
    ensures Spans(t + ("*" + rest), Double, "", "") == t + ("*" + rest)
  {
    SpansAfterPlain(t, "*" + rest, Double, "", "");
    BoldPassLoneStar(rest, "", "");
    SpansPlain(rest, Double, "", "");
  }

  /** `**bold** and *italic* and [a link](http://x)` reads `bold and italic and a link`. */
  lemma MixedMarkupExample()
    ensures RemoveMarkdown("**" + "bold" + "**" + " and " + "*" + "italic" + "*" + " and " + "[" + "a link" + "](" + "http://x" + ")")
      == "bold" + " and " + "italic" + " and " + "a link"
  {
    MixedMarkupRemoved("bold", " and ", "italic", " and ", "a link", "http://x");
  }
}
