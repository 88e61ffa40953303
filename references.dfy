/**
  `_extract_links` and `_extract_images`: the anchors and images of the filtered tree, in
  document order, each read into a record, relative references resolved against the base URL,
  and the list cut off at a fixed size.
*/
module References {
  import opened Wrappers
  import opened PyStr
  import opened Dom

  /** `{'url': ..., 'text': ...}` */
  datatype Link = Link(url: string, text: string)

  /** `{'url': ..., 'alt': ...}` */
  datatype Image = Image(url: string, alt: string)

  /**
    `urljoin(base, ref)`, supplied by the caller. `None` stands for the `ValueError` it raises on
    a malformed reference (an unclosed IPv6 bracket, for one).
  */
  type Resolver = (string, string) -> Option<string>

  const MaxLinks: nat := 50
  const MaxImages: nat := 20
  /** Link text and alt text are cut to this many characters. */
  const MaxLabel: nat := 100

  /** `href.startswith(('http://', 'https://', '#'))` */
  predicate AbsoluteLink(href: string) {
    StartsWith(href, "http://") || StartsWith(href, "https://") || StartsWith(href, "#")
  }

  /** `src.startswith(('http://', 'https://', 'data:'))` */
  predicate AbsoluteImage(src: string) {
    StartsWith(src, "http://") || StartsWith(src, "https://") || StartsWith(src, "data:")
  }

  /** A reference is joined to the base only when a non-empty base is given and the reference is not absolute. */
  predicate Resolves(base: Option<string>, absolute: bool) {
    base.Some? && base.value != [] && !absolute
  }

  function Resolve(ref: string, base: Option<string>, absolute: bool, resolve: Resolver): (r: Option<string>)
    ensures !Resolves(base, absolute) ==> r == Some(ref)
    ensures Resolves(base, absolute) ==> r == resolve(base.value, ref)
  {
    if Resolves(base, absolute) then resolve(base.value, ref) else Some(ref)
  }

  /** What one element contributes: nothing, a record, or the exception that ends the whole extraction. */
  datatype Step<T> = Skip | Keep(item: T) | Raise

  /** One turn of the anchor loop. */
  function LinkStep(a: Node, base: Option<string>, resolve: Resolver): Step<Link> {
    var href := Strip(Attr(a, "href", ""));
    var text := GetText(a);
    if href == [] || text == [] then Skip
    else match Resolve(href, base, AbsoluteLink(href), resolve)
      case None => Raise
      case Some(url) => Keep(Link(url, Prefix(text, MaxLabel)))
  }

  /** One turn of the image loop. */
  function ImageStep(img: Node, base: Option<string>, resolve: Resolver): Step<Image> {
    var src := Strip(Attr(img, "src", ""));
    var alt := Strip(Attr(img, "alt", ""));
    if src == [] then Skip
    else match Resolve(src, base, AbsoluteImage(src), resolve)
      case None => Raise
      case Some(url) => Keep(Image(url, Prefix(alt, MaxLabel)))
  }

  function LinkSteps(anchors: seq<Node>, base: Option<string>, resolve: Resolver): (r: seq<Step<Link>>)
    ensures |r| == |anchors|
    ensures forall i :: 0 <= i < |anchors| ==> r[i] == LinkStep(anchors[i], base, resolve)
  {
    seq(|anchors|, i requires 0 <= i < |anchors| => LinkStep(anchors[i], base, resolve))
  }

  function ImageSteps(imgs: seq<Node>, base: Option<string>, resolve: Resolver): (r: seq<Step<Image>>)
    ensures |r| == |imgs|
    ensures forall i :: 0 <= i < |imgs| ==> r[i] == ImageStep(imgs[i], base, resolve)
  {
    seq(|imgs|, i requires 0 <= i < |imgs| => ImageStep(imgs[i], base, resolve))
  }

  /**
    The records a loop collects from its turns, with room for `room` more: a raise ends it with
    nothing, and it stops right after the record that fills the room (a loop that compares the size
    after appending always takes at least one).
  */
  function Gather<T>(steps: seq<Step<T>>, room: nat): Option<seq<T>> {
    if steps == [] then Some([])
    else match steps[0]
      case Raise => None
      case Skip => Gather(steps[1..], room)
      case Keep(x) => if room <= 1 then Some([x]) else Resume([x], Gather(steps[1..], room - 1))
  }

  /** The records collected so far, followed by those the rest of the loop collects. */
  function Resume<T>(acc: seq<T>, rest: Option<seq<T>>): Option<seq<T>> {
    match rest case None => None case Some(r) => Some(acc + r)
  }

  lemma ResumeNothing<T>(rest: Option<seq<T>>)
    ensures Resume([], rest) == rest
  {
    if rest.Some? {
      assert [] + rest.value == rest.value;
    }
  }

  /** Every record the turns offer, in order, with no limit and no raise. */
  function Kept<T>(steps: seq<Step<T>>): seq<T> {
    if steps == [] then [] else (if steps[0].Keep? then [steps[0].item] else []) + Kept(steps[1..])
  }

  /** The collected records are the first records offered, never more than the room. */
  lemma {:induction false} GatherPrefix<T>(steps: seq<Step<T>>, room: nat)
    requires room >= 1
    ensures Gather(steps, room).Some? ==>
      var r := Gather(steps, room).value; |r| <= room && |r| <= |Kept(steps)| && r == Kept(steps)[..|r|]
  {
    if steps != [] && !steps[0].Raise? {
      var rest := Kept(steps[1..]);
      if steps[0].Skip? {
        assert Kept(steps) == rest;
        GatherPrefix(steps[1..], room);
      } else {
        var x := steps[0].item;
        assert Kept(steps) == [x] + rest;
        if room > 1 {
          GatherPrefix(steps[1..], room - 1);
          if Gather(steps[1..], room - 1).Some? {
            var r := Gather(steps[1..], room - 1).value;
            assert Gather(steps, room).value == [x] + r;
            assert ([x] + rest)[..|r| + 1] == [x] + rest[..|r|];
          }
        }
      }
    }
  }

  /** With no raise and no more records than room, every record offered is collected. */
  lemma {:induction false} GatherComplete<T>(steps: seq<Step<T>>, room: nat)
    requires forall s :: s in steps ==> !s.Raise?
    requires |Kept(steps)| <= room
    ensures Gather(steps, room) == Some(Kept(steps))
  {
    if steps != [] {
      assert steps[0] in steps;
      assert forall s :: s in steps[1..] ==> s in steps;
      var rest := Kept(steps[1..]);
      if steps[0].Skip? {
        assert Kept(steps) == rest;
        GatherComplete(steps[1..], room);
      } else {
        var x := steps[0].item;
        assert Kept(steps) == [x] + rest;
        if room > 1 {
          GatherComplete(steps[1..], room - 1);
        } else {
          assert rest == [];
          assert Kept(steps) == [x];
        }
      }
    }
  }

  /** The loop fails only because some turn raised. */
  lemma {:induction false} GatherFails<T>(steps: seq<Step<T>>, room: nat)
    ensures Gather(steps, room).None? ==> Raise in steps
  {
    if steps != [] {
      assert steps[0] in steps;
      if steps[0].Skip? {
        GatherFails(steps[1..], room);
        assert forall s :: s in steps[1..] ==> s in steps;
      } else if steps[0].Keep? && room > 1 {
        GatherFails(steps[1..], room - 1);
        assert forall s :: s in steps[1..] ==> s in steps;
      }
    }
  }

  function Min(a: nat, b: nat): nat {
    if a <= b then a else b
  }

  /** Some turn raises while fewer than `room` records have been offered before it. */
  ghost predicate RaisesWithin<T>(steps: seq<Step<T>>, room: nat) {
    exists i :: 0 <= i < |steps| && steps[i].Raise? && |Kept(steps[..i])| < room
  }

  /** The records offered by the first `i` turns, split after the first turn. */
  lemma KeptFirst<T>(steps: seq<Step<T>>, i: nat)
    requires 1 <= i <= |steps|
    ensures Kept(steps[..i]) == (if steps[0].Keep? then [steps[0].item] else []) + Kept(steps[1..][..i - 1])
  {
    assert steps[..i][0] == steps[0];
    assert steps[..i][1..] == steps[1..][..i - 1];
  }

  /** Where the loop ends without a raise, it holds the first `room` records offered, or all of them if fewer. */
  lemma {:induction false} GatherExact<T>(steps: seq<Step<T>>, room: nat)
    requires room >= 1
    ensures Gather(steps, room).Some? ==> Gather(steps, room).value == Kept(steps)[..Min(room, |Kept(steps)|)]
    ensures Raise !in steps ==> Gather(steps, room) == Some(Kept(steps)[..Min(room, |Kept(steps)|)])
  {
    GatherFails(steps, room);
    if steps != [] && !steps[0].Raise? {
      var rest := Kept(steps[1..]);
      if steps[0].Skip? {
        assert Kept(steps) == rest;
        GatherExact(steps[1..], room);
      } else {
        var x := steps[0].item;
        assert Kept(steps) == [x] + rest;
        if room > 1 {
          GatherExact(steps[1..], room - 1);
          if Gather(steps[1..], room - 1).Some? {
            var m := Min(room - 1, |rest|);
            assert Gather(steps, room).value == [x] + rest[..m];
            assert ([x] + rest)[..m + 1] == [x] + rest[..m];
          }
        } else {
          assert ([x] + rest)[..1] == [x];
        }
      }
    }
  }

  /** The loop fails exactly when a turn raises before the room is filled. */
  lemma {:induction false} GatherNoneMeans<T>(steps: seq<Step<T>>, room: nat)
    requires room >= 1
    ensures Gather(steps, room).None? <==> RaisesWithin(steps, room)
  {
    if steps == [] {
    } else if steps[0].Raise? {
      assert Kept(steps[..0]) == [];
    } else {
      var room' := if steps[0].Keep? then room - 1 else room;
      var more := if steps[0].Keep? then 1 else 0;
      if steps[0].Keep? && room == 1 {
        if RaisesWithin(steps, room) {
          var i :| 0 <= i < |steps| && steps[i].Raise? && |Kept(steps[..i])| < room;
          KeptFirst(steps, i);
        }
      } else {
        GatherNoneMeans(steps[1..], room');
        if RaisesWithin(steps, room) {
          var i :| 0 <= i < |steps| && steps[i].Raise? && |Kept(steps[..i])| < room;
          KeptFirst(steps, i);
          assert steps[1..][i - 1].Raise? && |Kept(steps[1..][..i - 1])| < room';
        }
        if RaisesWithin(steps[1..], room') {
          var j :| 0 <= j < |steps[1..]| && steps[1..][j].Raise? && |Kept(steps[1..][..j])| < room';
          KeptFirst(steps, j + 1);
          assert steps[j + 1].Raise? && |Kept(steps[..j + 1])| < room;
        }
        if steps[0].Keep? {
          match Gather(steps[1..], room - 1)
          case None =>
          case Some(r) =>
        }
      }
    }
  }

  /** One turn of a collecting loop, in terms of `Gather` over the turns still to come. */
  lemma GatherTurn<T>(steps: seq<Step<T>>, i: nat, acc: seq<T>, cap: nat, total: Option<seq<T>>)
    requires i < |steps| && |acc| < cap
    requires Resume(acc, Gather(steps[i..], cap - |acc|)) == total
    ensures steps[i].Raise? ==> total == None
    ensures steps[i].Skip? ==> Resume(acc, Gather(steps[i + 1..], cap - |acc|)) == total
    ensures steps[i].Keep? ==>
      var more := acc + [steps[i].item];
      if |more| >= cap then total == Some(more) else Resume(more, Gather(steps[i + 1..], cap - |more|)) == total
  {
    assert steps[i..][1..] == steps[i + 1..];
    if steps[i].Keep? && cap - |acc| > 1 {
      match Gather(steps[i + 1..], cap - |acc| - 1)
      case None =>
      case Some(r) =>
        assert acc + ([steps[i].item] + r) == acc + [steps[i].item] + r;
    }
  }

  /** `soup.find_all('a', href=True)` */
  function Anchors(root: Node): seq<Node> {
    Select(root, TagWithAttr("a", "href"))
  }

  /** `soup.find_all('img', src=True)` */
  function Imgs(root: Node): seq<Node> {
    Select(root, TagWithAttr("img", "src"))
  }

  /** Every record offered comes from a turn that kept it. */
  lemma {:induction false} KeptFrom<T>(steps: seq<Step<T>>)
    ensures forall x :: x in Kept(steps) ==> Keep(x) in steps
  {
    if steps != [] {
      KeptFrom(steps[1..]);
      assert steps[0] in steps;
      assert forall s :: s in steps[1..] ==> s in steps;
      assert Kept(steps) == (if steps[0].Keep? then [steps[0].item] else []) + Kept(steps[1..]);
    }
  }

  /** What is collected was offered. */
  lemma CollectedFrom<T>(steps: seq<Step<T>>, room: nat)
    requires room >= 1
    ensures Gather(steps, room).Some? ==> forall x :: x in Gather(steps, room).value ==> Keep(x) in steps
  {
    GatherPrefix(steps, room);
    KeptFrom(steps);
    if Gather(steps, room).Some? {
      var r := Gather(steps, room).value;
      assert forall x :: x in r ==> x in Kept(steps);
    }
  }

  /** `_extract_links(soup, base_url)`; `None` where `urljoin` raises. */
  function LinksOf(root: Node, base: Option<string>, resolve: Resolver): Option<seq<Link>> {
    Gather(LinkSteps(Anchors(root), base, resolve), MaxLinks)
  }

  /** `_extract_images(soup, base_url)`; `None` where `urljoin` raises. */
  function ImagesOf(root: Node, base: Option<string>, resolve: Resolver): Option<seq<Image>> {
    Gather(ImageSteps(Imgs(root), base, resolve), MaxImages)
  }

  /**
    A link is kept only for an anchor whose stripped `href` and text are both non-empty; its
    text is the anchor's text cut to 100 characters, and its URL is the `href` as it is unless a
    base is given and the `href` is not absolute, in which case it is the joined URL.
  */
  lemma LinkStepMeans(a: Node, base: Option<string>, resolve: Resolver)
    ensures var href := Strip(Attr(a, "href", ""));
            LinkStep(a, base, resolve).Keep? || LinkStep(a, base, resolve).Raise? <==> href != [] && GetText(a) != []
    ensures var href := Strip(Attr(a, "href", ""));
            LinkStep(a, base, resolve).Raise? <==>
              href != [] && GetText(a) != [] && Resolves(base, AbsoluteLink(href)) && resolve(base.value, href).None?
    ensures var href := Strip(Attr(a, "href", ""));
            LinkStep(a, base, resolve).Keep? ==>
              var l := LinkStep(a, base, resolve).item;
              l.text == Prefix(GetText(a), MaxLabel) && l.text != [] && |l.text| <= MaxLabel &&
              (if Resolves(base, AbsoluteLink(href)) then resolve(base.value, href) == Some(l.url) else l.url == href)
  {
    var href := Strip(Attr(a, "href", ""));
    var text := GetText(a);
    if href != [] && text != [] {
      var r := Resolve(href, base, AbsoluteLink(href), resolve);
      if r.Some? {
        assert LinkStep(a, base, resolve) == Keep(Link(r.value, Prefix(text, MaxLabel)));
      } else {
        assert LinkStep(a, base, resolve) == Raise;
      }
    } else {
      assert LinkStep(a, base, resolve) == Skip;
    }
  }

  /**
    An image is kept only for a non-empty stripped `src`; its alt text is the stripped `alt`
    cut to 100 characters, and its URL is the `src` unless a base is given and the `src` is not
    absolute or a `data:` URL.
  */
  lemma ImageStepMeans(img: Node, base: Option<string>, resolve: Resolver)
    ensures var src := Strip(Attr(img, "src", ""));
            ImageStep(img, base, resolve).Keep? || ImageStep(img, base, resolve).Raise? <==> src != []
    ensures var src := Strip(Attr(img, "src", ""));
            ImageStep(img, base, resolve).Raise? <==>
              src != [] && Resolves(base, AbsoluteImage(src)) && resolve(base.value, src).None?
    ensures var src := Strip(Attr(img, "src", ""));
            ImageStep(img, base, resolve).Keep? ==>
              var m := ImageStep(img, base, resolve).item;
              m.alt == Prefix(Strip(Attr(img, "alt", "")), MaxLabel) && |m.alt| <= MaxLabel &&
              (if Resolves(base, AbsoluteImage(src)) then resolve(base.value, src) == Some(m.url) else m.url == src)
  {
    var src := Strip(Attr(img, "src", ""));
    var alt := Strip(Attr(img, "alt", ""));
    if src != [] {
      var r := Resolve(src, base, AbsoluteImage(src), resolve);
      if r.Some? {
        assert ImageStep(img, base, resolve) == Keep(Image(r.value, Prefix(alt, MaxLabel)));
      } else {
        assert ImageStep(img, base, resolve) == Raise;
      }
    } else {
      assert ImageStep(img, base, resolve) == Skip;
    }
  }

  /**
    The first 50 links the anchors offer, in document order, or all of them if fewer; `None`
    exactly when `urljoin` raises for an anchor reached before the fiftieth link.
  */
  lemma LinksBound(root: Node, base: Option<string>, resolve: Resolver)
    ensures var steps := LinkSteps(Anchors(root), base, resolve);
      LinksOf(root, base, resolve).None? <==> RaisesWithin(steps, MaxLinks)
    ensures LinksOf(root, base, resolve).Some? ==>
      var ls := LinksOf(root, base, resolve).value;
      var offered := Kept(LinkSteps(Anchors(root), base, resolve));
      |ls| == Min(MaxLinks, |offered|) && ls == offered[..|ls|]
  {
    GatherExact(LinkSteps(Anchors(root), base, resolve), MaxLinks);
    GatherNoneMeans(LinkSteps(Anchors(root), base, resolve), MaxLinks);
  }

  /**
    The first 20 images offered, in document order, or all of them if fewer; `None` exactly
    when `urljoin` raises for an image reached before the twentieth.
  */
  lemma ImagesBound(root: Node, base: Option<string>, resolve: Resolver)
    ensures var steps := ImageSteps(Imgs(root), base, resolve);
      ImagesOf(root, base, resolve).None? <==> RaisesWithin(steps, MaxImages)
    ensures ImagesOf(root, base, resolve).Some? ==>
      var ms := ImagesOf(root, base, resolve).value;
      var offered := Kept(ImageSteps(Imgs(root), base, resolve));
      |ms| == Min(MaxImages, |offered|) && ms == offered[..|ms|]
  {
    GatherExact(ImageSteps(Imgs(root), base, resolve), MaxImages);
    GatherNoneMeans(ImageSteps(Imgs(root), base, resolve), MaxImages);
  }

  /** Every link holds non-empty text of at most 100 characters. */
  lemma LinksWellFormed(root: Node, base: Option<string>, resolve: Resolver)
    ensures LinksOf(root, base, resolve).Some? ==>
      forall l :: l in LinksOf(root, base, resolve).value ==> l.text != [] && |l.text| <= MaxLabel
  {
    var anchors := Anchors(root);
    var steps := LinkSteps(anchors, base, resolve);
    CollectedFrom(steps, MaxLinks);
    if LinksOf(root, base, resolve).Some? {
      forall l | l in LinksOf(root, base, resolve).value
        ensures l.text != [] && |l.text| <= MaxLabel
      {
        var j :| 0 <= j < |steps| && steps[j] == Keep(l);
        LinkStepMeans(anchors[j], base, resolve);
      }
    }
  }

  /** Every image holds alt text of at most 100 characters. */
  lemma ImagesWellFormed(root: Node, base: Option<string>, resolve: Resolver)
    ensures ImagesOf(root, base, resolve).Some? ==>
      forall m :: m in ImagesOf(root, base, resolve).value ==> |m.alt| <= MaxLabel
  {
    var imgs := Imgs(root);
    var steps := ImageSteps(imgs, base, resolve);
    CollectedFrom(steps, MaxImages);
    if ImagesOf(root, base, resolve).Some? {
      forall m | m in ImagesOf(root, base, resolve).value
        ensures |m.alt| <= MaxLabel
      {
        var j :| 0 <= j < |steps| && steps[j] == Keep(m);
        ImageStepMeans(imgs[j], base, resolve);
      }
    }
  }

  /** `steps` are the turns the anchor loop takes, one per anchor. */
  predicate LinkTurns(anchors: seq<Node>, base: Option<string>, resolve: Resolver, steps: seq<Step<Link>>) {
    |steps| == |anchors| &&
    forall j {:trigger LinkStep(anchors[j], base, resolve)} :: 0 <= j < |anchors| ==> steps[j] == LinkStep(anchors[j], base, resolve)
  }

  /** `steps` are the turns the image loop takes, one per image. */
  predicate ImageTurns(imgs: seq<Node>, base: Option<string>, resolve: Resolver, steps: seq<Step<Image>>) {
    |steps| == |imgs| &&
    forall j {:trigger ImageStep(imgs[j], base, resolve)} :: 0 <= j < |imgs| ==> steps[j] == ImageStep(imgs[j], base, resolve)
  }

  /** The body of the anchor loop for anchor `i`: read and strip `href`, read the text, join a relative `href`. */
  method ReadLink(anchors: seq<Node>, i: nat, base: Option<string>, resolve: Resolver, ghost steps: seq<Step<Link>>)
    returns (step: Step<Link>)
    requires i < |anchors| && LinkTurns(anchors, base, resolve, steps)
    ensures step == steps[i]
  {
    assert steps[i] == LinkStep(anchors[i], base, resolve);
    var href := Strip(Attr(anchors[i], "href", ""));
    var text := GetText(anchors[i]);
    if href == [] || text == [] {
      return Skip;
    }
    if Resolves(base, AbsoluteLink(href)) {
      var joined := resolve(base.value, href);
      if joined.None? {
        return Raise;
      }
      href := joined.value;
    }
    step := Keep(Link(href, Prefix(text, MaxLabel)));
  }

  /** The body of the image loop for image `i`: read and strip `src` and `alt`, join a relative `src`. */
  method ReadImage(imgs: seq<Node>, i: nat, base: Option<string>, resolve: Resolver, ghost steps: seq<Step<Image>>)
    returns (step: Step<Image>)
    requires i < |imgs| && ImageTurns(imgs, base, resolve, steps)
    ensures step == steps[i]
  {
    assert steps[i] == ImageStep(imgs[i], base, resolve);
    var src := Strip(Attr(imgs[i], "src", ""));
    if src == [] {
      return Skip;
    }
    var alt := Strip(Attr(imgs[i], "alt", ""));
    if Resolves(base, AbsoluteImage(src)) {
      var joined := resolve(base.value, src);
      if joined.None? {
        return Raise;
      }
      src := joined.value;
    }
    step := Keep(Image(src, Prefix(alt, MaxLabel)));
  }

  /** The anchor loop: collect until 50 links are held; a raising `urljoin` ends it. */
  method CollectLinks(anchors: seq<Node>, base: Option<string>, resolve: Resolver, ghost steps: seq<Step<Link>>)
    returns (links: Option<seq<Link>>)
    requires LinkTurns(anchors, base, resolve, steps)
    ensures links == Gather(steps, MaxLinks)
  {
    ghost var total := Gather(steps, MaxLinks);
    var acc: seq<Link> := [];
    ResumeNothing(total);
    for i := 0 to |anchors|
      invariant |acc| < MaxLinks
      invariant Resume(acc, Gather(steps[i..], MaxLinks - |acc|)) == total
    {
      GatherTurn(steps, i, acc, MaxLinks, total);
      var step := ReadLink(anchors, i, base, resolve, steps);
      match step
      case Raise =>
        return None;
      case Skip =>
      case Keep(link) =>
        acc := acc + [link];
        if |acc| >= MaxLinks {
          return Some(acc);
        }
    }
    assert steps[|steps|..] == [] && acc + [] == acc;
    links := Some(acc);
  }

  /** The image loop: collect until 20 images are held; a raising `urljoin` ends it. */
  method CollectImages(imgs: seq<Node>, base: Option<string>, resolve: Resolver, ghost steps: seq<Step<Image>>)
    returns (images: Option<seq<Image>>)
    requires ImageTurns(imgs, base, resolve, steps)
    ensures images == Gather(steps, MaxImages)
  {
    ghost var total := Gather(steps, MaxImages);
    var acc: seq<Image> := [];
    ResumeNothing(total);
    for i := 0 to |imgs|
      invariant |acc| < MaxImages
      invariant Resume(acc, Gather(steps[i..], MaxImages - |acc|)) == total
    {
      GatherTurn(steps, i, acc, MaxImages, total);
      var step := ReadImage(imgs, i, base, resolve, steps);
      match step
      case Raise =>
        return None;
      case Skip =>
      case Keep(image) =>
        acc := acc + [image];
        if |acc| >= MaxImages {
          return Some(acc);
        }
    }
    assert steps[|steps|..] == [] && acc + [] == acc;
    images := Some(acc);
  }

  /** `_extract_links(soup, base_url)`; `None` where `urljoin` raises. */
  method ExtractLinks(root: Node, base: Option<string>, resolve: Resolver) returns (links: Option<seq<Link>>)
    ensures links == LinksOf(root, base, resolve)
  {
    var anchors := Select(root, TagWithAttr("a", "href"));
    links := CollectLinks(anchors, base, resolve, LinkSteps(anchors, base, resolve));
  }

  /** `_extract_images(soup, base_url)`; `None` where `urljoin` raises. */
  method ExtractImages(root: Node, base: Option<string>, resolve: Resolver) returns (images: Option<seq<Image>>)
    ensures images == ImagesOf(root, base, resolve)
  {
    var imgs := Select(root, TagWithAttr("img", "src"));
    images := CollectImages(imgs, base, resolve, ImageSteps(imgs, base, resolve));
  }
}
