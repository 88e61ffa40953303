/**
  The lazy emphasis rewrites `re.sub(r'\*\*(.*?)\*\*', ...)` and `re.sub(r'\*(.*?)\*', ...)`,
  hand-scanned over positions of the input: at each position, an opening marker followed on the
  same line by a closing one is replaced together with its text, and the scan resumes after the
  closing marker; at any other position the character is copied.
*/
module MdSpans {
  import opened Wrappers

  /** The two emphasis markers: `**` (bold) and `*` (italic). */
  datatype Marker = Double | Single

  function Width(m: Marker): nat {
    if m == Double then 2 else 1
  }

  /** The marker occurs at position `i` of `s`. */
  predicate At(s: string, i: nat, m: Marker) {
    i + Width(m) <= |s| && s[i] == '*' && (m == Single || s[i + 1] == '*')
  }

  /**
    Where the lazy `(.*?)` begun at `i` stops: the first position from `i` on at which the
    marker occurs, as long as no newline comes before it (`.` does not match a newline).
  */
  function Close(s: string, i: nat, m: Marker): (r: Option<nat>)
    ensures r.Some? ==> i <= r.value && At(s, r.value, m)
    decreases |s| - i
  {
    if At(s, i, m) then Some(i)
    else if i >= |s| || s[i] == '\n' then None
    else Close(s, i + 1, m)
  }

  /** The close found is the first one, and no newline comes before it. */
  lemma {:induction false} CloseFirst(s: string, i: nat, m: Marker)
    requires Close(s, i, m).Some?
    ensures forall k :: i <= k < Close(s, i, m).value ==> s[k] != '\n' && !At(s, k, m)
    decreases |s| - i
  {
    if !At(s, i, m) {
      CloseFirst(s, i + 1, m);
    }
  }

  /** With no close found, every later occurrence of the marker has a newline before it. */
  lemma {:induction false} CloseNone(s: string, i: nat, m: Marker)
    requires Close(s, i, m).None?
    ensures forall j :: i <= j && At(s, j, m) ==> exists k :: i <= k < j && s[k] == '\n'
    decreases |s| - i
  {
    if i < |s| && s[i] != '\n' {
      CloseNone(s, i + 1, m);
    }
  }

  /** A run free of newlines and stars leads the lazy match to the marker after it. */
  lemma {:induction false} CloseRuns(s: string, k: nat, j: nat, m: Marker)
    requires k <= j && At(s, j, m)
    requires forall p :: k <= p < j ==> s[p] != '\n' && s[p] != '*'
    ensures Close(s, k, m) == Some(j)
    decreases j - k
  {
    if k < j {
      CloseRuns(s, k + 1, j, m);
    }
  }

  /** The span opening at `i`, if any: where its closing marker starts. */
  function SpanAt(s: string, i: nat, m: Marker): (r: Option<nat>)
    ensures r.Some? ==> At(s, i, m) && i + Width(m) <= r.value && At(s, r.value, m)
  {
    if At(s, i, m) then Close(s, i + Width(m), m) else None
  }

  /** Where the scan resumes after position `i`: past the closing marker of a span, or at the next character. */
  function Next(s: string, i: nat, m: Marker): (n: nat)
    requires i < |s|
    ensures i < n <= |s|
  {
    match SpanAt(s, i, m)
    case Some(j) => j + Width(m)
    case None => i + 1
  }

  /** What the scan emits at position `i`: a whole span rewritten, or the character copied. */
  function Piece(s: string, i: nat, m: Marker, open: string, close: string): string
    requires i < |s|
  {
    match SpanAt(s, i, m)
    case Some(j) => open + s[i + Width(m)..j] + close
    case None => [s[i]]
  }

  /** The rewrite of `s[i..]`: each span `marker text marker` becomes `open text close`. */
  function SpansFrom(s: string, i: nat, m: Marker, open: string, close: string): string
    decreases |s| - i
  {
    if i >= |s| then [] else Piece(s, i, m, open, close) + SpansFrom(s, Next(s, i, m), m, open, close)
  }

  /** `re.sub(marker + r'(.*?)' + marker, open + r'\1' + close, s)` */
  function Spans(s: string, m: Marker, open: string, close: string): string {
    SpansFrom(s, 0, m, open, close)
  }

  /** A position without a star is copied. */
  lemma PlainStep(s: string, i: nat, m: Marker, open: string, close: string)
    requires i < |s| && s[i] != '*'
    ensures SpansFrom(s, i, m, open, close) == [s[i]] + SpansFrom(s, i + 1, m, open, close)
  {
    assert !At(s, i, m);
  }

  lemma ConsSlice(s: string, i: nat, k: nat, t: string)
    requires i < k <= |s|
    ensures [s[i]] + (s[i + 1..k] + t) == s[i..k] + t
  {
    assert s[i..k] == [s[i]] + s[i + 1..k];
  }

  /** Where no star occurs, the scan copies the text. */
  lemma {:induction false} SpansFromPlain(s: string, i: nat, k: nat, m: Marker, open: string, close: string)
    requires i <= k <= |s|
    requires forall p :: i <= p < k ==> s[p] != '*'
    ensures SpansFrom(s, i, m, open, close) == s[i..k] + SpansFrom(s, k, m, open, close)
    decreases k - i
  {
    if i < k {
      var rest := SpansFrom(s, k, m, open, close);
      calc {
        SpansFrom(s, i, m, open, close);
        { PlainStep(s, i, m, open, close); }
        [s[i]] + SpansFrom(s, i + 1, m, open, close);
        { SpansFromPlain(s, i + 1, k, m, open, close); }
        [s[i]] + (s[i + 1..k] + rest);
        { ConsSlice(s, i, k, rest); }
        s[i..k] + rest;
      }
    } else {
      assert s[i..k] == [];
    }
  }

  /** Text without stars is left as it is. */
  lemma SpansPlain(s: string, m: Marker, open: string, close: string)
    requires '*' !in s
    ensures Spans(s, m, open, close) == s
  {
    SpansFromPlain(s, 0, |s|, m, open, close);
    assert s[0..|s|] == s;
  }

  /** A span opening at `i` whose text holds no star and no newline is replaced by that text between `open` and `close`. */
  lemma SpansFromMatch(s: string, i: nat, j: nat, m: Marker, open: string, close: string)
    requires At(s, i, m) && i + Width(m) <= j && At(s, j, m)
    requires forall p :: i + Width(m) <= p < j ==> s[p] != '\n' && s[p] != '*'
    ensures SpansFrom(s, i, m, open, close) == open + s[i + Width(m)..j] + close + SpansFrom(s, j + Width(m), m, open, close)
  {
    assert SpanAt(s, i, m) == Some(j) by {
      CloseRuns(s, i + Width(m), j, m);
    }
    SpansFromSpan(s, i, j, m, open, close);
  }

  lemma SpansFromSpan(s: string, i: nat, j: nat, m: Marker, open: string, close: string)
    requires i < |s| && SpanAt(s, i, m) == Some(j)
    ensures SpansFrom(s, i, m, open, close) == open + s[i + Width(m)..j] + close + SpansFrom(s, j + Width(m), m, open, close)
  {
    PieceSome(s, i, m, open, close, j);
    SpansFromStepTo(s, i, m, open, close, open + s[i + Width(m)..j] + close, j + Width(m));
  }

  /** At the opening of a span, the scan emits the rewritten span and resumes after its closing marker. */
  lemma PieceSome(s: string, i: nat, m: Marker, open: string, close: string, j: nat)
    requires i < |s| && SpanAt(s, i, m) == Some(j)
    ensures Piece(s, i, m, open, close) == open + s[i + Width(m)..j] + close && Next(s, i, m) == j + Width(m)
  {
  }

  /** Elsewhere, the scan copies the character and moves on by one. */
  lemma PieceNone(s: string, i: nat, m: Marker, open: string, close: string)
    requires i < |s| && SpanAt(s, i, m).None?
    ensures Piece(s, i, m, open, close) == [s[i]] && Next(s, i, m) == i + 1
  {
  }

  /** One step of the scan. */
  lemma SpansFromStep(s: string, i: nat, m: Marker, open: string, close: string)
    requires i < |s|
    ensures SpansFrom(s, i, m, open, close) == Piece(s, i, m, open, close) + SpansFrom(s, Next(s, i, m), m, open, close)
  {
  }

  /** One step of the scan, with what it emits and where it resumes. */
  lemma SpansFromStepTo(s: string, i: nat, m: Marker, open: string, close: string, piece: string, next: nat)
    requires i < |s| && Piece(s, i, m, open, close) == piece && Next(s, i, m) == next
    ensures SpansFrom(s, i, m, open, close) == piece + SpansFrom(s, next, m, open, close)
  {
    SpansFromStep(s, i, m, open, close);
  }

  /** The rewrite only copies characters of the text or of the replacement tags. */
  lemma {:induction false} SpansFromChars(s: string, i: nat, m: Marker, open: string, close: string)
    ensures forall x :: x in SpansFrom(s, i, m, open, close) ==> x in s || x in open || x in close
    decreases |s| - i
  {
    if i < |s| {
      SpansFromChars(s, Next(s, i, m), m, open, close);
      match SpanAt(s, i, m)
      case Some(j) =>
        assert forall x :: x in s[i + Width(m)..j] ==> x in s;
      case None =>
    }
  }

  lemma SpansChars(s: string, m: Marker, open: string, close: string)
    ensures forall x :: x in Spans(s, m, open, close) ==> x in s || x in open || x in close
  {
    SpansFromChars(s, 0, m, open, close);
  }

  /** Dropping the markers, as the plain-text rendering does, never lengthens the text. */
  lemma {:induction false} SpansFromShrinks(s: string, i: nat, m: Marker)
    requires i <= |s|
    ensures |SpansFrom(s, i, m, "", "")| <= |s| - i
    decreases |s| - i
  {
    if i < |s| {
      SpansFromShrinks(s, Next(s, i, m), m);
      assert |Piece(s, i, m, "", "")| <= Next(s, i, m) - i;
    }
  }

  /** The marker as text. */
  function MarkerText(m: Marker): (t: string)
    ensures |t| == Width(m) && forall c :: c in t ==> c == '*'
  {
    if m == Double then "**" else "*"
  }

  /** The pieces of `d + text + d + rest`, located by position. */
  lemma {:induction false} FourPieces(d: string, text: string, rest: string)
    ensures var s := d + text + d + rest; var j := |d| + |text|;
      && |s| == j + |d| + |rest|
      && s[..|d|] == d && s[|d|..j] == text && s[j..j + |d|] == d && s[j + |d|..] == rest
  {
    var s := d + text + d + rest;
    var j := |d| + |text|;
    assert s == ((d + text) + d) + rest;
    assert s[..j + |d|] == (d + text) + d;
    assert s[..j] == d + text;
  }

  lemma MarkerAt(s: string, i: nat, m: Marker)
    requires i + Width(m) <= |s| && s[i..i + Width(m)] == MarkerText(m)
    ensures At(s, i, m)
  {
    assert s[i] == s[i..i + Width(m)][0];
    if m == Double {
      assert s[i + 1] == s[i..i + Width(m)][1];
    }
  }

  lemma SliceChars(s: string, a: nat, b: nat, t: string, c: char)
    requires a <= b <= |s| && s[a..b] == t && c !in t
    ensures forall p :: a <= p < b ==> s[p] != c
  {
    forall p | a <= p < b
      ensures s[p] != c
    {
      assert s[p] == t[p - a];
    }
  }

  /** A span whose text holds no star and no newline, followed by text without stars, is rewritten once. */
  lemma SpansOne(m: Marker, text: string, rest: string, open: string, close: string)
    requires '*' !in text && '\n' !in text && '*' !in rest
    ensures Spans(MarkerText(m) + text + MarkerText(m) + rest, m, open, close) == open + text + close + rest
  {
    var d := MarkerText(m);
    var s := d + text + d + rest;
    var w := Width(m);
    var j := w + |text|;
    FourPieces(d, text, rest);
    MarkerAt(s, 0, m);
    MarkerAt(s, j, m);
    SliceChars(s, w, j, text, '*');
    SliceChars(s, w, j, text, '\n');
    SliceChars(s, j + w, |s|, rest, '*');
    calc {
      Spans(s, m, open, close);
      { SpansFromMatch(s, 0, j, m, open, close); }
      open + s[w..j] + close + SpansFrom(s, j + w, m, open, close);
      { SpansFromPlain(s, j + w, |s|, m, open, close); }
      open + s[w..j] + close + (s[j + w..|s|] + SpansFrom(s, |s|, m, open, close));
      { assert s[j + w..|s|] == rest; }
      open + text + close + rest;
    }
  }

  // The scan never looks behind its position, so text can be rewritten piece by piece.

  /** `s` from `a` on holds the same text as `t` from `b` on. */
  ghost predicate Agree(s: string, a: nat, t: string, b: nat) {
    a <= |s| && b <= |t| && |s| - a == |t| - b && forall k :: a <= k < |s| ==> s[k] == t[k - a + b]
  }

  lemma AgreeLater(s: string, a: nat, t: string, b: nat, d: nat)
    requires Agree(s, a, t, b) && a + d <= |s|
    ensures Agree(s, a + d, t, b + d)
  {
  }

  lemma AtAgree(s: string, a: nat, t: string, b: nat, m: Marker)
    requires Agree(s, a, t, b)
    ensures At(s, a, m) == At(t, b, m)
  {
    if a + Width(m) <= |s| {
      assert s[a] == t[b];
      if m == Double {
        assert s[a + 1] == t[b + 1];
      }
    }
  }

  lemma {:induction false} CloseAgree(s: string, a: nat, t: string, b: nat, m: Marker)
    requires Agree(s, a, t, b)
    ensures Close(s, a, m) == (match Close(t, b, m) case None => None case Some(j) => Some(j - b + a))
    decreases |t| - b
  {
    AtAgree(s, a, t, b, m);
    if !At(t, b, m) && b < |t| {
      assert s[a] == t[b];
      if t[b] != '\n' {
        AgreeLater(s, a, t, b, 1);
        CloseAgree(s, a + 1, t, b + 1, m);
      }
    }
  }

  lemma SpanAtAgree(s: string, a: nat, t: string, b: nat, m: Marker)
    requires Agree(s, a, t, b)
    ensures SpanAt(s, a, m) == (match SpanAt(t, b, m) case None => None case Some(j) => Some(j - b + a))
  {
    AtAgree(s, a, t, b, m);
    if At(t, b, m) {
      AgreeLater(s, a, t, b, Width(m));
      CloseAgree(s, a + Width(m), t, b + Width(m), m);
    }
  }

  lemma StepAgree(s: string, a: nat, t: string, b: nat, m: Marker, open: string, close: string)
    requires Agree(s, a, t, b) && a < |s|
    ensures Next(s, a, m) - a == Next(t, b, m) - b
    ensures Piece(s, a, m, open, close) == Piece(t, b, m, open, close)
  {
    SpanAtAgree(s, a, t, b, m);
    match SpanAt(t, b, m)
    case Some(j) =>
      PieceSome(t, b, m, open, close, j);
      PieceSome(s, a, m, open, close, j - b + a);
      SliceAgree(s, a + Width(m), t, b + Width(m), j - b - Width(m));
    case None =>
      PieceNone(t, b, m, open, close);
      PieceNone(s, a, m, open, close);
      assert s[a] == t[b];
  }

  lemma SliceAgree(s: string, a: nat, t: string, b: nat, n: nat)
    requires a + n <= |s| && b + n <= |t|
    requires forall k :: a <= k < a + n ==> s[k] == t[k - a + b]
    ensures s[a..a + n] == t[b..b + n]
  {
  }

  /** Two scans over the same text emit the same output. */
  lemma {:induction false} SpansFromAgree(s: string, a: nat, t: string, b: nat, m: Marker, open: string, close: string)
    requires Agree(s, a, t, b)
    ensures SpansFrom(s, a, m, open, close) == SpansFrom(t, b, m, open, close)
    decreases |t| - b
  {
    if b < |t| {
      var na := Next(s, a, m);
      var nb := Next(t, b, m);
      StepAgree(s, a, t, b, m, open, close);
      AgreeLater(s, a, t, b, nb - b);
      SpansFromAgree(s, na, t, nb, m, open, close);
      SameStep(s, a, t, b, m, open, close, Piece(t, b, m, open, close), na, nb);
    }
  }

  /** Past a prefix `x`, the scan over `x + y` emits what the scan over `y` emits. */
  lemma SpansFromShift(x: string, y: string, i: nat, m: Marker, open: string, close: string)
    ensures SpansFrom(x + y, |x| + i, m, open, close) == SpansFrom(y, i, m, open, close)
  {
    if i <= |y| {
      AgreeAppend(x, y, i);
      SpansFromAgree(x + y, |x| + i, y, i, m, open, close);
    }
  }

  lemma AgreeAppend(x: string, y: string, i: nat)
    requires i <= |y|
    ensures Agree(x + y, |x| + i, y, i)
  {
  }

  /** Two scans that emit the same piece and then agree from where they resume agree from the start. */
  lemma SameStep(s: string, a: nat, t: string, b: nat, m: Marker, open: string, close: string, piece: string, na: nat, nb: nat)
    requires a < |s| && Piece(s, a, m, open, close) == piece && Next(s, a, m) == na
    requires b < |t| && Piece(t, b, m, open, close) == piece && Next(t, b, m) == nb
    requires SpansFrom(s, na, m, open, close) == SpansFrom(t, nb, m, open, close)
    ensures SpansFrom(s, a, m, open, close) == SpansFrom(t, b, m, open, close)
  {
    SpansFromStepTo(s, a, m, open, close, piece, na);
    SpansFromStepTo(t, b, m, open, close, piece, nb);
  }

  /** A position where the marker does not occur is copied. */
  lemma NoSpanStep(s: string, i: nat, m: Marker, open: string, close: string)
    requires i < |s| && !At(s, i, m)
    ensures SpansFrom(s, i, m, open, close) == [s[i]] + SpansFrom(s, i + 1, m, open, close)
  {
  }

  /** Star-free text in front is copied, and the scan goes on with what follows. */
  lemma SpansAfterPlain(x: string, y: string, m: Marker, open: string, close: string)
    requires '*' !in x
    ensures Spans(x + y, m, open, close) == x + Spans(y, m, open, close)
  {
    assert (x + y)[..|x|] == x;
    SliceChars(x + y, 0, |x|, x, '*');
    SpansFromPlain(x + y, 0, |x|, m, open, close);
    assert (x + y)[0..|x|] == x;
    SpansFromShift(x, y, 0, m, open, close);
  }

  /** A span in front is rewritten, and the scan goes on with what follows. */
  lemma SpansAfterMatch(m: Marker, text: string, y: string, open: string, close: string)
    requires '*' !in text && '\n' !in text
    ensures Spans(MarkerText(m) + text + MarkerText(m) + y, m, open, close) == open + text + close + Spans(y, m, open, close)
  {
    var x := MarkerText(m) + text + MarkerText(m);
    SpanHead(m, text, y, open, close);
    SpansAfterHead(x, y, m, open, close, open + text + close);
  }

  /** The span in front: the scan emits it rewritten and resumes right after it. */
  lemma SpanHead(m: Marker, text: string, y: string, open: string, close: string)
    requires '*' !in text && '\n' !in text
    ensures var x := MarkerText(m) + text + MarkerText(m);
      Piece(x + y, 0, m, open, close) == open + text + close && Next(x + y, 0, m) == |x|
  {
    var d := MarkerText(m);
    var s := d + text + d + y;
    var w := Width(m);
    var j := w + |text|;
    FourPieces(d, text, y);
    assert SpanAt(s, 0, m) == Some(j) by {
      MarkerAt(s, 0, m);
      MarkerAt(s, j, m);
      SliceChars(s, w, j, text, '*');
      SliceChars(s, w, j, text, '\n');
      CloseRuns(s, w, j, m);
    }
    PieceSome(s, 0, m, open, close, j);
    assert d + text + d + y == (d + text + d) + y;
  }

  /** A front part `x` the scan emits as one piece `p` is replaced by `p`. */
  lemma SpansAfterHead(x: string, y: string, m: Marker, open: string, close: string, p: string)
    requires x != [] && Piece(x + y, 0, m, open, close) == p && Next(x + y, 0, m) == |x|
    ensures Spans(x + y, m, open, close) == p + Spans(y, m, open, close)
  {
    SpansFromStepTo(x + y, 0, m, open, close, p, |x| + 0);
    SpansFromShift(x, y, 0, m, open, close);
  }

  /** A lone star, not followed by another, is no bold marker: the bold pass copies it. */
  lemma BoldPassLoneStar(y: string, open: string, close: string)
    requires y == [] || y[0] != '*'
    ensures Spans("*" + y, Double, open, close) == "*" + Spans(y, Double, open, close)
  {
    LoneStarHead(y, open, close);
    SpansAfterHead("*", y, Double, open, close, "*");
  }

  lemma LoneStarHead(y: string, open: string, close: string)
    requires y == [] || y[0] != '*'
    ensures Piece("*" + y, 0, Double, open, close) == "*" && Next("*" + y, 0, Double) == 1
  {
    var s := "*" + y;
    if y != [] {
      assert s[1] == y[0];
    }
    assert !At(s, 0, Double);
    PieceNone(s, 0, Double, open, close);
  }
}
