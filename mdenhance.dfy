/**
  `OutputFormatter._enhance_markdown_formatting`: runs of three or more newlines shrink to one
  blank line, a space goes between a visible character and one of eleven emoji that follows it
  directly, and the result is stripped. Its first rewrite, `^([^#\n].*?)$` to `\1`, puts every
  match back as it was and so is the identity; it has no counterpart here.
*/
module MdEnhance {
  import opened PyStr

  /** The emoji of the class `[🎉🔥💡📝🎯✨👍💪🚀🌟⭐]`, each a single code point. */
  predicate Emoji(c: char) {
    c == '\U{1F389}' || c == '\U{1F525}' || c == '\U{1F4A1}' || c == '\U{1F4DD}' || c == '\U{1F3AF}'
    || c == '\U{2728}' || c == '\U{1F44D}' || c == '\U{1F4AA}' || c == '\U{1F680}' || c == '\U{1F31F}'
    || c == '\U{2B50}'
  }

  /** `s` with every `c` removed. */
  function Drop(s: string, c: char): string {
    if s == [] then [] else (if s[0] == c then [] else [s[0]]) + Drop(s[1..], c)
  }

  lemma {:induction false} DropAppend(a: string, b: string, c: char)
    ensures Drop(a + b, c) == Drop(a, c) + Drop(b, c)
  {
    if a != [] {
      assert (a + b)[1..] == a[1..] + b;
      DropAppend(a[1..], b, c);
    } else {
      assert a + b == b;
    }
  }

  lemma {:induction false} DropAll(t: string, c: char)
    requires forall p :: 0 <= p < |t| ==> t[p] == c
    ensures Drop(t, c) == []
  {
    if t != [] {
      DropAll(t[1..], c);
    }
  }

  lemma SliceSplit(s: string, i: nat, j: nat)
    requires i <= j <= |s|
    ensures s[i..j] + s[j..] == s[i..]
  {
  }

  /** Three newlines in a row start at `k`. */
  predicate Triple(s: string, k: nat) {
    k + 2 < |s| && s[k] == '\n' && s[k + 1] == '\n' && s[k + 2] == '\n'
  }

  /** No three newlines in a row: no more than one blank line anywhere. */
  predicate NoBlankRun(s: string) {
    forall k: nat :: k < |s| ==> !Triple(s, k)
  }

  lemma NoBlankRunAfter(p: string, r: string)
    requires forall x :: x in p ==> x != '\n'
    requires NoBlankRun(r)
    ensures NoBlankRun(p + r)
  {
    var u := p + r;
    forall k: nat
      ensures !Triple(u, k)
    {
      if k < |p| {
        assert u[k] == p[k] && p[k] in p;
      } else if k + 2 < |u| {
        assert u[k] == r[k - |p|] && u[k + 1] == r[k + 1 - |p|] && u[k + 2] == r[k + 2 - |p|];
        assert !Triple(r, k - |p|);
      }
    }
  }

  lemma NoBlankRunSlice(s: string, a: nat, b: nat, u: string)
    requires a <= b <= |s| && NoBlankRun(s) && u == s[a..b]
    ensures NoBlankRun(u)
  {
    forall k: nat
      ensures !Triple(u, k)
    {
      if k + 2 < |u| {
        assert u[k] == s[a + k] && u[k + 1] == s[a + k + 1] && u[k + 2] == s[a + k + 2];
        assert !Triple(s, a + k);
      }
    }
  }

  // `re.sub(r'\n{3,}', '\n\n', content)`

  /** The length of the run of newlines starting at `i`; the run ends there. */
  function NewlineRun(s: string, i: nat): (n: nat)
    requires i <= |s|
    ensures i + n <= |s|
    ensures i + n == |s| || s[i + n] != '\n'
    decreases |s| - i
  {
    if i < |s| && s[i] == '\n' then 1 + NewlineRun(s, i + 1) else 0
  }

  lemma {:induction false} NewlineRunAll(s: string, i: nat)
    requires i <= |s|
    ensures forall p :: i <= p < i + NewlineRun(s, i) ==> s[p] == '\n'
    decreases |s| - i
  {
    if i < |s| && s[i] == '\n' {
      NewlineRunAll(s, i + 1);
    }
  }

  /** Where the collapse resumes after `i`: past the whole run of newlines starting there, if any. */
  function CollapseNext(s: string, i: nat): (n: nat)
    requires i < |s|
    ensures i < n <= |s|
  {
    if s[i] == '\n' then i + NewlineRun(s, i) else i + 1
  }

  /** What the collapse emits at `i`: a run of three or more newlines as two, a shorter run or a character as it is. */
  function CollapsePiece(s: string, i: nat): string
    requires i < |s|
  {
    if s[i] == '\n' then
      var r := NewlineRun(s, i);
      if r >= 3 then "\n\n" else s[i..i + r]
    else [s[i]]
  }

  function CollapseFrom(s: string, i: nat): string
    decreases |s| - i
  {
    if i >= |s| then [] else CollapsePiece(s, i) + CollapseFrom(s, CollapseNext(s, i))
  }

  function CollapseNewlines(s: string): string {
    CollapseFrom(s, 0)
  }

  lemma CollapseFirst(s: string, i: nat)
    requires i < |s|
    ensures CollapseFrom(s, i) != [] && CollapseFrom(s, i)[0] == s[i]
  {
    var p := CollapsePiece(s, i);
    assert p != [] && p[0] == s[i];
  }

  /** After the collapse no three newlines follow each other. */
  lemma {:induction false} CollapseNoBlankRun(s: string, i: nat)
    ensures NoBlankRun(CollapseFrom(s, i))
    decreases |s| - i
  {
    if i < |s| {
      var p := CollapsePiece(s, i);
      var n := CollapseNext(s, i);
      var r := CollapseFrom(s, n);
      CollapseNoBlankRun(s, n);
      if s[i] == '\n' {
        if n < |s| {
          CollapseFirst(s, n);
        }
        BlankRunJoin(p, r);
      } else {
        NoBlankRunAfter(p, r);
      }
    }
  }

  /** A run of at most two newlines before text that does not open with a newline makes no run of three. */
  lemma BlankRunJoin(p: string, r: string)
    requires |p| <= 2 && NoBlankRun(r) && (r == [] || r[0] != '\n')
    ensures NoBlankRun(p + r)
  {
    var u := p + r;
    forall k: nat
      ensures !Triple(u, k)
    {
      if k < |p| {
        if k + 2 < |u| {
          assert u[|p|] == r[0];
        }
      } else if k + 2 < |u| {
        assert u[k] == r[k - |p|] && u[k + 1] == r[k + 1 - |p|] && u[k + 2] == r[k + 2 - |p|];
        assert !Triple(r, k - |p|);
      }
    }
  }

  /** Text with no run of three newlines is left as it is. */
  lemma {:induction false} CollapseKeeps(s: string, i: nat)
    requires i <= |s| && NoBlankRun(s)
    ensures CollapseFrom(s, i) == s[i..]
    decreases |s| - i
  {
    if i < |s| {
      var n := CollapseNext(s, i);
      assert CollapsePiece(s, i) == s[i..n] by {
        if s[i] == '\n' {
          NewlineRunAll(s, i);
          if NewlineRun(s, i) >= 3 {
            assert Triple(s, i);
            assert false;
          }
        }
      }
      calc {
        CollapseFrom(s, i);
        s[i..n] + CollapseFrom(s, n);
        { CollapseKeeps(s, n); }
        s[i..n] + s[n..];
        { SliceSplit(s, i, n); }
        s[i..];
      }
    }
  }

  /** Collapsing twice is collapsing once. */
  lemma CollapseIdempotent(s: string)
    ensures CollapseNewlines(CollapseNewlines(s)) == CollapseNewlines(s)
  {
    var t := CollapseNewlines(s);
    CollapseNoBlankRun(s, 0);
    CollapseKeeps(t, 0);
  }

  /** Only newlines go: the text with its newlines removed is unchanged. */
  lemma {:induction false} CollapseKeepsText(s: string, i: nat)
    requires i <= |s|
    ensures Drop(CollapseFrom(s, i), '\n') == Drop(s[i..], '\n')
    decreases |s| - i
  {
    if i < |s| {
      var p := CollapsePiece(s, i);
      var n := CollapseNext(s, i);
      assert Drop(p, '\n') == Drop(s[i..n], '\n') by {
        if s[i] == '\n' {
          NewlineRunAll(s, i);
          DropAll(s[i..n], '\n');
          DropAll(p, '\n');
        }
      }
      calc {
        Drop(CollapseFrom(s, i), '\n');
        { DropAppend(p, CollapseFrom(s, n), '\n'); }
        Drop(p, '\n') + Drop(CollapseFrom(s, n), '\n');
        { CollapseKeepsText(s, n); }
        Drop(s[i..n], '\n') + Drop(s[n..], '\n');
        { DropAppend(s[i..n], s[n..], '\n'); SliceSplit(s, i, n); }
        Drop(s[i..], '\n');
      }
    } else {
      assert s[i..] == [];
    }
  }

  // `re.sub(r'([^\s])([🎉🔥💡📝🎯✨👍💪🚀🌟⭐])', r'\1 \2', content)`

  /** A visible character at `i` followed directly by an emoji: the pair the rewrite matches. */
  predicate EmojiPair(s: string, i: nat) {
    i + 1 < |s| && !IsSpace(s[i]) && Emoji(s[i + 1])
  }

  /** Where the rewrite resumes after `i`: a matched pair is consumed whole. */
  function EmojiNext(s: string, i: nat): (n: nat)
    requires i < |s|
    ensures i < n <= |s|
  {
    if EmojiPair(s, i) then i + 2 else i + 1
  }

  function EmojiPiece(s: string, i: nat): string
    requires i < |s|
  {
    if EmojiPair(s, i) then [s[i], ' ', s[i + 1]] else [s[i]]
  }

  function SpaceEmojiFrom(s: string, i: nat): string
    decreases |s| - i
  {
    if i >= |s| then [] else EmojiPiece(s, i) + SpaceEmojiFrom(s, EmojiNext(s, i))
  }

  function SpaceEmoji(s: string): string {
    SpaceEmojiFrom(s, 0)
  }

  /**
    Every emoji is preceded by whitespace, by another emoji or by nothing. Of a run of emoji
    written together only the first is spaced off: the rewrite consumes the pair it matches, so
    the next emoji finds its left neighbour already taken.
  */
  predicate Spaced(s: string) {
    forall k: nat :: k < |s| ==> !Bare(s, k)
  }

  /** An emoji at `k + 1` glued to a character at `k` that is neither whitespace nor an emoji. */
  predicate Bare(s: string, k: nat) {
    k + 1 < |s| && Emoji(s[k + 1]) && !IsSpace(s[k]) && !Emoji(s[k])
  }

  lemma SpacedSlice(s: string, a: nat, b: nat, u: string)
    requires a <= b <= |s| && Spaced(s) && u == s[a..b]
    ensures Spaced(u)
  {
    forall k: nat
      ensures !Bare(u, k)
    {
      if k + 1 < |u| {
        assert u[k] == s[a + k] && u[k + 1] == s[a + k + 1];
        assert !Bare(s, a + k);
      }
    }
  }

  lemma SpacedJoin(p: string, r: string)
    requires Spaced(p) && Spaced(r)
    requires p != [] && r != [] && Emoji(r[0]) ==> IsSpace(p[|p| - 1]) || Emoji(p[|p| - 1])
    ensures Spaced(p + r)
  {
    var u := p + r;
    forall k: nat
      ensures !Bare(u, k)
    {
      if k + 1 < |p| {
        assert u[k] == p[k] && u[k + 1] == p[k + 1];
        assert !Bare(p, k);
      } else if k + 1 == |p| {
        if r != [] {
          assert u[k] == p[|p| - 1] && u[k + 1] == r[0];
        }
      } else if k + 1 < |u| {
        assert u[k] == r[k - |p|] && u[k + 1] == r[k + 1 - |p|];
        assert !Bare(r, k - |p|);
      }
    }
  }

  lemma SpaceEmojiFirst(s: string, i: nat)
    requires i < |s|
    ensures SpaceEmojiFrom(s, i) != [] && SpaceEmojiFrom(s, i)[0] == s[i]
  {
    var p := EmojiPiece(s, i);
    assert p != [] && p[0] == s[i];
  }

  lemma PieceSpaced(s: string, i: nat)
    requires i < |s|
    ensures Spaced(EmojiPiece(s, i))
  {
    var p := EmojiPiece(s, i);
    if EmojiPair(s, i) {
      assert IsSpace(p[1]) && !Emoji(p[1]);
      assert !Bare(p, 0) && !Bare(p, 1);
    }
  }

  /** After the rewrite every emoji has whitespace, another emoji or nothing before it. */
  lemma {:induction false} SpaceEmojiSpaced(s: string, i: nat)
    ensures Spaced(SpaceEmojiFrom(s, i))
    decreases |s| - i
  {
    if i < |s| {
      var p := EmojiPiece(s, i);
      var n := EmojiNext(s, i);
      SpaceEmojiSpaced(s, n);
      PieceSpaced(s, i);
      if n < |s| {
        SpaceEmojiFirst(s, n);
      }
      SpacedJoin(p, SpaceEmojiFrom(s, n));
    }
  }

  /** Only spaces are added: the text with its spaces removed is unchanged. */
  lemma {:induction false} SpaceEmojiOnlySpaces(s: string, i: nat)
    requires i <= |s|
    ensures Drop(SpaceEmojiFrom(s, i), ' ') == Drop(s[i..], ' ')
    decreases |s| - i
  {
    if i < |s| {
      var p := EmojiPiece(s, i);
      var n := EmojiNext(s, i);
      assert Drop(p, ' ') == Drop(s[i..n], ' ') by {
        if EmojiPair(s, i) {
          assert p == [s[i]] + ([' '] + [s[i + 1]]);
          assert s[i..n] == [s[i]] + [s[i + 1]];
          DropAppend([s[i]], [' '] + [s[i + 1]], ' ');
          DropAppend([' '], [s[i + 1]], ' ');
          DropAppend([s[i]], [s[i + 1]], ' ');
        } else {
          assert s[i..n] == p;
        }
      }
      calc {
        Drop(SpaceEmojiFrom(s, i), ' ');
        { DropAppend(p, SpaceEmojiFrom(s, n), ' '); }
        Drop(p, ' ') + Drop(SpaceEmojiFrom(s, n), ' ');
        { SpaceEmojiOnlySpaces(s, n); }
        Drop(s[i..n], ' ') + Drop(s[n..], ' ');
        { DropAppend(s[i..n], s[n..], ' '); SliceSplit(s, i, n); }
        Drop(s[i..], ' ');
      }
    } else {
      assert s[i..] == [];
    }
  }

  lemma NoBlankRunCons(c: char, r: string)
    requires NoBlankRun(r)
    requires !(c == '\n' && |r| >= 2 && r[0] == '\n' && r[1] == '\n')
    ensures NoBlankRun([c] + r)
  {
    var u := [c] + r;
    forall k: nat
      ensures !Triple(u, k)
    {
      if k > 0 && k + 2 < |u| {
        assert u[k] == r[k - 1] && u[k + 1] == r[k] && u[k + 2] == r[k + 1];
        assert !Triple(r, k - 1);
      }
    }
  }

  /** The added spaces never make a run of three newlines. */
  lemma {:induction false} SpaceEmojiNoBlankRun(s: string, i: nat)
    requires NoBlankRun(s)
    ensures NoBlankRun(SpaceEmojiFrom(s, i))
    decreases |s| - i
  {
    if i < |s| {
      var p := EmojiPiece(s, i);
      var n := EmojiNext(s, i);
      var r := SpaceEmojiFrom(s, n);
      SpaceEmojiNoBlankRun(s, n);
      if EmojiPair(s, i) || s[i] != '\n' {
        assert forall x :: x in p ==> x != '\n';
        NoBlankRunAfter(p, r);
      } else if n < |s| && s[n] == '\n' {
        NoThirdBreak(s, i);
        NoBlankRunCons(s[i], r);
      } else {
        if n < |s| {
          SpaceEmojiFirst(s, n);
        }
        NoBlankRunCons(s[i], r);
      }
    }
  }

  /** Where two newlines meet, the rewrite of the second one does not start another pair of newlines. */
  lemma NoThirdBreak(s: string, i: nat)
    requires NoBlankRun(s) && i + 1 < |s| && s[i] == '\n' && s[i + 1] == '\n'
    ensures var r := SpaceEmojiFrom(s, i + 1); !(|r| >= 2 && r[0] == '\n' && r[1] == '\n')
  {
    var r := SpaceEmojiFrom(s, i + 1);
    var r2 := SpaceEmojiFrom(s, i + 2);
    assert r == [s[i + 1]] + r2;
    if i + 2 < |s| {
      SpaceEmojiFirst(s, i + 2);
      assert r[1] == s[i + 2];
      assert !Triple(s, i);
    }
  }

  /** Text without emoji is left as it is. */
  lemma {:induction false} SpaceEmojiPlain(s: string, i: nat)
    requires i <= |s|
    requires forall x :: x in s ==> !Emoji(x)
    ensures SpaceEmojiFrom(s, i) == s[i..]
    decreases |s| - i
  {
    if i < |s| {
      if i + 1 < |s| {
        assert !Emoji(s[i + 1]);
      }
      calc {
        SpaceEmojiFrom(s, i);
        [s[i]] + SpaceEmojiFrom(s, i + 1);
        { SpaceEmojiPlain(s, i + 1); }
        [s[i]] + s[i + 1..];
        s[i..];
      }
    }
  }

  /** `_enhance_markdown_formatting(content)` */
  function Enhance(content: string): string {
    Strip(SpaceEmoji(CollapseNewlines(content)))
  }

  /** Stripping only cuts whitespace off the ends, so it keeps both shapes. */
  lemma StripNoBlankRun(t: string)
    requires NoBlankRun(t)
    ensures NoBlankRun(Strip(t))
  {
    var a := StripOffset(t);
    var u := Strip(t);
    assert a + |u| <= |t| && u == t[a..a + |u|] by {
      StripIsSlice(t);
    }
    NoBlankRunSlice(t, a, a + |u|, u);
  }

  lemma StripSpaced(t: string)
    requires Spaced(t)
    ensures Spaced(Strip(t))
  {
    var a := StripOffset(t);
    var u := Strip(t);
    assert a + |u| <= |t| && u == t[a..a + |u|] by {
      StripIsSlice(t);
    }
    SpacedSlice(t, a, a + |u|, u);
  }

  /** The enhanced text is stripped, holds no run of three newlines, and has every emoji spaced off. */
  lemma EnhanceShape(content: string)
    ensures var e := Enhance(content); Trimmed(e) && NoBlankRun(e) && Spaced(e)
  {
    var c := CollapseNewlines(content);
    CollapseNoBlankRun(content, 0);
    SpaceEmojiNoBlankRun(c, 0);
    SpaceEmojiSpaced(c, 0);
    StripNoBlankRun(SpaceEmoji(c));
    StripSpaced(SpaceEmoji(c));
  }

  /** Stripped text without emoji and without a run of three newlines is already enhanced. */
  lemma EnhanceKeeps(content: string)
    requires Trimmed(content) && NoBlankRun(content)
    requires forall x :: x in content ==> !Emoji(x)
    ensures Enhance(content) == content
  {
    CollapseKeeps(content, 0);
    assert content[0..] == content;
    SpaceEmojiPlain(content, 0);
    StripKeeps(content);
  }
}
