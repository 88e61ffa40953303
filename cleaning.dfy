/**
  Text cleaning (`ContentProcessor._clean_text`): strip, collapse every whitespace run to one
  space, delete control characters; and the length cap on the main content.
*/
module Cleaning {
  import opened PyStr

  /** The characters of `[\x00-\x08\x0b\x0c\x0e-\x1f\x7f-\x9f]`. */
  predicate IsControl(c: char) {
    c <= '\U{8}' || c == '\U{B}' || c == '\U{C}' || ('\U{E}' <= c <= '\U{1F}') || ('\U{7F}' <= c <= '\U{9F}')
  }

  /** Every whitespace character is a plain space and no two whitespace characters are adjacent. */
  predicate SingleSpaced(s: string)
    decreases |s|
  {
    s == [] || ((IsSpace(s[0]) ==> s[0] == ' ' && (|s| > 1 ==> !IsSpace(s[1]))) && SingleSpaced(s[1..]))
  }

  /** What single-spacing means position by position. */
  lemma {:induction false} SingleSpacedMeans(s: string)
    requires SingleSpaced(s)
    ensures forall i :: 0 <= i < |s| && IsSpace(s[i]) ==> s[i] == ' '
    ensures forall i :: 0 <= i < |s| - 1 && IsSpace(s[i]) ==> !IsSpace(s[i + 1])
    decreases |s|
  {
    if s != [] {
      SingleSpacedMeans(s[1..]);
      assert forall i :: 0 < i < |s| ==> s[i] == s[1..][i - 1];
    }
  }

  /** The only whitespace character of a single-spaced string is the plain space. */
  lemma {:induction false} SingleSpacedPlain(s: string)
    requires SingleSpaced(s)
    ensures forall x :: x in s && IsSpace(x) ==> x == ' '
    decreases |s|
  {
    if s != [] {
      SingleSpacedPlain(s[1..]);
      assert s == [s[0]] + s[1..];
    }
  }

  /** `re.sub(r'\s+', ' ', s)` */
  function CollapseSpaces(s: string): (r: string)
    ensures |r| <= |s|
    decreases |s|
  {
    if s == [] then []
    else if IsSpace(s[0]) then " " + CollapseSpaces(LStrip(s))
    else [s[0]] + CollapseSpaces(s[1..])
  }

  /** After the collapse, whitespace is single spaces only, and the first character is whitespace exactly when it was before. */
  lemma {:induction false} CollapseSingle(s: string)
    ensures SingleSpaced(CollapseSpaces(s))
    ensures s != [] ==> CollapseSpaces(s) != [] && (IsSpace(CollapseSpaces(s)[0]) <==> IsSpace(s[0]))
    decreases |s|
  {
    if s != [] {
      var u := if IsSpace(s[0]) then LStrip(s) else s[1..];
      CollapseSingle(u);
      var c := CollapseSpaces(u);
      var r := CollapseSpaces(s);
      if IsSpace(s[0]) {
        assert r == " " + c;
        assert c != [] ==> !IsSpace(c[0]);
      } else {
        assert r == [s[0]] + c;
      }
      assert forall i :: 0 < i < |r| ==> r[i] == c[i - 1];
    }
  }

  /** The last character is whitespace after the collapse exactly when it was before. */
  lemma {:induction false} CollapseLast(s: string)
    requires s != []
    ensures CollapseSpaces(s) != []
    ensures IsSpace(CollapseSpaces(s)[|CollapseSpaces(s)| - 1]) <==> IsSpace(s[|s| - 1])
    decreases |s|
  {
    var r := CollapseSpaces(s);
    if IsSpace(s[0]) {
      var u := LStrip(s);
      assert r == " " + CollapseSpaces(u);
      if u == [] {
        LStripRemovesSpaces(s);
        assert r == " ";
        assert 0 <= |s| - 1 < |s| - |u|;
      } else {
        CollapseLast(u);
        LStripSuffix(s);
        assert r[|r| - 1] == CollapseSpaces(u)[|CollapseSpaces(u)| - 1];
        assert u[|u| - 1] == s[|s| - 1];
      }
    } else {
      assert r == [s[0]] + CollapseSpaces(s[1..]);
      if |s| > 1 {
        CollapseLast(s[1..]);
        assert s[1..][|s| - 2] == s[|s| - 1];
      }
    }
  }

  /** Every character the collapse leaves that is not whitespace comes from the input. */
  lemma {:induction false} CollapseChars(s: string)
    ensures forall x :: x in CollapseSpaces(s) && !IsSpace(x) ==> x in s
    decreases |s|
  {
    if s != [] {
      var u := if IsSpace(s[0]) then LStrip(s) else s[1..];
      LStripSuffix(s);
      assert u == s[|s| - |u|..];
      CollapseChars(u);
      var head: string := if IsSpace(s[0]) then " " else [s[0]];
      assert CollapseSpaces(s) == head + CollapseSpaces(u);
    }
  }

  /** A single-spaced string has no run to collapse. */
  lemma {:induction false} CollapseSingleSpaced(s: string)
    requires SingleSpaced(s)
    ensures CollapseSpaces(s) == s
    decreases |s|
  {
    if s != [] {
      assert SingleSpaced(s[1..]);
      CollapseSingleSpaced(s[1..]);
      if IsSpace(s[0]) {
        assert |s| > 1 ==> !IsSpace(s[1]);
        assert LStrip(s) == s[1..];
      }
      assert s == [s[0]] + s[1..];
    }
  }

  /** `re.sub(r'[\x00-\x08\x0b\x0c\x0e-\x1f\x7f-\x9f]', '', s)` */
  function RemoveControl(s: string): (r: string)
    ensures |r| <= |s|
  {
    if s == [] then [] else (if IsControl(s[0]) then [] else [s[0]]) + RemoveControl(s[1..])
  }

  /** The rewrite leaves no control character. */
  lemma {:induction false} RemoveControlNoControl(s: string)
    ensures forall x :: x in RemoveControl(s) ==> !IsControl(x)
  {
    if s != [] {
      RemoveControlNoControl(s[1..]);
    }
  }

  /** The rewrite keeps only characters of its input. */
  lemma {:induction false} RemoveControlChars(s: string)
    ensures forall x :: x in RemoveControl(s) ==> x in s
  {
    if s != [] {
      RemoveControlChars(s[1..]);
      assert forall x :: x in s[1..] ==> x in s;
    }
  }

  /** A string without control characters is left as it is. */
  lemma {:induction false} RemoveControlKeeps(s: string)
    requires forall x :: x in s ==> !IsControl(x)
    ensures RemoveControl(s) == s
  {
    if s != [] {
      assert forall x :: x in s[1..] ==> x in s;
      RemoveControlKeeps(s[1..]);
      assert s == [s[0]] + s[1..];
    }
  }

  /** `_clean_text(text)` */
  function CleanText(text: string): (r: string)
    ensures text == [] ==> r == []
    ensures |r| <= |text|
  {
    if text == [] then "" else RemoveControl(CollapseSpaces(Strip(text)))
  }

  /** The cleaned text holds no control character of the class. */
  lemma CleanTextNoControl(text: string)
    ensures forall x :: x in CleanText(text) ==> !IsControl(x)
  {
    if text != [] {
      RemoveControlNoControl(CollapseSpaces(Strip(text)));
    }
  }

  /** The only whitespace the cleaned text keeps is the plain space: no tab, newline or carriage return survives. */
  lemma CleanTextPlainSpaces(text: string)
    ensures forall x :: x in CleanText(text) && IsSpace(x) ==> x == ' '
    ensures '\t' !in CleanText(text) && '\n' !in CleanText(text) && '\r' !in CleanText(text)
  {
    var r := CleanText(text);
    if text != [] {
      var c := CollapseSpaces(Strip(text));
      CollapseSingle(Strip(text));
      SingleSpacedPlain(c);
      RemoveControlChars(c);
      assert forall x :: x in r ==> x in c;
    }
    PlainSpacesNoBreaks(r);
  }

  /** Text whose only whitespace is the plain space holds no tab, newline or carriage return. */
  lemma PlainSpacesNoBreaks(r: string)
    requires forall x :: x in r && IsSpace(x) ==> x == ' '
    ensures '\t' !in r && '\n' !in r && '\r' !in r
  {
    assert IsSpace('\t') && IsSpace('\n') && IsSpace('\r');
  }

  /** A control character that is not whitespace; only these survive the collapse into the second rewrite. */
  predicate IsBareControl(c: char) {
    IsControl(c) && !IsSpace(c)
  }

  /** Without bare control characters in the input, the collapsed text has no control character left to delete. */
  lemma CollapseNoControl(t: string)
    requires forall x :: x in t ==> !IsBareControl(x)
    ensures forall x :: x in CollapseSpaces(t) ==> !IsControl(x)
  {
    var c := CollapseSpaces(t);
    CollapseSingle(t);
    SingleSpacedPlain(c);
    CollapseChars(t);
  }

  /** Without bare control characters, the deletion of control characters changes nothing. */
  lemma CleanTextIsCollapse(text: string)
    requires forall x :: x in text ==> !IsBareControl(x)
    ensures CleanText(text) == CollapseSpaces(Strip(text))
  {
    if text != [] {
      var t := Strip(text);
      StripChars(text);
      assert forall x :: x in t ==> !IsBareControl(x);
      CollapseNoControl(t);
      RemoveControlKeeps(CollapseSpaces(t));
    }
  }

  /** Collapsing a text with no space at either end keeps it so, and leaves it single-spaced. */
  lemma CollapseTrimmed(t: string)
    requires Trimmed(t)
    ensures SingleSpaced(CollapseSpaces(t))
    ensures Trimmed(CollapseSpaces(t))
  {
    CollapseSingle(t);
    if t != [] {
      CollapseLast(t);
    }
  }

  /** Collapsing the stripped text leaves it single-spaced, with no space at either end. */
  lemma CollapseStrippedNormal(text: string)
    ensures SingleSpaced(CollapseSpaces(Strip(text)))
    ensures Trimmed(CollapseSpaces(Strip(text)))
  {
    CollapseTrimmed(Strip(text));
  }

  /** Without bare control characters, the result is single-spaced and has no space at either end. */
  lemma CleanTextNormalForm(text: string)
    requires forall x :: x in text ==> !IsBareControl(x)
    ensures SingleSpaced(CleanText(text))
    ensures Trimmed(CleanText(text))
  {
    CleanTextIsCollapse(text);
    CollapseStrippedNormal(text);
  }

  /** A single-spaced string without control characters and without spaces at its ends is already clean. */
  lemma CleanTextFixpoint(s: string)
    requires SingleSpaced(s)
    requires forall x :: x in s ==> !IsControl(x)
    requires Trimmed(s)
    ensures CleanText(s) == s
  {
    if s != [] {
      StripKeeps(s);
      CollapseSingleSpaced(s);
      RemoveControlKeeps(s);
    }
  }

  /** Cleaning twice is cleaning once, for a text without bare control characters. */
  lemma CleanTextIdempotent(text: string)
    requires forall x :: x in text ==> !IsBareControl(x)
    ensures CleanText(CleanText(text)) == CleanText(text)
  {
    CleanTextNormalForm(text);
    CleanTextNoControl(text);
    CleanTextFixpoint(CleanText(text));
  }

  lemma SampleIsSingleSpaced(s: string)
    requires s == "a \U{1} b"
    ensures CollapseSpaces(Strip(s)) == s
  {
    assert !IsSpace(s[0]) && !IsSpace(s[4]);
    StripKeeps(s);
    assert !IsSpace(s[2]);
    assert SingleSpaced(s[4..]);
    assert SingleSpaced(s[3..]);
    assert SingleSpaced(s[2..]);
    assert SingleSpaced(s[1..]);
    assert SingleSpaced(s);
    CollapseSingleSpaced(s);
  }

  lemma SampleTailRemoveControl(t: string)
    requires t == "\U{1} b"
    ensures RemoveControl(t) == " b"
  {
    assert t[3..] == [];
    assert !IsControl(t[2]) && t[2..][1..] == t[3..];
    assert RemoveControl(t[2..]) == "b";
    assert !IsControl(t[1]) && t[1..][1..] == t[2..];
    assert RemoveControl(t[1..]) == " b";
    assert IsControl(t[0]);
  }

  lemma SampleRemoveControl(s: string)
    requires s == "a \U{1} b"
    ensures RemoveControl(s) == "a  b"
  {
    SampleTailRemoveControl(s[2..]);
    assert !IsControl(s[1]) && s[1..][1..] == s[2..];
    assert RemoveControl(s[1..]) == "  b";
    assert !IsControl(s[0]);
  }

  lemma DoubleSpaceSample(d: string)
    requires d == "a  b"
    ensures !SingleSpaced(d)
  {
    var t := d[1..];
    assert t[0] == ' ' && t[1] == ' ';
    assert IsSpace(t[0]) && IsSpace(t[1]);
    assert !SingleSpaced(t);
  }

  /** A bare control character between two spaces leaves a double space behind: `"a \x01 b"` becomes `"a  b"`. */
  lemma ControlLeavesDoubleSpace()
    ensures CleanText("a \U{1} b") == "a  b"
    ensures !SingleSpaced(CleanText("a \U{1} b"))
  {
    var s: string := "a \U{1} b";
    assert CleanText(s) == RemoveControl(CollapseSpaces(Strip(s)));
    SampleIsSingleSpaced(s);
    SampleRemoveControl(s);
    DoubleSpaceSample(CleanText(s));
  }

  /** The cap of `_extract_main_content`: `s[:max_length] + "..."` when longer than the limit, otherwise `s`. */
  function TruncateContent(s: string, maxLength: int): (r: string)
    ensures |s| <= maxLength ==> r == s
    ensures |s| > maxLength ==> r == Prefix(s, maxLength) + "..." && EndsWith(r, "...")
    ensures 0 <= maxLength < |s| ==> |r| == maxLength + 3 && r[..maxLength] == s[..maxLength]
    ensures 0 <= maxLength ==> |r| <= maxLength + 3
  {
    if |s| > maxLength then Prefix(s, maxLength) + "..." else s
  }
}
