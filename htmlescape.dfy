/** `html.escape(s)` with its default `quote=True`: five fixed character replacements. */
module HtmlEscape {
  import opened PyStr

  /** The characters `html.escape` replaces by an entity. */
  predicate Special(c: char) {
    c == '&' || c == '<' || c == '>' || c == '"' || c == '\''
  }

  /** The entity a character becomes; `&` goes first in the source so no entity is escaped twice. */
  function EscapeChar(c: char): string {
    if c == '&' then "&amp;"
    else if c == '<' then "&lt;"
    else if c == '>' then "&gt;"
    else if c == '"' then "&quot;"
    else if c == '\'' then "&#x27;"
    else [c]
  }

  function Escape(s: string): string {
    if s == [] then [] else EscapeChar(s[0]) + Escape(s[1..])
  }

  /** The inverse reading: each of the five entities back to its character, everything else kept. */
  function Unescape(s: string): string
    decreases |s|
  {
    if s == [] then []
    else if StartsWith(s, "&amp;") then "&" + Unescape(s[5..])
    else if StartsWith(s, "&lt;") then "<" + Unescape(s[4..])
    else if StartsWith(s, "&gt;") then ">" + Unescape(s[4..])
    else if StartsWith(s, "&quot;") then "\"" + Unescape(s[6..])
    else if StartsWith(s, "&#x27;") then "'" + Unescape(s[6..])
    else [s[0]] + Unescape(s[1..])
  }

  /** An entity is read back as its character. */
  lemma UnescapeEntity(c: char, t: string)
    requires Special(c)
    ensures Unescape(EscapeChar(c) + t) == [c] + Unescape(t)
  {
    var e := EscapeChar(c);
    var u := e + t;
    assert u[..|e|] == e && u[|e|..] == t;
    assert u[0] == '&';
    if c != '&' {
      assert u[1] != 'a';
      assert !StartsWith(u, "&amp;");
      if c != '<' {
        assert !StartsWith(u, "&lt;");
        if c != '>' {
          assert !StartsWith(u, "&gt;");
          if c != '"' {
            assert u[1] != 'q';
            assert !StartsWith(u, "&quot;");
          }
        }
      }
    }
  }

  /** Every other character is read back as itself. */
  lemma UnescapeOther(c: char, t: string)
    requires !Special(c)
    ensures Unescape(EscapeChar(c) + t) == [c] + Unescape(t)
  {
    var u := [c] + t;
    assert u[0] == c && u[1..] == t;
    NotStartsWith(u, "&amp;");
    NotStartsWith(u, "&lt;");
    NotStartsWith(u, "&gt;");
    NotStartsWith(u, "&quot;");
    NotStartsWith(u, "&#x27;");
  }

  /** Unescaping undoes escaping: nothing of the input is lost. */
  lemma {:induction false} EscapeRoundTrip(s: string)
    ensures Unescape(Escape(s)) == s
  {
    if s != [] {
      if Special(s[0]) {
        UnescapeEntity(s[0], Escape(s[1..]));
      } else {
        UnescapeOther(s[0], Escape(s[1..]));
      }
      EscapeRoundTrip(s[1..]);
    }
  }

  /** No `<`, `>`, `"` or `'` survives escaping. */
  lemma {:induction false} EscapeSafe(s: string)
    ensures forall x :: x in Escape(s) ==> Safe(x)
  {
    if s != [] {
      EscapeSafe(s[1..]);
      EscapeCharSafe(s[0]);
    }
  }

  /** A character escaped text may hold. */
  predicate Safe(c: char) {
    c != '<' && c != '>' && c != '"' && c != '\''
  }

  lemma EscapeCharSafe(c: char)
    ensures forall x :: x in EscapeChar(c) ==> Safe(x)
  {
    var e := EscapeChar(c);
    assert forall i :: 0 <= i < |e| ==> Safe(e[i]);
  }

  /** Text without special characters is left as it is. */
  lemma {:induction false} EscapePlain(s: string)
    requires forall x :: x in s ==> !Special(x)
    ensures Escape(s) == s
  {
    if s != [] {
      assert s[0] in s;
      assert forall x :: x in s[1..] ==> x in s;
      EscapePlain(s[1..]);
    }
  }

  /** Position `i` of `t` opens one of the five entities. */
  predicate EntityAt(t: string, i: nat)
    requires i <= |t|
  {
    var u := t[i..];
    StartsWith(u, "&amp;") || StartsWith(u, "&lt;") || StartsWith(u, "&gt;") || StartsWith(u, "&quot;") || StartsWith(u, "&#x27;")
  }

  /** Every `&` of escaped text opens an entity: no bare `&` survives. */
  lemma {:induction false} EscapeAmpersands(s: string)
    ensures forall i :: 0 <= i < |Escape(s)| && Escape(s)[i] == '&' ==> EntityAt(Escape(s), i)
  {
    if s != [] {
      var e, r := EscapeChar(s[0]), Escape(s[1..]);
      EscapeAmpersands(s[1..]);
      assert Escape(s) == e + r;
      forall i | 0 <= i < |e + r| && (e + r)[i] == '&'
        ensures EntityAt(e + r, i)
      {
        if i < |e| {
          EscapeCharAmpersand(s[0], r, i);
        } else {
          assert (e + r)[i] == r[i - |e|];
          assert (e + r)[i..] == r[i - |e|..];
        }
      }
    }
  }

  /** Inside the replacement of one character, `&` stands only at the start of an entity. */
  lemma EscapeCharAmpersand(c: char, r: string, i: nat)
    requires i < |EscapeChar(c)| && EscapeChar(c)[i] == '&'
    ensures EntityAt(EscapeChar(c) + r, i)
  {
    var e := EscapeChar(c);
    assert Special(c) && i == 0;
    StartsWithAppend(e, r);
    assert (e + r)[0..] == e + r;
  }
}
