/**
  The parts of Python's `str` that the core relies on, stated over `string` (a sequence of
  Unicode code points, one `char` each, as in Python).
*/
module PyStr {

  /** `c.isspace()`; it is also exactly what `\s` matches in a `re` pattern over `str`. */
  predicate IsSpace(c: char) {
    ('\t' <= c <= '\r') || ('\U{1C}' <= c <= '\U{1F}') || c == ' ' || c == '\U{85}' || c == '\U{A0}'
    || c == '\U{1680}' || ('\U{2000}' <= c <= '\U{200A}') || c == '\U{2028}' || c == '\U{2029}'
    || c == '\U{202F}' || c == '\U{205F}' || c == '\U{3000}'
  }

  /** `s.startswith(p)` */
  predicate StartsWith(s: string, p: string) {
    |p| <= |s| && s[..|p|] == p
  }

  /** `s.endswith(p)` */
  predicate EndsWith(s: string, p: string) {
    |p| <= |s| && s[|s| - |p|..] == p
  }

  /** `sub in s` */
  predicate Contains(s: string, sub: string)
    decreases |s|
  {
    StartsWith(s, sub) || (s != [] && Contains(s[1..], sub))
  }

  lemma ContainsSelf(s: string)
    ensures Contains(s, s)
  {
    assert s[..|s|] == s;
  }

  /** A string does not start with a prefix whose first character it does not share. */
  lemma NotStartsWith(u: string, p: string)
    requires u != [] && p != [] && u[0] != p[0]
    ensures !StartsWith(u, p)
  {
    if |p| <= |u| {
      assert u[..|p|][0] == u[0];
    }
  }

  /** Every string starts with itself followed by anything. */
  lemma StartsWithAppend(p: string, rest: string)
    ensures StartsWith(p + rest, p)
  {
    assert (p + rest)[..|p|] == p;
  }

  /** `s.lstrip()` */
  function LStrip(s: string): (r: string)
    ensures |r| <= |s|
    ensures r == [] || !IsSpace(r[0])
  {
    if s != [] && IsSpace(s[0]) then LStrip(s[1..]) else s
  }

  /** What `lstrip` keeps is a suffix of the string. */
  lemma {:induction false} LStripSuffix(s: string)
    ensures LStrip(s) == s[|s| - |LStrip(s)|..]
  {
    if s != [] && IsSpace(s[0]) {
      LStripSuffix(s[1..]);
      assert s[1..][|s| - 1 - |LStrip(s)|..] == s[|s| - |LStrip(s)|..];
    }
  }

  /** Everything `lstrip` removes is whitespace. */
  lemma {:induction false} LStripRemovesSpaces(s: string)
    ensures forall i :: 0 <= i < |s| - |LStrip(s)| ==> IsSpace(s[i])
  {
    if s != [] && IsSpace(s[0]) {
      LStripRemovesSpaces(s[1..]);
    }
  }

  /** `s.rstrip()` */
  function RStrip(s: string): (r: string)
    ensures |r| <= |s|
    ensures r == [] || !IsSpace(r[|r| - 1])
  {
    if s != [] && IsSpace(s[|s| - 1]) then RStrip(s[..|s| - 1]) else s
  }

  /** What `rstrip` keeps is a prefix of the string. */
  lemma {:induction false} RStripPrefix(s: string)
    ensures RStrip(s) == s[..|RStrip(s)|]
  {
    if s != [] && IsSpace(s[|s| - 1]) {
      RStripPrefix(s[..|s| - 1]);
      assert s[..|s| - 1][..|RStrip(s)|] == s[..|RStrip(s)|];
    }
  }

  /** Everything `rstrip` removes is whitespace. */
  lemma {:induction false} RStripRemovesSpaces(s: string)
    ensures forall i :: |RStrip(s)| <= i < |s| ==> IsSpace(s[i])
  {
    if s != [] && IsSpace(s[|s| - 1]) {
      RStripRemovesSpaces(s[..|s| - 1]);
    }
  }

  /** No whitespace at either end. */
  predicate Trimmed(s: string) {
    s == [] || (!IsSpace(s[0]) && !IsSpace(s[|s| - 1]))
  }

  /** `s.strip()` */
  function Strip(s: string): (r: string)
    ensures |r| <= |s|
    ensures Trimmed(r)
  {
    var t := LStrip(s);
    RStripPrefix(t);
    RStrip(t)
  }

  /** Where the slice kept by `Strip` starts. */
  function StripOffset(s: string): (k: nat)
    ensures k <= |s|
  {
    |s| - |LStrip(s)|
  }

  /**
    `s.strip()` is the slice of `s` left once the whitespace at both ends is gone: it is empty
    exactly when `s` is all whitespace, and everything outside it is whitespace.
  */
  lemma StripSlice(s: string)
    ensures StripOffset(s) + |Strip(s)| <= |s|
    ensures Strip(s) == s[StripOffset(s)..StripOffset(s) + |Strip(s)|]
    ensures forall i :: 0 <= i < StripOffset(s) ==> IsSpace(s[i])
    ensures forall i :: StripOffset(s) + |Strip(s)| <= i < |s| ==> IsSpace(s[i])
    ensures Strip(s) == [] <==> forall i :: 0 <= i < |s| ==> IsSpace(s[i])
  {
    StripIsSlice(s);
    LStripRemovesSpaces(s);
    StripTail(s);
    StripEmpty(s);
  }

  lemma StripIsSlice(s: string)
    ensures StripOffset(s) + |Strip(s)| <= |s|
    ensures Strip(s) == s[StripOffset(s)..StripOffset(s) + |Strip(s)|]
  {
    var t := LStrip(s);
    var k := StripOffset(s);
    var n := |Strip(s)|;
    LStripSuffix(s);
    RStripPrefix(t);
    assert t == s[k..];
    assert Strip(s) == t[..n];
    assert t[..n] == s[k..k + n];
  }

  lemma StripTail(s: string)
    ensures forall i :: StripOffset(s) + |Strip(s)| <= i < |s| ==> IsSpace(s[i])
  {
    var t := LStrip(s);
    var k := StripOffset(s);
    var n := |Strip(s)|;
    assert n == |RStrip(t)|;
    LStripSuffix(s);
    assert t == s[k..];
    RStripRemovesSpaces(t);
    forall i | k + n <= i < |s|
      ensures IsSpace(s[i])
    {
      assert IsSpace(t[i - k]);
    }
  }

  lemma StripEmpty(s: string)
    ensures Strip(s) == [] <==> forall i :: 0 <= i < |s| ==> IsSpace(s[i])
  {
    var t := LStrip(s);
    if t == [] {
      LStripRemovesSpaces(s);
    } else {
      RStripRemovesSpaces(t);
      LStripSuffix(s);
      assert !IsSpace(s[|s| - |t|]) by {
        assert s[|s| - |t|] == t[0];
      }
    }
  }

  /** `lstrip` keeps only characters of its input. */
  lemma {:induction false} LStripChars(s: string)
    ensures forall x :: x in LStrip(s) ==> x in s
  {
    if s != [] && IsSpace(s[0]) {
      LStripChars(s[1..]);
      assert forall x :: x in s[1..] ==> x in s;
    }
  }

  /** `rstrip` keeps only characters of its input. */
  lemma {:induction false} RStripChars(s: string)
    ensures forall x :: x in RStrip(s) ==> x in s
  {
    if s != [] && IsSpace(s[|s| - 1]) {
      RStripChars(s[..|s| - 1]);
      assert forall x :: x in s[..|s| - 1] ==> x in s;
    }
  }

  /** `strip` keeps only characters of its input. */
  lemma StripChars(s: string)
    ensures forall x :: x in Strip(s) ==> x in s
  {
    LStripChars(s);
    RStripChars(LStrip(s));
  }

  /** A string with no whitespace at either end is its own strip. */
  lemma StripKeeps(s: string)
    requires Trimmed(s)
    ensures Strip(s) == s
  {
  }

  /** `sep.join(parts)` */
  function Join(sep: string, parts: seq<string>): string {
    if |parts| == 0 then "" else if |parts| == 1 then parts[0] else parts[0] + sep + Join(sep, parts[1..])
  }

  lemma {:induction false} JoinSnoc(sep: string, parts: seq<string>, p: string)
    requires parts != []
    ensures Join(sep, parts + [p]) == Join(sep, parts) + sep + p
  {
    if |parts| > 1 {
      assert (parts + [p])[1..] == parts[1..] + [p];
      JoinSnoc(sep, parts[1..], p);
    }
  }

  lemma {:induction false} JoinNonEmpty(sep: string, parts: seq<string>)
    requires parts != [] && parts[0] != []
    ensures Join(sep, parts) != [] && Join(sep, parts)[0] == parts[0][0]
  {
    if |parts| > 1 {
      assert Join(sep, parts) == parts[0] + sep + Join(sep, parts[1..]);
    }
  }

  lemma {:induction false} JoinStartsWith(sep: string, parts: seq<string>)
    requires parts != []
    ensures StartsWith(Join(sep, parts), parts[0])
  {
    if |parts| > 1 {
      assert Join(sep, parts) == parts[0] + (sep + Join(sep, parts[1..]));
    }
  }

  lemma {:induction false} JoinEndsWith(sep: string, parts: seq<string>)
    requires parts != []
    ensures EndsWith(Join(sep, parts), parts[|parts| - 1])
  {
    if |parts| > 1 {
      JoinEndsWith(sep, parts[1..]);
      var rest := Join(sep, parts[1..]);
      assert Join(sep, parts) == (parts[0] + sep) + rest;
    }
  }

  /** Joining two non-empty lists puts one separator between their joins. */
  lemma {:induction false} JoinAppend(sep: string, a: seq<string>, b: seq<string>)
    requires a != [] && b != []
    ensures Join(sep, a + b) == Join(sep, a) + sep + Join(sep, b)
    decreases |a|
  {
    if |a| == 1 {
      assert a + b == [a[0]] + b;
      JoinCons(sep, a[0], b);
    } else {
      var rest := Join(sep, b);
      assert a + b == [a[0]] + (a[1..] + b);
      assert a == [a[0]] + a[1..];
      calc {
        Join(sep, a + b);
        { JoinCons(sep, a[0], a[1..] + b); }
        a[0] + sep + Join(sep, a[1..] + b);
        { JoinAppend(sep, a[1..], b); }
        a[0] + sep + (Join(sep, a[1..]) + sep + rest);
        { JoinCons(sep, a[0], a[1..]); }
        Join(sep, a) + sep + rest;
      }
    }
  }

  /** `s.split(sep)` for a non-empty separator: the pieces between leftmost, non-overlapping occurrences. */
  function Split(s: string, sep: string): (r: seq<string>)
    requires sep != []
    ensures |r| >= 1
    decreases |s|
  {
    if s == [] then [""]
    else if StartsWith(s, sep) then [""] + Split(s[|sep|..], sep)
    else var rest := Split(s[1..], sep); [[s[0]] + rest[0]] + rest[1..]
  }

  lemma JoinCons(sep: string, a: string, rest: seq<string>)
    requires rest != []
    ensures Join(sep, [a] + rest) == a + sep + Join(sep, rest)
  {
    assert ([a] + rest)[1..] == rest;
  }

  /** Prepending a character to the first piece prepends it to the joined string. */
  lemma JoinPrepend(sep: string, c: char, rest: seq<string>)
    requires rest != []
    ensures Join(sep, [[c] + rest[0]] + rest[1..]) == [c] + Join(sep, rest)
  {
    if |rest| > 1 {
      JoinCons(sep, [c] + rest[0], rest[1..]);
      JoinCons(sep, rest[0], rest[1..]);
      assert [rest[0]] + rest[1..] == rest;
    }
  }

  /** Joining the pieces with the separator gives the string back. */
  lemma {:induction false} JoinSplit(s: string, sep: string)
    requires sep != []
    ensures Join(sep, Split(s, sep)) == s
    decreases |s|
  {
    if s == [] {
    } else if StartsWith(s, sep) {
      var rest := Split(s[|sep|..], sep);
      assert Split(s, sep) == [""] + rest;
      JoinSplit(s[|sep|..], sep);
      JoinCons(sep, "", rest);
      assert s[..|sep|] == sep;
      assert s == s[..|sep|] + s[|sep|..];
    } else {
      JoinSplit(s[1..], sep);
      JoinPrepend(sep, s[0], Split(s[1..], sep));
      assert s == [s[0]] + s[1..];
    }
  }

  lemma {:induction false} SplitWithoutSeparator(p: string, sep: string)
    requires sep != [] && sep[0] !in p
    ensures Split(p, sep) == [p]
    decreases |p|
  {
    if p != [] {
      SplitWithoutSeparator(p[1..], sep);
      assert [p[0]] + p[1..] == p;
    }
  }

  lemma {:induction false} SplitAtSeparator(p: string, sep: string, rest: string)
    requires sep != [] && sep[0] !in p
    ensures Split(p + sep + rest, sep) == [p] + Split(rest, sep)
    decreases |p|
  {
    var s := p + sep + rest;
    if p == [] {
      assert s == sep + rest && StartsWith(s, sep) && s[|sep|..] == rest;
    } else {
      assert s[0] == p[0] && !StartsWith(s, sep);
      assert s[1..] == p[1..] + sep + rest;
      SplitAtSeparator(p[1..], sep, rest);
      assert [p[0]] + p[1..] == p;
    }
  }

  /** Splitting a join gives the parts back when no part holds the separator's first character. */
  lemma {:induction false} SplitJoin(sep: string, parts: seq<string>)
    requires sep != [] && parts != []
    requires forall p :: p in parts ==> sep[0] !in p
    ensures Split(Join(sep, parts), sep) == parts
  {
    assert parts[0] in parts;
    if |parts| == 1 {
      SplitWithoutSeparator(parts[0], sep);
    } else {
      assert forall p :: p in parts[1..] ==> p in parts;
      SplitJoin(sep, parts[1..]);
      SplitAtSeparator(parts[0], sep, Join(sep, parts[1..]));
      assert [parts[0]] + parts[1..] == parts;
    }
  }

  /** Every piece of a split is made of characters of the string. */
  lemma {:induction false} SplitChars(s: string, sep: string)
    requires sep != []
    ensures forall p, x :: p in Split(s, sep) && x in p ==> x in s
    decreases |s|
  {
    if s == [] {
    } else if StartsWith(s, sep) {
      SplitChars(s[|sep|..], sep);
      assert forall x :: x in s[|sep|..] ==> x in s;
    } else {
      SplitChars(s[1..], sep);
      assert forall x :: x in s[1..] ==> x in s;
      var rest := Split(s[1..], sep);
      assert forall p :: p in rest[1..] ==> p in rest;
      assert rest[0] in rest;
    }
  }

  /** Occurrences of `c` in `s`. */
  function Count(s: string, c: char): nat {
    if s == [] then 0 else (if s[0] == c then 1 else 0) + Count(s[1..], c)
  }

  /** Splitting on one character gives one piece more than it has occurrences, and no piece holds it. */
  lemma {:induction false} SplitOnChar(s: string, c: char)
    ensures |Split(s, [c])| == Count(s, c) + 1
    ensures forall p :: p in Split(s, [c]) ==> c !in p
    decreases |s|
  {
    if s != [] {
      SplitOnChar(s[1..], c);
      var rest := Split(s[1..], [c]);
      if StartsWith(s, [c]) {
        assert s[0] == c && s[1..] == s[|[c]|..];
        assert Split(s, [c]) == [""] + rest;
      } else {
        assert s[0] != c;
        assert rest[0] in rest;
        assert forall p :: p in rest[1..] ==> p in rest;
        assert Split(s, [c]) == [[s[0]] + rest[0]] + rest[1..];
      }
    }
  }

  /** How many leading characters of `s` are not whitespace. */
  function NonSpacePrefix(s: string): (n: nat)
    ensures n <= |s|
    ensures n == |s| || IsSpace(s[n])
    ensures s != [] && !IsSpace(s[0]) ==> n > 0
  {
    if s == [] || IsSpace(s[0]) then 0 else 1 + NonSpacePrefix(s[1..])
  }

  lemma {:induction false} NonSpacePrefixWord(s: string)
    ensures forall i :: 0 <= i < NonSpacePrefix(s) ==> !IsSpace(s[i])
  {
    if s != [] && !IsSpace(s[0]) {
      NonSpacePrefixWord(s[1..]);
    }
  }

  /** `s.split()`: the maximal runs of non-whitespace characters, in order. */
  function SplitWhitespace(s: string): seq<string>
    decreases |s|
  {
    var t := LStrip(s);
    if t == [] then [] else var n := NonSpacePrefix(t); [t[..n]] + SplitWhitespace(t[n..])
  }

  /** Every word of `s.split()` is non-empty and holds no whitespace. */
  lemma {:induction false} SplitWhitespaceWords(s: string)
    ensures forall k :: 0 <= k < |SplitWhitespace(s)| ==> SplitWhitespace(s)[k] != []
    ensures forall k, i :: 0 <= k < |SplitWhitespace(s)| && 0 <= i < |SplitWhitespace(s)[k]| ==> !IsSpace(SplitWhitespace(s)[k][i])
    decreases |s|
  {
    var t := LStrip(s);
    if t != [] {
      var n := NonSpacePrefix(t);
      NonSpacePrefixWord(t);
      SplitWhitespaceWords(t[n..]);
      var rest := SplitWhitespace(t[n..]);
      assert SplitWhitespace(s) == [t[..n]] + rest;
      forall k | 0 <= k < |SplitWhitespace(s)|
        ensures SplitWhitespace(s)[k] != [] && forall i :: 0 <= i < |SplitWhitespace(s)[k]| ==> !IsSpace(SplitWhitespace(s)[k][i])
      {
        if k > 0 {
          assert SplitWhitespace(s)[k] == rest[k - 1];
        }
      }
    }
  }

  /**
    The number of positions where a run of non-whitespace characters starts; `prevSpace` says
    whether the character just before `s` was whitespace (or there is none).
  */
  function RunStarts(s: string, prevSpace: bool): nat {
    if s == [] then 0 else (if prevSpace && !IsSpace(s[0]) then 1 else 0) + RunStarts(s[1..], IsSpace(s[0]))
  }

  lemma {:induction false} RunStartsSkipSpaces(s: string)
    ensures RunStarts(s, true) == RunStarts(LStrip(s), true)
  {
    if s != [] && IsSpace(s[0]) {
      RunStartsSkipSpaces(s[1..]);
    }
  }

  lemma {:induction false} RunStartsSkipWord(u: string)
    ensures RunStarts(u, false) == RunStarts(u[NonSpacePrefix(u)..], false)
  {
    if u != [] && !IsSpace(u[0]) {
      RunStartsSkipWord(u[1..]);
      assert u[1..][NonSpacePrefix(u[1..])..] == u[NonSpacePrefix(u)..];
    }
  }

  /** After whitespace, or at the start, the count does not depend on what came before. */
  lemma RunStartsAfterSpace(u: string)
    requires u == [] || IsSpace(u[0])
    ensures RunStarts(u, false) == RunStarts(u, true)
  {
  }

  /** `len(s.split())` counts the maximal runs of non-whitespace characters. */
  lemma {:induction false} WordCountIsRunCount(s: string)
    ensures |SplitWhitespace(s)| == RunStarts(s, true)
    decreases |s|
  {
    RunStartsSkipSpaces(s);
    var t := LStrip(s);
    if t != [] {
      var n := NonSpacePrefix(t);
      var rest := t[n..];
      assert SplitWhitespace(s) == [t[..n]] + SplitWhitespace(rest);
      WordCountIsRunCount(rest);
      assert RunStarts(t, true) == 1 + RunStarts(t[1..], false);
      RunStartsSkipWord(t[1..]);
      assert NonSpacePrefix(t) == 1 + NonSpacePrefix(t[1..]);
      assert t[1..][NonSpacePrefix(t[1..])..] == rest;
      RunStartsAfterSpace(rest);
    }
  }

  /** Python's slice `s[:n]`; a negative `n` counts from the end. */
  function Prefix<T>(s: seq<T>, n: int): (r: seq<T>)
    ensures |r| <= |s| && r == s[..|r|]
    ensures 0 <= n ==> |r| == if n < |s| then n else |s|
  {
    if 0 <= n then (if n < |s| then s[..n] else s) else if -n < |s| then s[..|s| + n] else []
  }

  function LowerChar(c: char): char {
    if 'A' <= c <= 'Z' then (c as int + 32) as char else c
  }

  /** `s.lower()` restricted to ASCII letters. */
  function ToLower(s: string): (r: string)
    ensures |r| == |s|
    ensures forall i :: 0 <= i < |s| ==> r[i] == LowerChar(s[i])
  {
    if s == [] then [] else [LowerChar(s[0])] + ToLower(s[1..])
  }

  /** Lower-casing twice is lower-casing once. */
  lemma ToLowerIdempotent(s: string)
    ensures ToLower(ToLower(s)) == ToLower(s)
  {
    var t := ToLower(s);
    assert forall i :: 0 <= i < |t| ==> LowerChar(t[i]) == t[i];
  }

  /** `c * n` */
  function Repeat(c: char, n: nat): (r: string)
    ensures |r| == n
    ensures forall i :: 0 <= i < n ==> r[i] == c
  {
    if n == 0 then [] else [c] + Repeat(c, n - 1)
  }

  /** `s.replace(c, rep)` for a single character `c`. */
  function ReplaceChar(s: string, c: char, rep: string): string {
    if s == [] then [] else (if s[0] == c then rep else [s[0]]) + ReplaceChar(s[1..], c, rep)
  }

  /** `re.split('[...]', s)` for a character class: the pieces between single member characters. */
  function SplitOnChars(s: string, seps: set<char>): (r: seq<string>)
    ensures |r| >= 1
  {
    if s == [] then [""]
    else if s[0] in seps then [""] + SplitOnChars(s[1..], seps)
    else var rest := SplitOnChars(s[1..], seps); [[s[0]] + rest[0]] + rest[1..]
  }

  function DigitChar(d: nat): char
    requires d < 10
  {
    "0123456789"[d]
  }

  /** `str(n)` for a non-negative integer. */
  function NatToString(n: nat): string
    decreases n
  {
    if n < 10 then [DigitChar(n)] else NatToString(n / 10) + [DigitChar(n % 10)]
  }

  /** `str(i)` */
  function IntToString(i: int): string {
    if i < 0 then "-" + NatToString(-i) else NatToString(i)
  }
}
