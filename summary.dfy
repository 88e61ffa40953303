/**
  The summariser (`ContentProcessor._generate_summary`): the content is split into sentences at
  `.!?` and their full-width forms; the stripped sentences of more than ten characters are taken
  greedily, in order, each followed by an ideographic full stop, until the next one would push
  the summary over the length limit.
*/
module Summary {
  import opened PyStr

  /** The character class `[.!?。！？]` */
  const Terminators: set<char> := {'.', '!', '?', '\U{3002}', '\U{FF01}', '\U{FF1F}'}

  /** What is appended after each sentence taken: `"。"` */
  const Stop: string := "\U{3002}"

  /** Content shorter than this is its own summary. */
  const MinContentLength: int := 50

  /** The default `max_length`. */
  const DefaultMaxLength: int := 200

  /** `re.split(r'[.!?。！？]', content)` */
  function Sentences(content: string): seq<string> {
    SplitOnChars(content, Terminators)
  }

  /** The sentences the loop keeps, in order: each stripped, and only those longer than ten characters. */
  function Qualifying(ss: seq<string>): (qs: seq<string>)
    ensures |qs| <= |ss|
  {
    if ss == [] then [] else Keep(Strip(ss[0])) + Qualifying(ss[1..])
  }

  /** A stripped sentence is kept when it is longer than ten characters. */
  function Keep(st: string): (r: seq<string>)
    ensures |r| <= 1
  {
    if |st| > 10 then [st] else []
  }

  /** The sentences kept from position `i` on: sentence `i`'s choice, then the rest. */
  lemma QualifyingAt(ss: seq<string>, i: nat)
    requires i < |ss|
    ensures Qualifying(ss[i..]) == Keep(Strip(ss[i])) + Qualifying(ss[i + 1..])
  {
    assert ss[i..][0] == ss[i] && ss[i..][1..] == ss[i + 1..];
  }

  /** The greedy rule meeting one sentence's choice: a skipped sentence changes nothing, a kept one is taken or stops the loop. */
  lemma GreedyKeep(st: string, rest: seq<string>, summary: string, maxLength: int)
    ensures Greedy(Keep(st) + rest, summary, maxLength) ==
              if |st| <= 10 then Greedy(rest, summary, maxLength)
              else if |summary + st| > maxLength then summary
              else Greedy(rest, summary + st + Stop, maxLength)
  {
    if |st| > 10 {
      assert ([st] + rest)[0] == st && ([st] + rest)[1..] == rest;
    } else {
      assert Keep(st) + rest == rest;
    }
  }

  /** A sentence the summary may use: longer than ten characters and starting with a non-space. */
  predicate Usable(q: string) {
    |q| > 10 && !IsSpace(q[0])
  }

  /** Every sentence kept is usable. */
  lemma {:induction false} QualifyingShape(ss: seq<string>)
    ensures forall q :: q in Qualifying(ss) ==> Usable(q)
  {
    if ss != [] {
      QualifyingShape(ss[1..]);
      KeepUsable(Strip(ss[0]));
      assert Qualifying(ss) == Keep(Strip(ss[0])) + Qualifying(ss[1..]);
    }
  }

  /** A stripped sentence, when kept, is usable. */
  lemma KeepUsable(st: string)
    requires Trimmed(st)
    ensures forall q :: q in Keep(st) ==> Usable(q)
  {
  }

  /** The loop from the state `summary` on: take each sentence while it fits, stop at the first that does not. */
  function Greedy(qs: seq<string>, summary: string, maxLength: int): string {
    if qs == [] || |summary + qs[0]| > maxLength then summary
    else Greedy(qs[1..], summary + qs[0] + Stop, maxLength)
  }

  /** `_generate_summary(content, max_length)` */
  function SummaryOf(content: string, maxLength: int): string {
    if |content| < MinContentLength then content
    else Strip(Greedy(Qualifying(Sentences(content)), "", maxLength))
  }

  /** Sentences followed by their stops, concatenated. */
  function Joined(qs: seq<string>): string {
    if qs == [] then "" else qs[0] + Stop + Joined(qs[1..])
  }

  /**
    How many sentences the greedy rule takes when `used` characters are already in the summary:
    a reference count, independent of the string being built.
  */
  function TakeCount(qs: seq<string>, used: int, maxLength: int): (k: nat)
    ensures k <= |qs|
  {
    if qs == [] || used + |qs[0]| > maxLength then 0
    else 1 + TakeCount(qs[1..], used + |qs[0]| + 1, maxLength)
  }

  lemma JoinedCons(qs: seq<string>, j: nat)
    requires j + 1 <= |qs|
    ensures Joined(qs[..j + 1]) == qs[0] + Stop + Joined(qs[1..][..j])
  {
    assert qs[..j + 1][1..] == qs[1..][..j];
  }

  /** The loop state is always the starting state followed by the first `TakeCount` sentences. */
  lemma {:induction false} GreedyTakes(qs: seq<string>, summary: string, maxLength: int)
    ensures Greedy(qs, summary, maxLength) == summary + Joined(qs[..TakeCount(qs, |summary|, maxLength)])
  {
    if qs == [] || |summary + qs[0]| > maxLength {
      assert qs[..0] == [];
    } else {
      var next := summary + qs[0] + Stop;
      GreedyTakes(qs[1..], next, maxLength);
      JoinedCons(qs, TakeCount(qs[1..], |next|, maxLength));
    }
  }

  /**
    The greedy rule: every sentence taken fits when it is added, and when the count stops
    before the end, the next sentence does not fit.
  */
  lemma {:induction false} TakeCountRule(qs: seq<string>, used: int, maxLength: int)
    ensures forall j :: 0 <= j < TakeCount(qs, used, maxLength) ==> used + |Joined(qs[..j])| + |qs[j]| <= maxLength
    ensures TakeCount(qs, used, maxLength) < |qs| ==>
      used + |Joined(qs[..TakeCount(qs, used, maxLength)])| + |qs[TakeCount(qs, used, maxLength)]| > maxLength
  {
    var k := TakeCount(qs, used, maxLength);
    if k > 0 {
      var next := used + |qs[0]| + 1;
      TakeCountRule(qs[1..], next, maxLength);
      forall j | 0 <= j < k
        ensures used + |Joined(qs[..j])| + |qs[j]| <= maxLength
      {
        if j > 0 {
          JoinedCons(qs, j - 1);
          assert qs[j] == qs[1..][j - 1];
        }
      }
      if k < |qs| {
        JoinedCons(qs, k - 1);
        assert qs[k] == qs[1..][k - 1];
      }
    } else {
      assert qs[..0] == [];
    }
  }

  /** Starting within the limit, the sentences taken keep the summary within one character over it. */
  lemma {:induction false} TakeCountLength(qs: seq<string>, used: int, maxLength: int)
    requires used <= maxLength + 1
    ensures used + |Joined(qs[..TakeCount(qs, used, maxLength)])| <= maxLength + 1
  {
    var k := TakeCount(qs, used, maxLength);
    if k > 0 {
      TakeCountLength(qs[1..], used + |qs[0]| + 1, maxLength);
      JoinedCons(qs, k - 1);
    } else {
      assert qs[..0] == [];
    }
  }

  /** A larger limit never takes fewer sentences. */
  lemma {:induction false} TakeCountMonotone(qs: seq<string>, used: int, small: int, large: int)
    requires small <= large
    ensures TakeCount(qs, used, small) <= TakeCount(qs, used, large)
  {
    if qs != [] && used + |qs[0]| <= small {
      TakeCountMonotone(qs[1..], used + |qs[0]| + 1, small, large);
    }
  }

  /** Taking fewer sentences gives a prefix of taking more. */
  lemma {:induction false} JoinedPrefix(qs: seq<string>, a: nat, b: nat)
    requires a <= b <= |qs|
    ensures StartsWith(Joined(qs[..b]), Joined(qs[..a]))
  {
    if a == 0 {
      assert qs[..0] == [];
    } else {
      JoinedPrefix(qs[1..], a - 1, b - 1);
      JoinedCons(qs, a - 1);
      JoinedCons(qs, b - 1);
      var head := qs[0] + Stop;
      assert Joined(qs[..b]) == head + Joined(qs[1..][..b - 1]);
      assert Joined(qs[..b])[..|Joined(qs[..a])|] == head + Joined(qs[1..][..b - 1])[..|Joined(qs[1..][..a - 1])|];
    }
  }

  /** The final `strip()` changes nothing: every taken sentence starts with a non-space and a stop ends the summary. */
  lemma JoinedIsStripped(qs: seq<string>, k: nat)
    requires k <= |qs|
    requires forall q :: q in qs ==> Usable(q)
    ensures Strip(Joined(qs[..k])) == Joined(qs[..k])
  {
    var s := Joined(qs[..k]);
    if k > 0 {
      JoinedCons(qs, k - 1);
      assert qs[0] in qs && Usable(qs[0]);
      assert s[0] == qs[0][0];
      JoinedEndsWithStop(qs[..k]);
      StripKeeps(s);
    } else {
      assert qs[..0] == [];
    }
  }

  lemma {:induction false} JoinedEndsWithStop(qs: seq<string>)
    requires qs != []
    ensures Joined(qs) != [] && Joined(qs)[|Joined(qs)| - 1] == Stop[0]
  {
    if |qs| > 1 {
      JoinedEndsWithStop(qs[1..]);
    }
  }

  /** For content of at least fifty characters the summary is the first `TakeCount` qualifying sentences, each followed by a stop. */
  lemma SummaryIsJoined(content: string, maxLength: int)
    requires |content| >= MinContentLength
    ensures SummaryOf(content, maxLength) ==
      Joined(Qualifying(Sentences(content))[..TakeCount(Qualifying(Sentences(content)), 0, maxLength)])
  {
    var qs := Qualifying(Sentences(content));
    var k := TakeCount(qs, 0, maxLength);
    GreedyTakes(qs, "", maxLength);
    assert Greedy(qs, "", maxLength) == Joined(qs[..k]);
    QualifyingShape(Sentences(content));
    JoinedIsStripped(qs, k);
  }

  /**
    For content of at least fifty characters the summary is exactly the first `k` qualifying
    sentences, each followed by a stop, where `k` is fixed by the greedy rule.
  */
  lemma SummaryIsGreedyPrefix(content: string, maxLength: int)
    requires |content| >= MinContentLength
    ensures var qs := Qualifying(Sentences(content));
            var k := TakeCount(qs, 0, maxLength);
            && SummaryOf(content, maxLength) == Joined(qs[..k])
            && (forall j :: 0 <= j < k ==> |Joined(qs[..j])| + |qs[j]| <= maxLength)
            && (k < |qs| ==> |Joined(qs[..k])| + |qs[k]| > maxLength)
  {
    SummaryIsJoined(content, maxLength);
    TakeCountRule(Qualifying(Sentences(content)), 0, maxLength);
  }

  /** The summary of content of at least fifty characters is empty or at most one character over the limit. */
  lemma SummaryLength(content: string, maxLength: int)
    requires |content| >= MinContentLength
    ensures SummaryOf(content, maxLength) == [] || |SummaryOf(content, maxLength)| <= maxLength + 1
  {
    var qs := Qualifying(Sentences(content));
    SummaryIsGreedyPrefix(content, maxLength);
    if maxLength + 1 >= 0 {
      TakeCountLength(qs, 0, maxLength);
    } else {
      assert TakeCount(qs, 0, maxLength) == 0;
      assert qs[..0] == [];
    }
  }

  /** A larger limit gives a summary that extends the smaller one, so it is never shorter. */
  lemma SummaryMonotone(content: string, small: int, large: int)
    requires small <= large
    ensures StartsWith(SummaryOf(content, large), SummaryOf(content, small))
    ensures |SummaryOf(content, small)| <= |SummaryOf(content, large)|
  {
    if |content| >= MinContentLength {
      var qs := Qualifying(Sentences(content));
      SummaryIsGreedyPrefix(content, small);
      SummaryIsGreedyPrefix(content, large);
      TakeCountMonotone(qs, 0, small, large);
      JoinedPrefix(qs, TakeCount(qs, 0, small), TakeCount(qs, 0, large));
    }
  }

  /** One turn of the loop: sentence `i` is skipped, taken, or stops the loop. */
  lemma GreedyStep(ss: seq<string>, i: nat, summary: string, maxLength: int)
    requires i < |ss|
    ensures var st := Strip(ss[i]);
            Greedy(Qualifying(ss[i..]), summary, maxLength) ==
              if |st| <= 10 then Greedy(Qualifying(ss[i + 1..]), summary, maxLength)
              else if |summary + st| > maxLength then summary
              else Greedy(Qualifying(ss[i + 1..]), summary + st + Stop, maxLength)
  {
    QualifyingAt(ss, i);
    GreedyKeep(Strip(ss[i]), Qualifying(ss[i + 1..]), summary, maxLength);
  }

  /** The sentence loop of `_generate_summary`: take each qualifying sentence while it fits. */
  method TakeSentences(sentences: seq<string>, maxLength: int) returns (summary: string)
    ensures summary == Greedy(Qualifying(sentences), "", maxLength)
  {
    ghost var goal := Greedy(Qualifying(sentences), "", maxLength);
    assert sentences[0..] == sentences;
    summary := "";
    var i := 0;
    while i < |sentences|
      invariant 0 <= i <= |sentences|
      invariant Greedy(Qualifying(sentences[i..]), summary, maxLength) == goal
    {
      GreedyStep(sentences, i, summary, maxLength);
      var sentence := Strip(sentences[i]);
      if sentence != [] && |sentence| > 10 {
        if |summary + sentence| > maxLength {
          return;
        }
        summary := summary + sentence + Stop;
      }
      i := i + 1;
    }
    assert Qualifying(sentences[i..]) == [];
  }

  /** `_generate_summary(content, max_length)` */
  method GenerateSummary(content: string, maxLength: int) returns (summary: string)
    ensures summary == SummaryOf(content, maxLength)
    ensures |content| < MinContentLength ==> summary == content
  {
    if content == [] || |content| < MinContentLength {
      return content;
    }
    summary := TakeSentences(Sentences(content), maxLength);
    summary := Strip(summary);
  }
}
