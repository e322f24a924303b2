/** The alt-text escaper `escapeAlt`: six whole-string replacements applied
    in a fixed order, proved equal to a per-character rewriting and shown
    to leave no raw newline, angle bracket or unescaped square bracket. */
module Escape {
  import opened Wrappers
  import opened Replace

  /** The six replacements of `escapeAlt`, in source order. The backslash is
      doubled first so that the backslashes added by later steps are not doubled again. */
  function EscapePipeline(t: string): (r: string)
    ensures '\n' !in r && '<' !in r && '>' !in r
    ensures |r| >= |t|
    ensures NoSpecials(t) ==> r == t
  {
    var s1 := ReplaceAll(t, '\\', "\\\\");
    var s2 := ReplaceAll(s1, '\n', " ");
    var s3 := ReplaceAll(s2, '[', "\\[");
    var s4 := ReplaceAll(s3, ']', "\\]");
    var s5 := ReplaceAll(s4, '<', "&lt;");
    var r := ReplaceAll(s5, '>', "&gt;");
    assert r == LateStages(s2);
    StagesDropBreakers(s2);
    StagesPassPlain(t);
    ReplaceAllGrows(t, '\\', "\\\\");
    ReplaceAllGrows(s1, '\n', " ");
    ReplaceAllGrows(s2, '[', "\\[");
    ReplaceAllGrows(s3, ']', "\\]");
    ReplaceAllGrows(s4, '<', "&lt;");
    ReplaceAllGrows(s5, '>', "&gt;");
    r
  }

  /** The last four steps, from the `[` escape on. */
  function LateStages(s2: string): string
  {
    ReplaceAll(ReplaceAll(ReplaceAll(ReplaceAll(s2, '[', "\\["), ']', "\\]"), '<', "&lt;"), '>', "&gt;")
  }

  /** Once the newline step has run no later step brings a newline back, and
      once the `<` step has run the `>` step does not bring a `<` back. */
  lemma StagesDropBreakers(s2: string)
    requires '\n' !in s2
    ensures var r := LateStages(s2); '\n' !in r && '<' !in r && '>' !in r
  {
    var s3 := ReplaceAll(s2, '[', "\\[");
    var s4 := ReplaceAll(s3, ']', "\\]");
    var s5 := ReplaceAll(s4, '<', "&lt;");
    ReplaceAllKeepsOut(s2, '[', "\\[", '\n');
    ReplaceAllKeepsOut(s3, ']', "\\]", '\n');
    ReplaceAllKeepsOut(s4, '<', "&lt;", '\n');
    ReplaceAllKeepsOut(s5, '>', "&gt;", '\n');
    ReplaceAllKeepsOut(s5, '>', "&gt;", '<');
  }

  /** A text with none of the six characters passes every step unchanged. */
  lemma StagesPassPlain(t: string)
    ensures NoSpecials(t) ==> LateStages(ReplaceAll(ReplaceAll(t, '\\', "\\\\"), '\n', " ")) == t
  {
    if NoSpecials(t) {
      assert '\\' !in t && '\n' !in t && '[' !in t && ']' !in t && '<' !in t && '>' !in t;
    }
  }

  /** `escapeAlt(text)`: an absent or empty text short-circuits to the empty
      string; any other text goes through the six replacements. */
  function EscapeAlt(text: Option<string>): (r: string)
    ensures text == None || text == Some([]) ==> r == []
    ensures '\n' !in r && '<' !in r && '>' !in r
    ensures BracketsEscaped(r)
    ensures text.Some? ==> |r| >= |text.value|
  {
    match text
    case None => []
    case Some(t) =>
      if |t| == 0 then []
      else
        PipelineIsEscapeEach(t);
        EscapeEachBracketsEscaped(t);
        EscapeEachCounts(t);
        EscapePipeline(t)
  }

  /** Characters any of the six replacements rewrites. */
  predicate IsSpecial(c: char)
  {
    c == '\\' || c == '\n' || c == '[' || c == ']' || c == '<' || c == '>'
  }

  predicate NoSpecials(t: string)
  {
    forall i :: 0 <= i < |t| ==> !IsSpecial(t[i])
  }

  // ---------------------------------------------------------------------
  // Reference definition: one character at a time
  // ---------------------------------------------------------------------

  /** What the pipeline turns a single character into. */
  function EscapeChar(c: char): string
  {
    if c == '\\' then "\\\\"
    else if c == '\n' then " "
    else if c == '[' then "\\["
    else if c == ']' then "\\]"
    else if c == '<' then "&lt;"
    else if c == '>' then "&gt;"
    else [c]
  }

  /** The escaper as a per-character rewriting, with no order between rules. */
  function EscapeEach(t: string): string
  {
    if |t| == 0 then [] else EscapeChar(t[0]) + EscapeEach(t[1..])
  }

  lemma {:induction false} EscapeEachConcat(a: string, b: string)
    ensures EscapeEach(a + b) == EscapeEach(a) + EscapeEach(b)
  {
    if |a| == 0 {
      assert a + b == b;
    } else {
      assert (a + b)[1..] == a[1..] + b;
      EscapeEachConcat(a[1..], b);
    }
  }

  lemma EscapeEachSingle(x: char)
    ensures EscapeEach([x]) == EscapeChar(x)
  {
    assert [x][1..] == [];
  }

  lemma PipelineConcat(a: string, b: string)
    ensures EscapePipeline(a + b) == EscapePipeline(a) + EscapePipeline(b)
  {
    var a1, b1 := ReplaceAll(a, '\\', "\\\\"), ReplaceAll(b, '\\', "\\\\");
    ReplaceAllConcat(a, b, '\\', "\\\\");
    var a2, b2 := ReplaceAll(a1, '\n', " "), ReplaceAll(b1, '\n', " ");
    ReplaceAllConcat(a1, b1, '\n', " ");
    var a3, b3 := ReplaceAll(a2, '[', "\\["), ReplaceAll(b2, '[', "\\[");
    ReplaceAllConcat(a2, b2, '[', "\\[");
    var a4, b4 := ReplaceAll(a3, ']', "\\]"), ReplaceAll(b3, ']', "\\]");
    ReplaceAllConcat(a3, b3, ']', "\\]");
    var a5, b5 := ReplaceAll(a4, '<', "&lt;"), ReplaceAll(b4, '<', "&lt;");
    ReplaceAllConcat(a4, b4, '<', "&lt;");
    ReplaceAllConcat(a5, b5, '>', "&gt;");
  }

  lemma PipelineSingle(x: char)
    ensures EscapePipeline([x]) == EscapeChar(x)
  {
    if x == '\\' {
      PipelineSingleBackslash();
    } else if x == '\n' || x == '[' || x == ']' {
      PipelineSingleMiddle(x);
    } else {
      PipelineSingleLate(x);
    }
  }

  lemma PipelineSingleBackslash()
    ensures EscapePipeline("\\") == EscapeChar('\\')
  {
    ReplaceAllSingle('\\', '\\', "\\\\");
  }

  /** A newline or bracket passes the backslash step untouched, is rewritten
      by its own step, and its replacement passes the later steps untouched. */
  lemma PipelineSingleMiddle(x: char)
    requires x == '\n' || x == '[' || x == ']'
    ensures EscapePipeline([x]) == EscapeChar(x)
  {
    ReplaceAllSingle(x, '\\', "\\\\");
    ReplaceAllSingle(x, '\n', " ");
    if x != '\n' {
      ReplaceAllSingle(x, '[', "\\[");
      if x != '[' {
        ReplaceAllSingle(x, ']', "\\]");
      }
    }
  }

  lemma PipelineSingleLate(x: char)
    requires x != '\\' && x != '\n' && x != '[' && x != ']'
    ensures EscapePipeline([x]) == EscapeChar(x)
  {
    ReplaceAllSingle(x, '<', "&lt;");
    if x != '<' {
      ReplaceAllSingle(x, '>', "&gt;");
    }
  }

  /** The ordered pipeline equals the order-free per-character rewriting:
      no step rewrites what an earlier step produced. */
  lemma {:induction false} PipelineIsEscapeEach(t: string)
    ensures EscapePipeline(t) == EscapeEach(t)
  {
    if |t| == 0 {
    } else {
      assert t == [t[0]] + t[1..];
      PipelineConcat([t[0]], t[1..]);
      PipelineSingle(t[0]);
      PipelineIsEscapeEach(t[1..]);
    }
  }

  // ---------------------------------------------------------------------
  // Character accounting
  // ---------------------------------------------------------------------

  /** The counts of `OutputCounts` for a single character's escape. */
  lemma EscapeCharCounts(x: char)
    ensures OutputCounts(multiset([x]), multiset(EscapeChar(x)))
    ensures |EscapeChar(x)| == 1 + Growth(multiset([x]))
  {
    if x == '\\' || x == '[' || x == ']' {
      EscapedCharCounts(x);
    } else if x == '<' || x == '>' {
      EntityCharCounts(x);
    } else {
      PlainCharCounts(x);
    }
  }

  lemma EscapedCharCounts(x: char)
    requires x == '\\' || x == '[' || x == ']'
    ensures OutputCounts(multiset([x]), multiset(EscapeChar(x)))
    ensures |EscapeChar(x)| == 1 + Growth(multiset([x]))
  {
    assert multiset([x]) == multiset{x};
    assert EscapeChar(x) == ['\\', x];
    assert multiset(EscapeChar(x)) == multiset{'\\', x};
  }

  lemma EntityCharCounts(x: char)
    requires x == '<' || x == '>'
    ensures OutputCounts(multiset([x]), multiset(EscapeChar(x)))
    ensures |EscapeChar(x)| == 1 + Growth(multiset([x]))
  {
    var letter := if x == '<' then 'l' else 'g';
    assert multiset([x]) == multiset{x};
    assert EscapeChar(x) == ['&', letter, 't', ';'];
    assert multiset(EscapeChar(x)) == multiset{'&', letter, 't', ';'};
  }

  lemma PlainCharCounts(x: char)
    requires x != '\\' && x != '[' && x != ']' && x != '<' && x != '>'
    ensures OutputCounts(multiset([x]), multiset(EscapeChar(x)))
    ensures |EscapeChar(x)| == 1 + Growth(multiset([x]))
  {
    assert multiset([x]) == multiset{x};
    if x == '\n' {
      assert multiset(EscapeChar(x)) == multiset{' '};
    } else {
      assert EscapeChar(x) == [x];
    }
  }

  /** How the escaper's output counts relate to the input counts `m`: each
      backslash is doubled, each bracket gains a backslash, newlines become
      spaces and no raw newline or angle bracket remains. */
  ghost predicate OutputCounts(m: multiset<char>, r: multiset<char>)
  {
    && r['\\'] == 2 * m['\\'] + m['['] + m[']']
    && r['['] == m['['] && r[']'] == m[']']
    && r['\n'] == 0 && r['<'] == 0 && r['>'] == 0
    && r[' '] == m[' '] + m['\n']
  }

  /** How many characters longer than its input the escaper's output is. */
  function Growth(m: multiset<char>): nat
  {
    m['\\'] + m['['] + m[']'] + 3 * m['<'] + 3 * m['>']
  }

  /** Exact occurrence counts of the characters the escaper touches, and the
      exact output length, in terms of the input's counts. */
  lemma {:induction false} EscapeEachCounts(t: string)
    ensures OutputCounts(multiset(t), multiset(EscapeEach(t)))
    ensures |EscapeEach(t)| == |t| + Growth(multiset(t))
  {
    if |t| > 0 {
      EscapeEachCounts(t[1..]);
      EscapeCharCounts(t[0]);
      assert t == [t[0]] + t[1..];
      assert multiset(t) == multiset([t[0]]) + multiset(t[1..]);
      assert multiset(EscapeEach(t)) == multiset(EscapeChar(t[0])) + multiset(EscapeEach(t[1..]));
    }
  }

  // ---------------------------------------------------------------------
  // Every square bracket in the output is escaped
  // ---------------------------------------------------------------------

  /** The number of consecutive backslashes immediately before position `i`. */
  function RunBefore(s: string, i: nat): nat
    requires i <= |s|
  {
    if i == 0 || s[i - 1] != '\\' then 0 else 1 + RunBefore(s, i - 1)
  }

  /** Every `[` or `]` is preceded by an odd run of backslashes, so the
      last backslash of that run escapes it. */
  ghost predicate BracketsEscaped(s: string)
  {
    forall i :: 0 <= i < |s| && (s[i] == '[' || s[i] == ']') ==> RunBefore(s, i) % 2 == 1
  }

  lemma {:induction false} RunBeforePrefix(a: string, b: string, i: nat)
    requires i <= |a|
    ensures RunBefore(a + b, i) == RunBefore(a, i)
  {
    if i > 0 && a[i - 1] == '\\' {
      RunBeforePrefix(a, b, i - 1);
    }
  }

  /** Appending the escape of one character keeps every bracket escaped and
      leaves an even run of backslashes at the end. */
  lemma AppendEscapedChar(a: string, x: char)
    requires BracketsEscaped(a) && RunBefore(a, |a|) % 2 == 0
    ensures BracketsEscaped(a + EscapeChar(x))
    ensures RunBefore(a + EscapeChar(x), |a + EscapeChar(x)|) % 2 == 0
  {
    if x == '\\' || x == '[' || x == ']' {
      AppendEscapePair(a, x);
    } else {
      AppendPlain(a, EscapeChar(x));
    }
  }

  /** Appending text changes nothing about the brackets already there. */
  lemma AppendKeepsEarlierBrackets(a: string, ch: string)
    requires BracketsEscaped(a)
    ensures forall i :: 0 <= i <= |a| ==> RunBefore(a + ch, i) == RunBefore(a, i)
    ensures forall i :: 0 <= i < |a| && ((a + ch)[i] == '[' || (a + ch)[i] == ']') ==>
      RunBefore(a + ch, i) % 2 == 1
  {
    forall i | 0 <= i <= |a|
      ensures RunBefore(a + ch, i) == RunBefore(a, i)
    {
      RunBeforePrefix(a, ch, i);
    }
  }

  /** A backslash followed by a backslash or a bracket: the pair adds two to
      the trailing run, or escapes the bracket with an odd run and ends the run. */
  lemma AppendEscapePair(a: string, x: char)
    requires x == '\\' || x == '[' || x == ']'
    requires BracketsEscaped(a) && RunBefore(a, |a|) % 2 == 0
    ensures BracketsEscaped(a + EscapeChar(x))
    ensures RunBefore(a + EscapeChar(x), |a + EscapeChar(x)|) % 2 == 0
  {
    var s := a + EscapeChar(x);
    var k := RunBefore(a, |a|);
    AppendKeepsEarlierBrackets(a, EscapeChar(x));
    assert |s| == |a| + 2 && s[|a|] == '\\' && s[|a| + 1] == x;
    RunAfterPair(s, |a|, k);
    forall i | 0 <= i < |s| && (s[i] == '[' || s[i] == ']')
      ensures RunBefore(s, i) % 2 == 1
    {
      if i >= |a| {
        assert i == |a| + 1;
      }
    }
  }

  /** The run before the second character of a backslash pair is one longer
      than the run before the pair, and one longer again after a second backslash. */
  lemma RunAfterPair(s: string, n: nat, k: nat)
    requires n + 2 <= |s| && s[n] == '\\' && RunBefore(s, n) == k && k % 2 == 0
    ensures RunBefore(s, n + 1) == k + 1 && (k + 1) % 2 == 1
    ensures s[n + 1] == '\\' ==> RunBefore(s, n + 2) % 2 == 0
    ensures s[n + 1] != '\\' ==> RunBefore(s, n + 2) == 0
  {
  }

  /** Text with no backslash and no bracket adds no bracket and ends any run. */
  lemma AppendPlain(a: string, ch: string)
    requires |ch| > 0 && forall j :: 0 <= j < |ch| ==> ch[j] != '\\' && ch[j] != '[' && ch[j] != ']'
    requires BracketsEscaped(a)
    ensures BracketsEscaped(a + ch)
    ensures RunBefore(a + ch, |a + ch|) == 0
  {
    var s := a + ch;
    AppendKeepsEarlierBrackets(a, ch);
    assert s[|s| - 1] == ch[|ch| - 1];
    forall i | 0 <= i < |s| && (s[i] == '[' || s[i] == ']')
      ensures RunBefore(s, i) % 2 == 1
    {
    }
  }

  lemma {:induction false} EscapeEachBracketsEscaped(t: string)
    ensures BracketsEscaped(EscapeEach(t))
    ensures RunBefore(EscapeEach(t), |EscapeEach(t)|) % 2 == 0
    decreases |t|
  {
    if |t| > 0 {
      var n := |t| - 1;
      assert t == t[..n] + [t[n]];
      EscapeEachConcat(t[..n], [t[n]]);
      EscapeEachSingle(t[n]);
      EscapeEachBracketsEscaped(t[..n]);
      AppendEscapedChar(EscapeEach(t[..n]), t[n]);
    }
  }

  // ---------------------------------------------------------------------
  // Properties of escapeAlt
  // ---------------------------------------------------------------------

  /** The escaper works character by character, so it distributes over concatenation. */
  lemma EscapeAltConcat(a: string, b: string)
    ensures EscapeAlt(Some(a + b)) == EscapeAlt(Some(a)) + EscapeAlt(Some(b))
  {
    if |a| == 0 {
      assert a + b == b;
    } else if |b| == 0 {
      assert a + b == a;
    } else {
      PipelineConcat(a, b);
    }
  }

  /** Exact character accounting of `escapeAlt`: backslashes doubled, one
      backslash added per bracket, each newline turned into exactly one space,
      and the output longer than the input by one per backslash or bracket and
      three per angle bracket. */
  lemma EscapeAltCounts(t: string)
    ensures OutputCounts(multiset(t), multiset(EscapeAlt(Some(t))))
    ensures |EscapeAlt(Some(t))| == |t| + Growth(multiset(t))
  {
    if |t| > 0 {
      PipelineIsEscapeEach(t);
      EscapeEachCounts(t);
    }
  }

  lemma {:induction false} EscapeEachPlain(t: string)
    requires NoSpecials(t)
    ensures EscapeEach(t) == t
  {
    if |t| > 0 {
      EscapeEachPlain(t[1..]);
      assert t == [t[0]] + t[1..];
    }
  }

  /** A text is free of the six special characters exactly when none of them occurs in it. */
  lemma NoSpecialsIffCounts(t: string)
    ensures NoSpecials(t) <==>
      var m := multiset(t);
      m['\\'] == 0 && m['\n'] == 0 && m['['] == 0 && m[']'] == 0 && m['<'] == 0 && m['>'] == 0
  {
    var m := multiset(t);
    if !NoSpecials(t) {
      var i :| 0 <= i < |t| && IsSpecial(t[i]);
      assert t[i] in multiset(t);
    } else {
      forall c | IsSpecial(c)
        ensures m[c] == 0
      {
        assert c !in t;
      }
    }
  }

  /** `escapeAlt` returns its input unchanged exactly when the input holds
      none of the six special characters. */
  lemma EscapeAltFixedPoint(t: string)
    ensures EscapeAlt(Some(t)) == t <==> NoSpecials(t)
  {
    EscapeAltCounts(t);
    NoSpecialsIffCounts(t);
    if NoSpecials(t) && |t| > 0 {
      PipelineIsEscapeEach(t);
      EscapeEachPlain(t);
    }
  }

  /** Escaping twice equals escaping once exactly when the input has no
      backslash and no square bracket: those are the characters whose escape
      introduces a backslash, which a second pass doubles. Newlines and angle
      brackets alone leave an output that a second pass does not change. */
  lemma EscapeAltIdempotentIff(t: string)
    ensures EscapeAlt(Some(EscapeAlt(Some(t)))) == EscapeAlt(Some(t))
      <==> '\\' !in t && '[' !in t && ']' !in t
  {
    var r := EscapeAlt(Some(t));
    EscapeAltCounts(t);
    EscapeAltFixedPoint(r);
    NoSpecialsIffCounts(r);
    assert '\\' in t <==> multiset(t)['\\'] > 0;
    assert '[' in t <==> multiset(t)['['] > 0;
    assert ']' in t <==> multiset(t)[']'] > 0;
  }

  /** A backslash is doubled. */
  lemma EscapeAltExampleBackslash()
    ensures EscapeAlt(Some("a\\b")) == "a\\\\b"
  {
    EscapeEachExample("a\\b", "a\\\\b");
  }

  /** A newline becomes a space. */
  lemma EscapeAltExampleNewline()
    ensures EscapeAlt(Some("a\nb")) == "a b"
  {
    EscapeEachExample("a\nb", "a b");
  }

  /** A newline between two plain texts becomes a space and nothing else changes. */
  lemma NewlineBetweenPlain(head: string, tail: string)
    requires NoSpecials(head) && NoSpecials(tail)
    ensures EscapeAlt(Some(head + "\n" + tail)) == head + " " + tail
  {
    EscapeEachPlain(head);
    EscapeEachPlain(tail);
    EscapeEachSingle('\n');
    EscapeEachConcat(head, "\n");
    EscapeEachConcat(head + "\n", tail);
    PipelineIsEscapeEach(head + "\n" + tail);
  }

  /** Brackets are backslash-escaped and angle brackets become entities. */
  lemma EscapeAltExampleBrackets()
    ensures EscapeAlt(Some("[x]<y>")) == "\\[x\\]&lt;y&gt;"
  {
    EscapeEachExample("[x]<y>", "\\[x\\]&lt;y&gt;");
  }

  /** Escaping `[` twice gives a different text from escaping it once. */
  lemma EscapeAltNotIdempotent()
    ensures EscapeAlt(Some(EscapeAlt(Some("[")))) != EscapeAlt(Some("["))
  {
    EscapeAltIdempotentIff("[");
  }

  lemma EscapeEachExample(t: string, expected: string)
    requires |t| > 0 && EscapeEach(t) == expected
    ensures EscapeAlt(Some(t)) == expected
  {
    PipelineIsEscapeEach(t);
  }

  /** The same six replacements with the backslash doubling moved last. */
  function BackslashLastPipeline(t: string): string
  {
    var s1 := ReplaceAll(t, '\n', " ");
    var s2 := ReplaceAll(s1, '[', "\\[");
    var s3 := ReplaceAll(s2, ']', "\\]");
    var s4 := ReplaceAll(s3, '<', "&lt;");
    var s5 := ReplaceAll(s4, '>', "&gt;");
    ReplaceAll(s5, '\\', "\\\\")
  }

  /** Why the backslash goes first: doubling it last would also double the
      backslash that escapes a bracket, leaving the bracket unescaped. */
  lemma BackslashFirstMatters()
    ensures !BracketsEscaped(BackslashLastPipeline("["))
    ensures BracketsEscaped(EscapeAlt(Some("[")))
  {
    var out := BackslashLastPipeline("[");
    BackslashLastOnBracket();
    assert out[2] == '[';
    assert RunBefore(out, 2) == 2;
  }

  lemma BackslashLastOnBracket()
    ensures BackslashLastPipeline("[") == ['\\', '\\', '[']
  {
    var s1 := ReplaceAll("[", '\n', " ");
    assert s1 == "[";
    var escaped := ['\\', '['];
    ReplaceAllSingle('[', '[', "\\[");
    assert ReplaceAll(s1, '[', "\\[") == escaped;
    assert ReplaceAll(escaped, ']', "\\]") == escaped;
    assert ReplaceAll(escaped, '<', "&lt;") == escaped;
    assert ReplaceAll(escaped, '>', "&gt;") == escaped;
    BackslashDoubledBeforeBracket();
  }

  lemma BackslashDoubledBeforeBracket()
    ensures ReplaceAll(['\\', '['], '\\', "\\\\") == ['\\', '\\', '[']
  {
    ReplaceAllSingle('\\', '\\', "\\\\");
    ReplaceAllSingle('[', '\\', "\\\\");
    ReplaceAllConcat(['\\'], ['['], '\\', "\\\\");
    assert ['\\', '['] == ['\\'] + ['['];
  }
}
