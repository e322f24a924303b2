/** Whole-string, single-character replacement: the behaviour of
    `String.prototype.replace` with a one-character global regular expression
    and a replacement text that holds no `$` (JavaScript expands `$&`, `$$`
    and the like in a replacement; none of the escaper's replacements has one). */
module Replace {

  /** Replaces every occurrence of `c` in `s` by `rep`, scanning left to right.
      The replacement text is never rescanned. */
  function ReplaceAll(s: string, c: char, rep: string): (r: string)
    ensures c !in s ==> r == s
    ensures c !in rep ==> c !in r
  {
    if |s| == 0 then []
    else (if s[0] == c then rep else [s[0]]) + ReplaceAll(s[1..], c, rep)
  }

  /** A replacement acts on each character independently, so it distributes over concatenation. */
  lemma {:induction false} ReplaceAllConcat(a: string, b: string, c: char, rep: string)
    ensures ReplaceAll(a + b, c, rep) == ReplaceAll(a, c, rep) + ReplaceAll(b, c, rep)
  {
    if |a| == 0 {
      assert a + b == b;
    } else {
      assert (a + b)[1..] == a[1..] + b;
      ReplaceAllConcat(a[1..], b, c, rep);
    }
  }

  /** On one character the replacement either substitutes it or leaves it alone. */
  lemma ReplaceAllSingle(x: char, c: char, rep: string)
    ensures ReplaceAll([x], c, rep) == if x == c then rep else [x]
  {
    assert [x][1..] == [];
  }

  /** A replacement introduces no character that neither the text nor the replacement holds. */
  lemma {:induction false} ReplaceAllKeepsOut(s: string, c: char, rep: string, x: char)
    requires x !in s && x !in rep
    ensures x !in ReplaceAll(s, c, rep)
  {
    if |s| > 0 {
      ReplaceAllKeepsOut(s[1..], c, rep, x);
    }
  }

  /** A non-empty replacement never shortens the text. */
  lemma {:induction false} ReplaceAllGrows(s: string, c: char, rep: string)
    requires |rep| > 0
    ensures |ReplaceAll(s, c, rep)| >= |s|
  {
    if |s| > 0 {
      ReplaceAllGrows(s[1..], c, rep);
    }
  }
}
