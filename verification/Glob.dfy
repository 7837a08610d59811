/** The wildcard matcher, compared with the language its patterns denote. */
module Glob {
  import opened Strings

  /** The wildcard language: `*` stands for any text, every other character for itself. */
  ghost predicate Matches(s: string, p: string)
    decreases |p|
  {
    if p == "" then s == ""
    else if p[0] == '*' then exists k :: 0 <= k <= |s| && Matches(s[k..], p[1..])
    else s != "" && s[0] == p[0] && Matches(s[1..], p[1..])
  }

  /** What `Glob` decides. The text before the first `*` is checked but stays available to the parts
      after it. */
  ghost predicate Accepts(s: string, p: string) {
    if '*' !in p then s == p
    else
      var (lit, rest) := Cut(p, '*');
      lit <= s && Matches(s, "*" + rest)
  }

  method Glob(input: string, pattern: string) returns (ok: bool)
    ensures ok <==> Accepts(input, pattern)
  {
    if pattern == "" {
      return input == pattern;
    }
    if pattern == "*" {
      StarAcceptsAll(input);
      return true;
    }
    var parts := Split(pattern, '*');
    PartsOf(pattern);
    if |parts| == 1 {
      return input == pattern;
    }
    AcceptsByParts(input, pattern);
    var leadingGlob, trailingGlob := "*" <= pattern, HasSuffix(pattern, "*");
    if !leadingGlob && !(parts[0] <= input) {
      return false;
    }
    var found, text := SkipMiddle(input, parts);
    SkippedDecides(input, parts, 1);
    if !found {
      return false;
    }
    StarSuffix(text, parts[|parts| - 1]);
    return trailingGlob || HasSuffix(text, parts[|parts| - 1]);
  }

  /** The loop over the parts between the first and the last. */
  method SkipMiddle(input: string, parts: seq<string>) returns (found: bool, text: string)
    requires |parts| > 1
    ensures (found, text) == Skipped(input, parts, 1)
  {
    text := input;
    for i := 1 to |parts| - 1
      invariant Skipped(input, parts, 1) == Skipped(text, parts, i)
    {
      if !Contains(text, parts[i]) {
        return false, text;
      }
      var idx := Index(text, parts[i]) + |parts[i]|;
      text := text[idx..];
    }
    return true, text;
  }

  /** Each part from `i` to the last but one found leftmost, the text going on after it: whether all
      were found, and what is left. */
  function Skipped(text: string, parts: seq<string>, i: nat): (bool, string)
    requires i < |parts|
    decreases |parts| - i
  {
    if i == |parts| - 1 then (true, text)
    else if !Contains(text, parts[i]) then (false, text)
    else Skipped(text[Index(text, parts[i]) + |parts[i]|..], parts, i + 1)
  }

  /** Finding each part leftmost loses no match. */
  lemma {:induction false} SkippedDecides(text: string, parts: seq<string>, i: nat)
    requires 1 <= i < |parts| && AllFree(parts, '*')
    ensures var (found, rest) := Skipped(text, parts, i);
      Matches(text, FromPart(parts, i)) <==> found && Matches(rest, FromPart(parts, |parts| - 1))
    decreases |parts| - i
  {
    if i < |parts| - 1 {
      MiddleStep(text, parts, i);
      if Contains(text, parts[i]) {
        SkippedDecides(text[Index(text, parts[i]) + |parts[i]|..], parts, i + 1);
      }
    }
  }

  /** The pattern from the star before part `i` on. */
  function FromPart(parts: seq<string>, i: nat): string
    requires i < |parts|
  {
    "*" + Join(parts[i..], '*')
  }

  // ---------------------------------------------------------------- the parts of a pattern

  /** `Split` cuts a pattern at its stars: the first part is the leading literal, the rest joined
      again is what follows the first star. */
  lemma PartsOf(p: string)
    ensures var parts := Split(p, '*');
      && AllFree(parts, '*')
      && (|parts| == 1 <==> '*' !in p)
      && ('*' in p ==> Cut(p, '*') == (parts[0], Join(parts[1..], '*')))
  {
    JoinSplit(p, '*');
    if '*' in p {
      var (lit, rest) := Cut(p, '*');
      SplitConcat(lit, rest, '*');
      SplitFree(lit, '*');
      JoinSplit(rest, '*');
      assert Split(p, '*')[1..] == Split(rest, '*');
    } else {
      SplitFree(p, '*');
    }
  }

  function LastOf(parts: seq<string>): string
    requires parts != []
  {
    parts[|parts| - 1]
  }

  lemma StarSuffixTest(p: string)
    ensures HasSuffix(p, "*") <==> p != "" && p[|p| - 1] == '*'
  {
    if p != "" {
      assert p[|p| - 1..] == [p[|p| - 1]];
    }
  }

  /** A pattern ends with a star exactly when its last part is empty. */
  lemma {:induction false} LastPartEmpty(p: string)
    requires '*' in p
    ensures p[|p| - 1] == '*' <==> LastOf(Split(p, '*')) == ""
    decreases |p|
  {
    var (lit, rest) := Cut(p, '*');
    SplitConcat(lit, rest, '*');
    SplitFree(lit, '*');
    assert LastOf(Split(p, '*')) == LastOf(Split(rest, '*'));
    if '*' in rest {
      LastPartEmpty(rest);
      assert p[|p| - 1] == rest[|rest| - 1];
    } else {
      SplitFree(rest, '*');
      assert rest != "" ==> p[|p| - 1] == rest[|rest| - 1];
    }
  }

  /** The decision in terms of the parts. */
  lemma AcceptsByParts(s: string, p: string)
    requires |Split(p, '*')| > 1
    ensures var parts := Split(p, '*');
      && (Accepts(s, p) <==> ("*" <= p || parts[0] <= s) && Matches(s, FromPart(parts, 1)))
      && (HasSuffix(p, "*") <==> parts[|parts| - 1] == "")
  {
    PartsOf(p);
    LastPartEmpty(p);
    StarSuffixTest(p);
  }

  lemma MiddleStep(text: string, parts: seq<string>, i: nat)
    requires 1 <= i < |parts| - 1 && AllFree(parts, '*')
    ensures Matches(text, FromPart(parts, i)) <==>
            Contains(text, parts[i]) && Matches(text[Index(text, parts[i]) + |parts[i]|..], FromPart(parts, i + 1))
  {
    assert parts[i..][1..] == parts[i + 1..];
    GreedyStep(text, parts[i], Join(parts[i + 1..], '*'));
  }

  // ---------------------------------------------------------------- the language

  /** Text before a match of `*rest` can be taken by the star. */
  lemma {:induction false} StarAbsorbs(s: string, k: nat, rest: string)
    requires k <= |s| && Matches(s[k..], "*" + rest)
    ensures Matches(s, "*" + rest)
  {
    var p := "*" + rest;
    assert p[1..] == rest;
    var j :| 0 <= j <= |s[k..]| && Matches(s[k..][j..], rest);
    assert s[k..][j..] == s[k + j..];
  }

  lemma StarMatches(s: string, k: nat, rest: string)
    requires k <= |s| && Matches(s[k..], rest)
    ensures Matches(s, "*" + rest)
  {
    assert ("*" + rest)[1..] == rest;
  }

  lemma StarWitness(s: string, rest: string) returns (k: nat)
    requires Matches(s, "*" + rest)
    ensures k <= |s| && Matches(s[k..], rest)
  {
    assert ("*" + rest)[1..] == rest;
    k :| 0 <= k <= |s| && Matches(s[k..], rest);
  }

  /** A star-free text at the front of a pattern must be the front of the input. */
  lemma {:induction false} LiteralFirst(s: string, lit: string, rest: string)
    requires '*' !in lit
    ensures Matches(s, lit + rest) <==> lit <= s && Matches(s[|lit|..], rest)
  {
    if lit == "" {
      assert lit + rest == rest && s[0..] == s;
    } else {
      assert (lit + rest)[1..] == lit[1..] + rest;
      if s != "" && s[0] == lit[0] {
        LiteralFirst(s[1..], lit[1..], rest);
        assert lit <= s <==> lit[1..] <= s[1..];
        if lit <= s {
          assert s[1..][|lit[1..]|..] == s[|lit|..];
        }
      }
    }
  }

  /** The greedy choice: taking the leftmost occurrence of a middle part never loses a match. */
  lemma GreedyStep(s: string, q: string, rest: string)
    requires '*' !in q
    ensures Matches(s, "*" + (q + "*" + rest)) <==>
            Contains(s, q) && Matches(s[Index(s, q) + |q|..], "*" + rest)
  {
    if Matches(s, "*" + (q + "*" + rest)) {
      LeftmostLosesNothing(s, q, rest);
    }
    if Contains(s, q) && Matches(s[Index(s, q) + |q|..], "*" + rest) {
      MiddlePart(s, Index(s, q), q, rest);
    }
  }

  lemma LeftmostLosesNothing(s: string, q: string, rest: string)
    requires '*' !in q && Matches(s, "*" + (q + "*" + rest))
    ensures Contains(s, q) && Matches(s[Index(s, q) + |q|..], "*" + rest)
  {
    assert q + "*" + rest == q + ("*" + rest);
    var k := StarWitness(s, q + "*" + rest);
    LiteralFirst(s[k..], q, "*" + rest);
    PrefixOccurs(s, q, k);
    var i := Index(s, q);
    assert s[k..][|q|..] == s[i + |q|..][k - i..];
    StarAbsorbs(s[i + |q|..], k - i, rest);
  }

  lemma PrefixOccurs(s: string, q: string, k: nat)
    requires k <= |s| && q <= s[k..]
    ensures OccursAt(s, q, k)
  {
  }

  lemma MiddlePart(s: string, i: nat, q: string, rest: string)
    requires '*' !in q && OccursAt(s, q, i) && Matches(s[i + |q|..], "*" + rest)
    ensures Matches(s, "*" + (q + "*" + rest))
  {
    assert q + "*" + rest == q + ("*" + rest);
    assert s[i..][..|q|] == q && s[i..][|q|..] == s[i + |q|..];
    LiteralFirst(s[i..], q, "*" + rest);
    StarMatches(s, i, q + "*" + rest);
  }

  /** `*q` with star-free `q` is the suffix test. */
  lemma StarSuffix(s: string, q: string)
    requires '*' !in q
    ensures Matches(s, "*" + q) <==> HasSuffix(s, q)
  {
    assert q + "" == q;
    if Matches(s, "*" + q) {
      var k := StarWitness(s, q);
      LiteralFirst(s[k..], q, "");
    }
    if HasSuffix(s, q) {
      var k := |s| - |q|;
      LiteralFirst(s[k..], q, "");
      StarMatches(s, k, q);
    }
  }

  lemma StarAcceptsAll(s: string)
    ensures Matches(s, "*")
  {
    StarSuffix(s, "");
    assert "*" + "" == "*";
  }

  /** A star-free pattern denotes itself alone. */
  lemma {:induction false} LiteralPattern(s: string, p: string)
    requires '*' !in p
    ensures Matches(s, p) <==> s == p
  {
    LiteralFirst(s, p, "");
    assert p + "" == p;
  }

  // ---------------------------------------------------------------- the decision and the language

  /** Every text of the language is accepted. */
  lemma {:induction false} Complete(s: string, p: string)
    requires Matches(s, p)
    ensures Accepts(s, p)
  {
    if '*' !in p {
      LiteralPattern(s, p);
    } else {
      var (lit, rest) := Cut(p, '*');
      assert p == lit + ("*" + rest);
      LiteralFirst(s, lit, "*" + rest);
      StarAbsorbs(s, |lit|, rest);
    }
  }

  /** Patterns without a star, or with a leading one, are decided exactly. */
  lemma {:induction false} ExactWithoutLeadingLiteral(s: string, p: string)
    requires '*' !in p || "*" <= p
    ensures Accepts(s, p) <==> Matches(s, p)
  {
    if '*' !in p {
      LiteralPattern(s, p);
    } else {
      assert p == "*" + p[1..] && Cut(p, '*') == ("", p[1..]);
    }
  }

  /** A leading literal and a first star: the literal is a prefix test only. */
  lemma {:induction false} LeadingLiteral(s: string, lit: string, rest: string)
    requires '*' !in lit
    ensures Accepts(s, lit + "*" + rest) <==> lit <= s && Matches(s, "*" + rest)
    ensures Matches(s, lit + "*" + rest) <==> lit <= s && Matches(s[|lit|..], "*" + rest)
  {
    CutAt(lit, rest);
    LiteralStar(s, lit, rest);
  }

  lemma LiteralStar(s: string, lit: string, rest: string)
    requires '*' !in lit
    ensures Matches(s, lit + "*" + rest) <==> lit <= s && Matches(s[|lit|..], "*" + rest)
  {
    assert lit + "*" + rest == lit + ("*" + rest);
    LiteralFirst(s, lit, "*" + rest);
  }

  lemma {:induction false} CutAt(lit: string, rest: string)
    requires '*' !in lit
    ensures Cut(lit + "*" + rest, '*') == (lit, rest)
  {
    var p := lit + "*" + rest;
    if lit == "" {
      assert p == "*" + rest && p[1..] == rest;
    } else {
      CutAt(lit[1..], rest);
      assert p[1..] == lit[1..] + "*" + rest;
      assert lit == [p[0]] + lit[1..];
    }
  }

  /** One star between two literals: exact on every input long enough to hold both. */
  lemma {:induction false} SingleStar(s: string, a: string, b: string)
    requires '*' !in a && '*' !in b
    ensures Accepts(s, a + "*" + b) <==> a <= s && HasSuffix(s, b)
    ensures Matches(s, a + "*" + b) <==> Accepts(s, a + "*" + b) && |a| + |b| <= |s|
  {
    LeadingLiteral(s, a, b);
    StarSuffix(s, b);
    if a <= s {
      StarSuffix(s[|a|..], b);
      SuffixOfRest(s, |a|, b);
    }
  }

  lemma SuffixOfRest(s: string, n: nat, b: string)
    requires n <= |s|
    ensures HasSuffix(s[n..], b) <==> HasSuffix(s, b) && n + |b| <= |s|
  {
    if n + |b| <= |s| {
      assert s[n..][|s| - n - |b|..] == s[|s| - |b|..];
    }
  }

  /** A text accepted outside the language. */
  lemma AcceptsTooMuch()
    ensures Accepts("a", "a*a") && !Matches("a", "a*a")
  {
    assert "a" + "*" + "a" == "a*a";
    SingleStar("a", "a", "a");
  }

  // ---------------------------------------------------------------- repeated stars

  lemma {:induction false} DoubleStarInLanguage(s: string, x: string, y: string)
    ensures Matches(s, x + "**" + y) <==> Matches(s, x + "*" + y)
    decreases |x|
  {
    if x == "" {
      assert x + "**" + y == "*" + ("*" + y) && x + "*" + y == "*" + y;
      if Matches(s, "*" + ("*" + y)) {
        var k := StarWitness(s, "*" + y);
        StarAbsorbs(s, k, y);
      }
      if Matches(s, "*" + y) {
        assert s[0..] == s;
        StarMatches(s, 0, "*" + y);
      }
    } else {
      var p, q := x + "**" + y, x + "*" + y;
      assert p[1..] == x[1..] + "**" + y && q[1..] == x[1..] + "*" + y;
      forall k | 0 <= k <= |s|
        ensures Matches(s[k..], p[1..]) <==> Matches(s[k..], q[1..])
      {
        DoubleStarInLanguage(s[k..], x[1..], y);
      }
      assert s != "" ==> (Matches(s[1..], p[1..]) <==> Matches(s[1..], q[1..]));
    }
  }

  /** Writing a star twice never changes the decision. */
  lemma DoubleStar(s: string, x: string, y: string)
    ensures Accepts(s, x + "**" + y) <==> Accepts(s, x + "*" + y)
  {
    if '*' in x {
      var (lit, rest) := Cut(x, '*');
      assert x + "**" + y == lit + "*" + (rest + "**" + y);
      assert x + "*" + y == lit + "*" + (rest + "*" + y);
      LeadingLiteral(s, lit, rest + "**" + y);
      LeadingLiteral(s, lit, rest + "*" + y);
      assert "*" + (rest + "**" + y) == ("*" + rest) + "**" + y;
      assert "*" + (rest + "*" + y) == ("*" + rest) + "*" + y;
      DoubleStarInLanguage(s, "*" + rest, y);
    } else {
      assert x + "**" + y == x + "*" + ("*" + y);
      LeadingLiteral(s, x, "*" + y);
      LeadingLiteral(s, x, y);
      assert "*" + ("*" + y) == "" + "**" + y && "*" + y == "" + "*" + y;
      DoubleStarInLanguage(s, "", y);
    }
  }

  // ---------------------------------------------------------------- which patterns are exact

  function SkipStars(p: string): (r: string)
    ensures r != "" ==> r[0] != '*'
  {
    if p != "" && p[0] == '*' then SkipStars(p[1..]) else p
  }

  function FirstLiteral(p: string): string {
    if '*' in p then Cut(p, '*').0 else p
  }

  /** Some end of `lit` is a beginning of `q`. */
  predicate EndMeetsStart(lit: string, q: string) {
    exists k :: 1 <= k <= |lit| && k <= |q| && lit[|lit| - k..] == q[..k]
  }

  /** The first literal after the first star cannot reach back into the leading literal. */
  predicate Exact(p: string) {
    '*' in p ==>
      var (lit, rest) := Cut(p, '*');
      var r := SkipStars(rest);
      var q := FirstLiteral(r);
      !EndMeetsStart(lit, q) && ('*' in r ==> !Contains(lit, q))
  }

  /** A pattern is decided exactly on all inputs if and only if its leading literal and the next
      literal cannot overlap. */
  lemma ExactPatterns(p: string)
    ensures Exact(p) <==> forall s :: Accepts(s, p) <==> Matches(s, p)
  {
    if Exact(p) {
      forall s ensures Accepts(s, p) <==> Matches(s, p) {
        if Accepts(s, p) {
          ExactIsSound(s, p);
        }
        if Matches(s, p) {
          Complete(s, p);
        }
      }
    } else {
      var s := OverlapWitness(p);
    }
  }

  lemma {:induction false} SkipStarsSame(s: string, rest: string)
    ensures Matches(s, "*" + rest) <==> Matches(s, "*" + SkipStars(rest))
  {
    if rest != "" && rest[0] == '*' {
      assert "*" + rest == "" + "**" + rest[1..] && "*" + rest[1..] == "" + "*" + rest[1..];
      DoubleStarInLanguage(s, "", rest[1..]);
      SkipStarsSame(s, rest[1..]);
    }
  }

  lemma ExactIsSound(s: string, p: string)
    requires Exact(p) && Accepts(s, p)
    ensures Matches(s, p)
  {
    if '*' !in p {
      LiteralPattern(s, p);
    } else {
      var (lit, rest) := Cut(p, '*');
      LeadingLiteral(s, lit, rest);
      SkipStarsSame(s, rest);
      SkipStarsSame(s[|lit|..], rest);
      NoReachBack(s, lit, SkipStars(rest));
    }
  }

  lemma NoReachBack(s: string, lit: string, r: string)
    requires lit <= s && Matches(s, "*" + r)
    requires !EndMeetsStart(lit, FirstLiteral(r)) && ('*' in r ==> !Contains(lit, FirstLiteral(r)))
    ensures Matches(s[|lit|..], "*" + r)
  {
    if '*' in r {
      var (q, r2) := Cut(r, '*');
      NoReachBackMiddle(s, lit, q, r2);
    } else {
      NoReachBackEnd(s, lit, r);
    }
  }

  lemma NoReachBackMiddle(s: string, lit: string, q: string, rest: string)
    requires lit <= s && '*' !in q && Matches(s, "*" + (q + "*" + rest))
    requires !EndMeetsStart(lit, q) && !Contains(lit, q)
    ensures Matches(s[|lit|..], "*" + (q + "*" + rest))
  {
    LeftmostLosesNothing(s, q, rest);
    var i := Index(s, q);
    if i < |lit| {
      ReachesBack(s, lit, q, i);
    }
    MiddlePartAfter(s, |lit|, i, q, rest);
  }

  lemma NoReachBackEnd(s: string, lit: string, q: string)
    requires lit <= s && '*' !in q && Matches(s, "*" + q) && !EndMeetsStart(lit, q)
    ensures Matches(s[|lit|..], "*" + q)
  {
    StarSuffix(s, q);
    if |s| - |q| < |lit| && q != "" {
      SuffixReachesBack(s, lit, q);
    }
    StarSuffix(s[|lit|..], q);
    SuffixOfRest(s, |lit|, q);
  }

  lemma MiddlePartAfter(s: string, n: nat, i: nat, q: string, rest: string)
    requires '*' !in q && n <= i && OccursAt(s, q, i) && Matches(s[i + |q|..], "*" + rest)
    ensures Matches(s[n..], "*" + (q + "*" + rest))
  {
    var t := s[n..];
    assert t[i - n..i - n + |q|] == s[i..i + |q|];
    assert t[i - n + |q|..] == s[i + |q|..];
    MiddlePart(t, i - n, q, rest);
  }

  lemma ReachesBack(s: string, lit: string, q: string, i: nat)
    requires lit <= s && OccursAt(s, q, i) && i < |lit|
    ensures EndMeetsStart(lit, q) || Contains(lit, q)
  {
    if i + |q| <= |lit| {
      assert lit[i..i + |q|] == s[i..i + |q|];
      assert OccursAt(lit, q, i);
    } else {
      var k := |lit| - i;
      assert lit[|lit| - k..] == s[i..i + |q|][..k];
    }
  }

  lemma SuffixReachesBack(s: string, lit: string, q: string)
    requires lit <= s && q != "" && HasSuffix(s, q) && |s| - |q| < |lit|
    ensures EndMeetsStart(lit, q)
  {
    var i := |s| - |q|;
    var k := |lit| - i;
    assert lit[|lit| - k..] == s[i..][..k];
  }

  /** A pattern without its stars: its shortest text. */
  function Erase(p: string): string {
    if p == "" then "" else if p[0] == '*' then Erase(p[1..]) else [p[0]] + Erase(p[1..])
  }

  lemma {:induction false} EraseMatches(p: string)
    ensures Matches(Erase(p), p)
  {
    if p != "" {
      EraseMatches(p[1..]);
      if p[0] == '*' {
        assert Erase(p)[0..] == Erase(p[1..]);
      } else {
        assert Erase(p)[1..] == Erase(p[1..]);
      }
    }
  }

  lemma {:induction false} EraseShortest(s: string, p: string)
    requires Matches(s, p)
    ensures |Erase(p)| <= |s|
    decreases |p|
  {
    if p != "" {
      if p[0] == '*' {
        var k :| 0 <= k <= |s| && Matches(s[k..], p[1..]);
        EraseShortest(s[k..], p[1..]);
      } else {
        EraseShortest(s[1..], p[1..]);
      }
    }
  }

  lemma {:induction false} EraseConcat(a: string, b: string)
    ensures Erase(a + b) == Erase(a) + Erase(b)
  {
    if a == "" {
      assert a + b == b;
    } else {
      EraseConcat(a[1..], b);
      assert (a + b)[1..] == a[1..] + b && (a + b)[0] == a[0];
      assert [a[0]] + (Erase(a[1..]) + Erase(b)) == ([a[0]] + Erase(a[1..])) + Erase(b);
    }
  }

  lemma {:induction false} EraseLiteral(q: string)
    requires '*' !in q
    ensures Erase(q) == q
  {
    if q != "" {
      EraseLiteral(q[1..]);
    }
  }

  /** A text accepted outside the language, for every pattern that is not exact. */
  lemma OverlapWitness(p: string) returns (s: string)
    requires !Exact(p)
    ensures Accepts(s, p) && !Matches(s, p)
  {
    var (lit, rest) := Cut(p, '*');
    var r := SkipStars(rest);
    s := OverlapText(lit, r);
    LeadingLiteral(s, lit, rest);
    SkipStarsSame(s, rest);
    SkipStarsSame(s[|lit|..], rest);
    TooShort(s[|lit|..], r);
  }

  lemma TooShort(s: string, r: string)
    requires |s| < |Erase(r)|
    ensures !Matches(s, "*" + r)
  {
    assert ("*" + r)[1..] == r;
    if Matches(s, "*" + r) {
      EraseShortest(s, "*" + r);
      assert false;
    }
  }

  /** Too short after `lit` for all literals of `r`, yet matching `*r` as a whole. */
  lemma OverlapText(lit: string, r: string) returns (s: string)
    requires r != "" ==> r[0] != '*'
    requires EndMeetsStart(lit, FirstLiteral(r)) || ('*' in r && Contains(lit, FirstLiteral(r)))
    ensures lit <= s && Matches(s, "*" + r) && |s| - |lit| < |Erase(r)|
  {
    var q := FirstLiteral(r);
    var tail := r[|q|..];
    assert r == q + tail;
    EraseConcat(q, tail);
    EraseLiteral(q);
    if EndMeetsStart(lit, q) {
      var k :| 1 <= k <= |lit| && k <= |q| && lit[|lit| - k..] == q[..k];
      s := OverlapAtEnd(lit, q, tail, k);
    } else {
      s := lit + Erase(tail);
      assert tail == "*" + Cut(r, '*').1;
      OverlapInside(lit, q, Cut(r, '*').1);
    }
  }

  lemma OverlapAtEnd(lit: string, q: string, tail: string, k: nat) returns (s: string)
    requires 1 <= k <= |lit| && k <= |q| && lit[|lit| - k..] == q[..k]
    requires Erase(q + tail) == q + Erase(tail)
    ensures s == lit + q[k..] + Erase(tail) && lit <= s && Matches(s, "*" + (q + tail))
  {
    s := lit + q[k..] + Erase(tail);
    assert lit == lit[..|lit| - k] + q[..k];
    assert s[|lit| - k..] == q + Erase(tail);
    EraseMatches(q + tail);
    StarMatches(s, |lit| - k, q + tail);
  }

  lemma OverlapInside(lit: string, q: string, r2: string)
    requires '*' !in q && Contains(lit, q)
    ensures Matches(lit + Erase("*" + r2), "*" + (q + "*" + r2))
  {
    assert ("*" + r2)[1..] == r2;
    var s := lit + Erase(r2);
    var i := Index(lit, q);
    assert s[i..i + |q|] == lit[i..i + |q|];
    var t := s[i + |q|..];
    assert t[|lit| - i - |q|..] == Erase(r2);
    EraseMatches(r2);
    StarMatches(t, |lit| - i - |q|, r2);
    MiddlePart(s, i, q, r2);
  }
}
