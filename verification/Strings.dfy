/** The operations of Go's `strings` package that the middleware relies on, and the algebra
    relating them. A Go string of valid UTF-8 is modelled as its sequence of code points. */
module Strings {

  predicate HasSuffix(s: string, t: string) {
    |t| <= |s| && s[|s| - |t|..] == t
  }

  /** `t` occurs in `s` starting at offset `i`. */
  predicate OccursAt(s: string, t: string, i: nat) {
    i + |t| <= |s| && s[i..i + |t|] == t
  }

  /** `strings.Index`: the leftmost occurrence, or -1. */
  function Index(s: string, t: string): (i: int)
    ensures -1 <= i
    ensures i >= 0 ==> OccursAt(s, t, i)
    ensures forall j: nat :: OccursAt(s, t, j) ==> 0 <= i <= j
  {
    IndexFrom(s, t, 0)
  }

  function IndexFrom(s: string, t: string, from: nat): (i: int)
    ensures i == -1 || from <= i
    ensures i >= 0 ==> OccursAt(s, t, i)
    ensures forall j: nat :: from <= j && OccursAt(s, t, j) ==> 0 <= i <= j
    decreases |s| - from
  {
    if |s| < from + |t| then -1
    else if s[from..from + |t|] == t then from
    else if from == |s| then -1
    else IndexFrom(s, t, from + 1)
  }

  predicate Contains(s: string, t: string) {
    Index(s, t) >= 0
  }

  /** `strings.Cut` at a one-character separator that is present. */
  function Cut(s: string, c: char): (r: (string, string))
    requires c in s
    ensures s == r.0 + [c] + r.1
    ensures c !in r.0
  {
    if s[0] == c then ("", s[1..])
    else
      var (before, after) := Cut(s[1..], c);
      ([s[0]] + before, after)
  }

  /** `strings.Split` at a one-character separator; an empty input gives one empty part. */
  function Split(s: string, c: char): (parts: seq<string>)
    ensures |parts| >= 1
  {
    if s == "" then [""]
    else
      var rest := Split(s[1..], c);
      if s[0] == c then [""] + rest else Prepend(s[0], rest)
  }

  /** One more character at the front of the first part. */
  function Prepend(x: char, parts: seq<string>): (r: seq<string>)
    requires parts != []
    ensures |r| == |parts|
  {
    [[x] + parts[0]] + parts[1..]
  }

  /** One more character at the end of the last part. */
  function Append(parts: seq<string>, x: char): (r: seq<string>)
    requires parts != []
    ensures |r| == |parts|
  {
    parts[..|parts| - 1] + [parts[|parts| - 1] + [x]]
  }

  lemma PrependConcat(x: char, a: seq<string>, b: seq<string>)
    requires a != []
    ensures Prepend(x, a + b) == Prepend(x, a) + b
  {
    assert (a + b)[1..] == a[1..] + b;
  }

  lemma PrependAppend(x: char, parts: seq<string>, y: char)
    requires parts != []
    ensures Prepend(x, Append(parts, y)) == Append(Prepend(x, parts), y)
  {
    if |parts| == 1 {
      assert [x] + (parts[0] + [y]) == ([x] + parts[0]) + [y];
    } else {
      assert Append(parts, y)[1..] == Append(parts[1..], y);
      assert Prepend(x, parts)[..|parts| - 1] == [[x] + parts[0]] + parts[1..|parts| - 1];
    }
  }

  lemma AppendTail(head: string, parts: seq<string>, y: char)
    requires parts != []
    ensures [head] + Append(parts, y) == Append([head] + parts, y)
  {
    assert ([head] + parts)[..|parts|] == [head] + parts[..|parts| - 1];
  }

  /** `strings.Join` with a one-character separator. */
  function Join(parts: seq<string>, c: char): string
    requires |parts| >= 1
  {
    if |parts| == 1 then parts[0] else parts[0] + [c] + Join(parts[1..], c)
  }

  ghost predicate AllFree(parts: seq<string>, c: char) {
    forall p :: p in parts ==> c !in p
  }

  /** Splitting loses nothing, and no part keeps a separator. */
  lemma {:induction false} JoinSplit(s: string, c: char)
    ensures Join(Split(s, c), c) == s
    ensures AllFree(Split(s, c), c)
  {
    if s != "" {
      JoinSplit(s[1..], c);
      var rest := Split(s[1..], c);
      if s[0] == c {
        assert ([""] + rest)[1..] == rest;
      } else {
        assert Prepend(s[0], rest)[1..] == rest[1..];
      }
    }
  }

  lemma {:induction false} SplitFree(s: string, c: char)
    requires c !in s
    ensures Split(s, c) == [s]
  {
    if s != "" {
      SplitFree(s[1..], c);
      assert s == [s[0]] + s[1..];
    }
  }

  /** Splitting distributes over concatenation at a separator. */
  lemma {:induction false} SplitConcat(a: string, b: string, c: char)
    ensures Split(a + [c] + b, c) == Split(a, c) + Split(b, c)
  {
    var s := a + [c] + b;
    if a == "" {
      assert s[1..] == b;
    } else {
      SplitConcat(a[1..], b, c);
      assert s[1..] == a[1..] + [c] + b;
      if a[0] == c {
        assert [""] + (Split(a[1..], c) + Split(b, c)) == ([""] + Split(a[1..], c)) + Split(b, c);
      } else {
        PrependConcat(a[0], Split(a[1..], c), Split(b, c));
      }
    }
  }

  /** Separator-free parts are recovered exactly from their join. */
  lemma {:induction false} SplitJoin(parts: seq<string>, c: char)
    requires |parts| >= 1 && AllFree(parts, c)
    ensures Split(Join(parts, c), c) == parts
  {
    SplitFree(parts[0], c);
    if |parts| > 1 {
      SplitJoin(parts[1..], c);
      SplitConcat(parts[0], Join(parts[1..], c), c);
    }
  }

  /** One more character at the end only extends the last part. */
  lemma {:induction false} SplitSnoc(s: string, x: char, c: char)
    requires x != c
    ensures Split(s + [x], c) == Append(Split(s, c), x)
  {
    if s == "" {
      SplitFree([x], c);
      assert s + [x] == [x] == "" + [x];
    } else {
      SplitSnoc(s[1..], x, c);
      assert (s + [x])[1..] == s[1..] + [x];
      PrependAppend(s[0], Split(s[1..], c), x);
      AppendTail("", Split(s[1..], c), x);
    }
  }

  // ---------------------------------------------------------------- white space

  /** The Unicode White_Space characters that `strings.TrimSpace` removes. */
  predicate IsSpace(c: char) {
    var n := c as int;
    9 <= n <= 13 || n == 0x20 || n == 0x85 || n == 0xA0 || n == 0x1680 || 0x2000 <= n <= 0x200A
    || n == 0x2028 || n == 0x2029 || n == 0x202F || n == 0x205F || n == 0x3000
  }

  function TrimLeft(s: string): string {
    if s != "" && IsSpace(s[0]) then TrimLeft(s[1..]) else s
  }

  function TrimRight(s: string): string {
    if s != "" && IsSpace(s[|s| - 1]) then TrimRight(s[..|s| - 1]) else s
  }

  /** `strings.TrimSpace`. */
  function TrimSpace(s: string): string {
    TrimRight(TrimLeft(s))
  }

  lemma {:induction false} TrimLeftSnoc(s: string, x: char)
    requires IsSpace(x)
    ensures TrimLeft(s + [x]) == if TrimLeft(s) == "" then "" else TrimLeft(s) + [x]
  {
    if s == "" {
      assert ("" + [x])[1..] == "";
    } else if IsSpace(s[0]) {
      TrimLeftSnoc(s[1..], x);
      assert (s + [x])[1..] == s[1..] + [x];
    }
  }

  lemma TrimSnoc(s: string, x: char)
    requires IsSpace(x)
    ensures TrimSpace(s + [x]) == TrimSpace(s)
  {
    TrimLeftSnoc(s, x);
    var l := TrimLeft(s);
    assert (l + [x])[..|l + [x]| - 1] == l;
  }

  function TrimEach(parts: seq<string>): (r: seq<string>)
    ensures |r| == |parts|
  {
    seq(|parts|, i requires 0 <= i < |parts| => TrimSpace(parts[i]))
  }

  lemma TrimEachConcat(a: seq<string>, b: seq<string>)
    ensures TrimEach(a + b) == TrimEach(a) + TrimEach(b)
  {
  }

  /** Trimming the whole before splitting is absorbed by trimming every part. */
  lemma TrimBeforeSplit(s: string, c: char)
    requires !IsSpace(c)
    ensures TrimEach(Split(TrimSpace(s), c)) == TrimEach(Split(s, c))
  {
    TrimLeftBeforeSplit(s, c);
    TrimRightBeforeSplit(TrimLeft(s), c);
  }

  lemma {:induction false} TrimLeftBeforeSplit(s: string, c: char)
    requires !IsSpace(c)
    ensures TrimEach(Split(TrimLeft(s), c)) == TrimEach(Split(s, c))
  {
    if s != "" && IsSpace(s[0]) {
      TrimLeftBeforeSplit(s[1..], c);
      var rest := Split(s[1..], c);
      assert ([s[0]] + rest[0])[1..] == rest[0];
      assert TrimEach(Split(s, c)) == TrimEach(rest);
    }
  }

  lemma {:induction false} TrimRightBeforeSplit(s: string, c: char)
    requires !IsSpace(c)
    ensures TrimEach(Split(TrimRight(s), c)) == TrimEach(Split(s, c))
  {
    if s != "" && IsSpace(s[|s| - 1]) {
      var t, x := s[..|s| - 1], s[|s| - 1];
      TrimRightBeforeSplit(t, c);
      SplitSnoc(t, x, c);
      assert s == t + [x];
      TrimEachAppend(Split(t, c), x);
    }
  }

  lemma TrimEachAppend(parts: seq<string>, x: char)
    requires parts != [] && IsSpace(x)
    ensures TrimEach(Append(parts, x)) == TrimEach(parts)
  {
    TrimSnoc(parts[|parts| - 1], x);
  }

  lemma {:induction false} TrimLeftPart(s: string)
    ensures var l := TrimLeft(s);
      |l| <= |s| && l == s[|s| - |l|..] && (l != "" ==> !IsSpace(l[0]))
  {
    if s != "" && IsSpace(s[0]) {
      TrimLeftPart(s[1..]);
    }
  }

  lemma {:induction false} TrimRightPart(s: string)
    ensures var r := TrimRight(s);
      r <= s && (r != "" ==> !IsSpace(r[|r| - 1]))
  {
    if s != "" && IsSpace(s[|s| - 1]) {
      TrimRightPart(s[..|s| - 1]);
    }
  }

  lemma TrimTwice(s: string)
    ensures TrimSpace(TrimSpace(s)) == TrimSpace(s)
  {
    TrimLeftPart(s);
    TrimRightPart(TrimLeft(s));
  }

  predicate AllSpace(s: string) {
    forall i :: 0 <= i < |s| ==> IsSpace(s[i])
  }

  lemma {:induction false} TrimLeftSpaces(w: string, s: string)
    requires AllSpace(w)
    ensures TrimLeft(w + s) == TrimLeft(s)
  {
    if w == "" {
      assert w + s == s;
    } else {
      TrimLeftSpaces(w[1..], s);
      assert (w + s)[1..] == w[1..] + s;
    }
  }

  lemma {:induction false} TrimRightSpaces(s: string, w: string)
    requires AllSpace(w)
    ensures TrimRight(s + w) == TrimRight(s)
  {
    if w == "" {
      assert s + w == s;
    } else {
      TrimRightSpaces(s, w[..|w| - 1]);
      assert (s + w)[..|s + w| - 1] == s + w[..|w| - 1];
    }
  }

  /** White space around a text is absorbed by trimming every part of it. */
  lemma PaddedParts(before: string, s: string, after: string, c: char)
    requires AllSpace(before) && AllSpace(after) && !IsSpace(c)
    ensures TrimEach(Split(before + s + after, c)) == TrimEach(Split(s, c))
  {
    TrimRightSpaces(before + s, after);
    TrimRightBeforeSplit(before + s + after, c);
    TrimRightBeforeSplit(before + s, c);
    TrimLeftSpaces(before, s);
    TrimLeftBeforeSplit(before + s, c);
    TrimLeftBeforeSplit(s, c);
  }

  /** `t` begins and ends with no white space. */
  predicate Trimmed(t: string) {
    t != "" ==> !IsSpace(t[0]) && !IsSpace(t[|t| - 1])
  }

  /** Trimming takes exactly the white space off both ends: whatever stands between white space and itself
      neither begins nor ends with some is the result. */
  lemma {:induction false} TrimMeaning(front: string, text: string, back: string)
    requires AllSpace(front) && AllSpace(back) && Trimmed(text)
    ensures TrimSpace(front + text + back) == text
  {
    TrimLeftSpaces(front, text + back);
    assert front + text + back == front + (text + back);
    if text == "" {
      TrimLeftSpaces(back, "");
      assert back + "" == back == text + back;
    } else {
      assert TrimLeft(text + back) == text + back;
      TrimRightSpaces(text, back);
    }
  }

  // ---------------------------------------------------------------- per-character maps

  function MapChars(f: char -> char, s: string): (r: string)
    ensures |r| == |s|
  {
    seq(|s|, i requires 0 <= i < |s| => f(s[i]))
  }

  /** A map that leaves every character of a text leaves the trimmed text. */
  lemma FixedTrim(f: char -> char, s: string)
    requires forall i :: 0 <= i < |s| ==> f(s[i]) == s[i]
    ensures MapChars(f, TrimSpace(s)) == TrimSpace(s)
  {
    TrimLeftPart(s);
    TrimRightPart(TrimLeft(s));
    var l, t := TrimLeft(s), TrimSpace(s);
    forall i | 0 <= i < |t| ensures f(t[i]) == t[i] {
      assert t[i] == l[i] == s[|s| - |l| + i];
    }
  }

  /** What lower-casing must satisfy: it neither makes nor destroys separators or white space. */
  ghost predicate KeepsStructure(f: char -> char, c: char) {
    (forall x :: f(x) == c <==> x == c) && (forall x :: IsSpace(f(x)) <==> IsSpace(x))
  }

  function MapEach(f: char -> char, parts: seq<string>): (r: seq<string>)
    ensures |r| == |parts|
  {
    seq(|parts|, i requires 0 <= i < |parts| => MapChars(f, parts[i]))
  }

  lemma {:induction false} MapSplit(f: char -> char, s: string, c: char)
    requires KeepsStructure(f, c)
    ensures Split(MapChars(f, s), c) == MapEach(f, Split(s, c))
  {
    if s == "" {
      assert MapChars(f, s) == "";
    } else {
      MapSplit(f, s[1..], c);
      assert MapChars(f, s)[1..] == MapChars(f, s[1..]);
      var rest := Split(s[1..], c);
      if s[0] == c {
        assert MapEach(f, [""] + rest) == [""] + MapEach(f, rest);
      } else {
        MapPrepend(f, s[0], rest);
      }
    }
  }

  lemma MapPrepend(f: char -> char, x: char, parts: seq<string>)
    requires parts != []
    ensures MapEach(f, Prepend(x, parts)) == Prepend(f(x), MapEach(f, parts))
  {
    assert MapChars(f, [x] + parts[0]) == [f(x)] + MapChars(f, parts[0]);
  }

  lemma {:induction false} MapTrimLeft(f: char -> char, s: string, c: char)
    requires KeepsStructure(f, c)
    ensures TrimLeft(MapChars(f, s)) == MapChars(f, TrimLeft(s))
  {
    if s != "" {
      MapTrimLeft(f, s[1..], c);
      assert MapChars(f, s)[1..] == MapChars(f, s[1..]);
    }
  }

  lemma {:induction false} MapTrimRight(f: char -> char, s: string, c: char)
    requires KeepsStructure(f, c)
    ensures TrimRight(MapChars(f, s)) == MapChars(f, TrimRight(s))
  {
    if s != "" {
      MapTrimRight(f, s[..|s| - 1], c);
      assert MapChars(f, s)[..|s| - 1] == MapChars(f, s[..|s| - 1]);
    }
  }

  lemma MapTrim(f: char -> char, s: string, c: char)
    requires KeepsStructure(f, c)
    ensures TrimSpace(MapChars(f, s)) == MapChars(f, TrimSpace(s))
  {
    MapTrimLeft(f, s, c);
    MapTrimRight(f, TrimLeft(s), c);
  }
}
