/** The in-place `Map` and the multi-value split `SplitM`. */
module Text {
  import opened Strings

  /** All functions applied to one element, first to last. */
  function ApplyAll(fns: seq<string -> string>, x: string): string {
    if fns == [] then x else fns[|fns| - 1](ApplyAll(fns[..|fns| - 1], x))
  }

  /** Overwrites every element. The source runs one function over the whole slice before the next;
      element by element this is the same as running the whole chain on that element. */
  method Map(s: array<string>, fns: seq<string -> string>)
    modifies s
    ensures forall i :: 0 <= i < s.Length ==> s[i] == ApplyAll(fns, old(s[i]))
  {
    if |fns| == 0 {
      return;
    }
    for f := 0 to |fns|
      invariant forall i :: 0 <= i < s.Length ==> s[i] == ApplyAll(fns[..f], old(s[i]))
    {
      assert fns[..f + 1][..f] == fns[..f];
      for i := 0 to s.Length
        invariant forall j :: 0 <= j < i ==> s[j] == ApplyAll(fns[..f + 1], old(s[j]))
        invariant forall j :: i <= j < s.Length ==> s[j] == ApplyAll(fns[..f], old(s[j]))
      {
        s[i] := fns[f](s[i]);
      }
    }
    assert fns[..|fns|] == fns;
  }

  /** Every element split, the parts kept in order. */
  function SplitAll(lines: seq<string>, sep: char): seq<string> {
    if lines == [] then [] else SplitAll(lines[..|lines| - 1], sep) + Split(lines[|lines| - 1], sep)
  }

  method SplitM(s: seq<string>, sep: char) returns (out: seq<string>)
    ensures out == SplitAll(s, sep)
    ensures |s| > 0 ==> out == Split(Join(s, sep), sep)
  {
    out := [];
    for i := 0 to |s|
      invariant out == SplitAll(s[..i], sep)
    {
      assert s[..i + 1][..i] == s[..i];
      if Contains(s[i], [sep]) {
        out := out + Split(s[i], sep);
      } else {
        if sep in s[i] {
          var (before, after) := Cut(s[i], sep);
          assert OccursAt(s[i], [sep], |before|);
        }
        SplitFree(s[i], sep);
        out := out + [s[i]];
      }
    }
    assert s[..|s|] == s;
    if |s| > 0 {
      SplitOfJoin(s, sep);
    }
  }

  lemma {:induction false} SplitAllConcat(a: seq<string>, b: seq<string>, sep: char)
    ensures SplitAll(a + b, sep) == SplitAll(a, sep) + SplitAll(b, sep)
  {
    if b == [] {
      assert a + b == a;
    } else {
      var init, last := b[..|b| - 1], b[|b| - 1];
      SplitAllConcat(a, init, sep);
      assert (a + b)[..|a + b| - 1] == a + init && (a + b)[|a + b| - 1] == last;
      var x, y, z := SplitAll(a, sep), SplitAll(init, sep), Split(last, sep);
      assert (x + y) + z == x + (y + z);
    }
  }

  /** Splitting the lines one by one is splitting them joined by the separator, so the way a list
      was cut into lines cannot be seen afterwards. */
  lemma {:induction false} SplitOfJoin(lines: seq<string>, sep: char)
    requires |lines| > 0
    ensures SplitAll(lines, sep) == Split(Join(lines, sep), sep)
  {
    if |lines| == 1 {
      assert SplitAll([], sep) == [];
      assert lines[..0] == [];
    } else {
      SplitOfJoin(lines[1..], sep);
      SplitConcat(lines[0], Join(lines[1..], sep), sep);
      SplitAllConcat([lines[0]], lines[1..], sep);
      assert [lines[0]] + lines[1..] == lines;
      assert SplitAll([lines[0]], sep) == Split(lines[0], sep) by {
        assert [lines[0]][..0] == [];
      }
    }
  }
}
