/** The log buffer that stops at a size limit and marks the cut. */
module LimitedBuffer {
  import opened Basics

  /** `[...truncated]` */
  const TRUNC: seq<Byte> := [91, 46, 46, 46, 116, 114, 117, 110, 99, 97, 116, 101, 100, 93]

  function Max(a: int, b: int): int {
    if a < b then b else a
  }

  /** A buffer's whole state, with the counts and end-of-file results its writes have returned. */
  datatype Run = Run(content: seq<Byte>, remaining: int, counted: int, eofs: nat)

  function Fresh(maxSize: int): Run {
    Run([], maxSize, 0, 0)
  }

  /** One write, branch by branch. */
  function Step(maxSize: int, r: Run, p: seq<Byte>): Run {
    if maxSize <= 0 then r.(content := r.content + p, counted := r.counted + |p|)
    else if r.remaining <= 0 then r.(counted := r.counted + |p|)
    else if r.remaining < |p| then
      Run(r.content + p[..Max(0, r.remaining - |TRUNC|)] + TRUNC, 0, r.counted + |p| + |TRUNC|, r.eofs + 1)
    else
      r.(content := r.content + p, remaining := r.remaining - |p|, counted := r.counted + |p|)
  }

  /** All writes since the last reset, in order. */
  function After(maxSize: int, writes: seq<seq<Byte>>): Run {
    if writes == [] then Fresh(maxSize)
    else Step(maxSize, After(maxSize, writes[..|writes| - 1]), writes[|writes| - 1])
  }

  function Offered(writes: seq<seq<Byte>>): seq<Byte> {
    if writes == [] then [] else Offered(writes[..|writes| - 1]) + writes[|writes| - 1]
  }

  /** How many leading writes fit as a whole. */
  function Fitting(maxSize: int, writes: seq<seq<Byte>>): (n: nat)
    ensures n <= |writes|
  {
    if writes == [] then 0
    else
      var n := Fitting(maxSize, writes[..|writes| - 1]);
      if n == |writes| - 1 && |Offered(writes)| <= maxSize then n + 1 else n
  }

  /** The bytes of those writes. */
  function Kept(maxSize: int, writes: seq<seq<Byte>>): seq<Byte> {
    Offered(writes[..Fitting(maxSize, writes)])
  }

  /** The contents and the accounting as a function of the offered bytes alone and of where the
      first write that does not fit begins. */
  ghost predicate Explained(maxSize: int, writes: seq<seq<Byte>>, r: Run) {
    var all, kept := Offered(writes), |Kept(maxSize, writes)|;
    if maxSize <= 0 then
      r == Run(all, maxSize, |all|, 0)
    else if |all| <= maxSize then
      r == Run(all, maxSize - |all|, |all|, 0)
    else if kept == maxSize then
      r == Run(all[..maxSize], 0, |all|, 0)
    else
      && Max(kept, maxSize - |TRUNC|) <= maxSize - 1
      && r == Run(all[..Max(kept, maxSize - |TRUNC|)] + TRUNC, 0, |all| + |TRUNC|, 1)
  }

  lemma {:induction false} KeptPrefix(maxSize: int, writes: seq<seq<Byte>>)
    requires maxSize >= 0
    ensures Kept(maxSize, writes) <= Offered(writes)
    ensures |Kept(maxSize, writes)| <= maxSize
    ensures |Offered(writes)| <= maxSize <==> Fitting(maxSize, writes) == |writes|
  {
    if writes == [] {
    } else {
      var prev := writes[..|writes| - 1];
      KeptPrefix(maxSize, prev);
      var n := Fitting(maxSize, writes);
      if n == |writes| {
        assert writes[..n] == writes;
      } else {
        assert writes[..n] == prev[..n];
      }
    }
  }

  /** Whatever is written in whatever chunks, the buffer holds exactly what `Explained` says. */
  lemma {:induction false} RunContent(maxSize: int, writes: seq<seq<Byte>>)
    ensures Explained(maxSize, writes, After(maxSize, writes))
  {
    if writes == [] {
    } else {
      var prev := writes[..|writes| - 1];
      RunContent(maxSize, prev);
      if maxSize > 0 {
        KeptPrefix(maxSize, prev);
        KeptPrefix(maxSize, writes);
        StepContent(maxSize, writes);
      }
    }
  }

  lemma StepContent(maxSize: int, writes: seq<seq<Byte>>)
    requires maxSize > 0 && writes != []
    requires var prev := writes[..|writes| - 1]; Explained(maxSize, prev, After(maxSize, prev))
    ensures Explained(maxSize, writes, After(maxSize, writes))
  {
    var prev, p := writes[..|writes| - 1], writes[|writes| - 1];
    KeptPrefix(maxSize, prev);
    if |Offered(writes)| > maxSize {
      KeptStays(maxSize, writes);
      if |Offered(prev)| <= maxSize {
        assert prev[..|prev|] == prev;
        Crossing(maxSize, Offered(prev), p);
      } else {
        PrefixOfSum(Offered(prev), p, maxSize);
        PrefixOfSum(Offered(prev), p, Max(|Kept(maxSize, prev)|, maxSize - |TRUNC|));
      }
    }
  }

  /** A write beyond the limit leaves the fitting ones as they were. */
  lemma KeptStays(maxSize: int, writes: seq<seq<Byte>>)
    requires maxSize > 0 && writes != [] && |Offered(writes)| > maxSize
    ensures Kept(maxSize, writes) == Kept(maxSize, writes[..|writes| - 1])
  {
    var prev := writes[..|writes| - 1];
    var n := Fitting(maxSize, prev);
    assert writes[..n] == prev[..n];
  }

  lemma PrefixOfSum(a: seq<Byte>, b: seq<Byte>, k: int)
    ensures 0 <= k <= |a| ==> (a + b)[..k] == a[..k]
  {
  }

  /** The write that crosses the limit. */
  lemma Crossing(maxSize: int, before: seq<Byte>, p: seq<Byte>)
    requires maxSize > 0 && |before| <= maxSize < |before| + |p|
    ensures |before| == maxSize ==> (before + p)[..maxSize] == before
    ensures var k := Max(0, maxSize - |before| - |TRUNC|);
      |before| < maxSize ==>
        && |before| + k == Max(|before|, maxSize - |TRUNC|)
        && (before + p)[..|before| + k] == before + p[..k]
  {
  }

  /** The contents never outgrow the limit by more than 13 bytes, the counts returned add up to the
      bytes offered plus 14 exactly when the cut was marked, and end-of-file comes at most once. */
  lemma RunBound(maxSize: int, writes: seq<seq<Byte>>)
    requires maxSize > 0
    ensures var r, all := After(maxSize, writes), |Offered(writes)|;
      && |r.content| <= maxSize + 13
      && r.eofs <= 1
      && r.counted == all + 14 * r.eofs
      && (r.eofs == 1 <==> all > maxSize && |Kept(maxSize, writes)| < maxSize)
      && (r.remaining == 0 <==> all >= maxSize)
  {
    RunContent(maxSize, writes);
    KeptPrefix(maxSize, writes);
    if |Offered(writes)| == maxSize {
      assert writes[..|writes|] == writes;
    }
  }

  /** Once nothing remains, further writes change only the returned counts. */
  lemma {:induction false} Frozen(maxSize: int, writes: seq<seq<Byte>>, more: seq<seq<Byte>>)
    requires maxSize > 0 && |Offered(writes)| >= maxSize
    ensures After(maxSize, writes + more).content == After(maxSize, writes).content
    ensures After(maxSize, writes + more).eofs == After(maxSize, writes).eofs
    ensures After(maxSize, writes + more).remaining == 0
  {
    if more == [] {
      assert writes + more == writes;
      RunBound(maxSize, writes);
    } else {
      Frozen(maxSize, writes, more[..|more| - 1]);
      assert (writes + more)[..|writes + more| - 1] == writes + more[..|more| - 1];
    }
  }

  class LimitedBuffer {
    var content: seq<Byte>
    const maxSize: int
    var remaining: int
    ghost var writes: seq<seq<Byte>>  // since construction or the last reset
    ghost var counted: int
    ghost var eofs: nat

    ghost predicate Valid()
      reads this
    {
      Run(content, remaining, counted, eofs) == After(maxSize, writes)
    }

    /** At any time the fields are what `Explained` says of the writes so far. */
    lemma Contents()
      requires Valid()
      ensures Explained(maxSize, writes, Run(content, remaining, counted, eofs))
    {
      RunContent(maxSize, writes);
    }

    constructor (maxSize: int)
      ensures Valid() && this.maxSize == maxSize && writes == []
      ensures content == [] && remaining == maxSize
    {
      this.maxSize := maxSize;
      content, remaining := [], maxSize;
      writes, counted, eofs := [], 0, 0;
    }

    /** Whatever was written before, the buffer is again as constructed. */
    method Reset()
      modifies this
      ensures Valid() && writes == []
      ensures content == [] && remaining == maxSize
    {
      content := [];
      remaining := maxSize;
      writes, counted, eofs := [], 0, 0;
      if maxSize <= 0 {
        return;
      }
    }

    method Write(p: seq<Byte>) returns (n: int, eof: bool)
      requires Valid()
      modifies this
      ensures Valid() && writes == old(writes) + [p]
      ensures counted == old(counted) + n && eofs == old(eofs) + (if eof then 1 else 0)
      ensures eof <==> 0 < old(remaining) < |p| && maxSize > 0
    {
      writes := writes + [p];
      ghost var before := Run(content, remaining, counted, eofs);
      assert writes[..|writes| - 1] == old(writes) && writes[|writes| - 1] == p;
      assert After(maxSize, writes) == Step(maxSize, before, p);
      eof := false;
      n := |p|;
      counted := counted + n;
      if maxSize <= 0 {
        content := content + p;
        return;
      }
      if remaining <= 0 {
        return;
      }
      if remaining < |p| {
        content := content + p[..Max(0, remaining - |TRUNC|)];
        content := content + TRUNC;
        remaining := 0;
        n, eof := |p| + |TRUNC|, true;
        counted, eofs := counted + |TRUNC|, eofs + 1;
        return;
      }
      content := content + p;
      remaining := remaining - |p|;
    }
  }
}
