/** Error values, the depth-first search of their unwrap trees, and the resolution of the errors
    passed to one `Error` call. */
module Errors {
  import opened Basics

  datatype Visibility = Unknown | Public | Masked

  /** A Go `error`; `Nil` is the nil interface. `StatusText` holds the standard text of a status code.
      `Wrapped` unwraps to one error, `Joined` to many. */
  datatype Err =
    | Nil
    | StatusText(code: int)
    | MaxBytes(limit: int)
    | InvalidDecoder
    | Other(text: string)
    | Wrapped(text: string, inner: Err)
    | Joined(parts: seq<Err>)
    | Resolved(re: ResolvedError)

  datatype ResolvedError =
    ResolvedError(err: Err, errs: seq<Err>, statusCode: int, visibility: Visibility)

  /** The error types looked for with `errors.As`. */
  datatype Target = AMaxBytes | AResolved | AnInvalidDecoder

  predicate Is(e: Err, t: Target) {
    match t
    case AMaxBytes => e.MaxBytes?
    case AResolved => e.Resolved?
    case AnInvalidDecoder => e.InvalidDecoder?
  }

  /** `errors.As`: the first error of the wanted type in depth-first pre-order, `Nil` if none. A resolved
      error unwraps to its list, or to its error when the list is empty. */
  function As(e: Err, t: Target): (found: Err)
    ensures found.Nil? || Is(found, t)
    decreases e, 1
  {
    if Is(e, t) then e
    else match e
      case Wrapped(_, inner) => As(inner, t)
      case Joined(parts) => AsFirst(parts, t)
      case Resolved(re) => if |re.errs| == 0 then As(re.err, t) else AsFirst(re.errs, t)
      case _ => Nil
  }

  function AsFirst(es: seq<Err>, t: Target): (found: Err)
    ensures found.Nil? || Is(found, t)
    decreases es, 0
  {
    if es == [] then Nil
    else
      var head := As(es[0], t);
      if head.Nil? then AsFirst(es[1..], t) else head
  }

  /** `x` is somewhere in the unwrap tree of `e`. */
  ghost predicate InTree(x: Err, e: Err)
    decreases e
  {
    || x == e
    || match e
       case Wrapped(_, inner) => InTree(x, inner)
       case Joined(parts) => exists i :: 0 <= i < |parts| && InTree(x, parts[i])
       case Resolved(re) =>
         if |re.errs| == 0 then InTree(x, re.err)
         else exists i :: 0 <= i < |re.errs| && InTree(x, re.errs[i])
       case _ => false
  }

  predicate Carries(e: Err) {
    As(e, AMaxBytes) != Nil
  }

  lemma {:induction false} AsFirstIsFirst(es: seq<Err>, t: Target)
    ensures AsFirst(es, t) == Nil <==> forall i :: 0 <= i < |es| ==> As(es[i], t) == Nil
    ensures AsFirst(es, t) != Nil ==> exists i :: 0 <= i < |es| && As(es[i], t) == AsFirst(es, t)
  {
    if es != [] {
      AsFirstIsFirst(es[1..], t);
      assert forall i :: 0 < i < |es| ==> es[i] == es[1..][i - 1];
      if As(es[0], t) == Nil && AsFirst(es[1..], t) != Nil {
        var i :| 0 <= i < |es[1..]| && As(es[1..][i], t) == AsFirst(es[1..], t);
        assert es[i + 1] == es[1..][i];
      }
    }
  }

  /** The search misses nothing and invents nothing. */
  lemma {:induction false} AsFindsTree(e: Err, t: Target, x: Err)
    requires Is(x, t)
    ensures InTree(x, e) ==> As(e, t) != Nil
    ensures As(e, t) == x ==> InTree(x, e)
    decreases e
  {
    match e
    case Wrapped(_, inner) => AsFindsTree(inner, t, x);
    case Joined(parts) => AsFindsForest(parts, t, x);
    case Resolved(re) =>
      if |re.errs| == 0 {
        AsFindsTree(re.err, t, x);
      } else {
        AsFindsForest(re.errs, t, x);
      }
    case _ =>
  }

  lemma {:induction false} AsFindsForest(es: seq<Err>, t: Target, x: Err)
    requires Is(x, t)
    ensures (exists i :: 0 <= i < |es| && InTree(x, es[i])) ==> AsFirst(es, t) != Nil
    ensures AsFirst(es, t) == x ==> exists i :: 0 <= i < |es| && InTree(x, es[i])
    decreases es
  {
    AsFirstIsFirst(es, t);
    forall i | 0 <= i < |es|
      ensures InTree(x, es[i]) ==> As(es[i], t) != Nil
      ensures As(es[i], t) == x ==> InTree(x, es[i])
    {
      AsFindsTree(es[i], t, x);
    }
  }

  // ---------------------------------------------------------------- body overflow

  const STATUS_TOO_LARGE := 413
  const STATUS_INTERNAL := 500
  const STATUS_BAD_REQUEST := 400

  /** `requestEntityTooLargeError`. */
  function TooLarge(e: Err): ResolvedError {
    ResolvedError(if e.Nil? then StatusText(STATUS_TOO_LARGE) else e, [], STATUS_TOO_LARGE, Public)
  }

  /** `resolveBodyLimitError`. */
  function ResolveBodyLimit(e: Err): Option<ResolvedError> {
    if Carries(e) then Some(TooLarge(As(e, AMaxBytes))) else None
  }

  /** `bodyLimitErrorResolver`: the single error first, then the list in order. */
  method BodyLimitErrorResolver(oerr: ResolvedError) returns (r: Option<ResolvedError>)
    ensures r == BodyLimitResolver(oerr)
  {
    AsFirstIsFirst(oerr.errs, AMaxBytes);
    r := ResolveBodyLimit(oerr.err);
    if r.Some? {
      return;
    }
    for i := 0 to |oerr.errs|
      invariant forall j :: 0 <= j < i ==> !Carries(oerr.errs[j])
    {
      r := ResolveBodyLimit(oerr.errs[i]);
      if r.Some? {
        FirstFound(oerr.errs, i, AMaxBytes);
        return;
      }
    }
    r := None;
  }

  lemma {:induction false} FirstFound(es: seq<Err>, i: nat, t: Target)
    requires i < |es| && As(es[i], t) != Nil && forall j :: 0 <= j < i ==> As(es[j], t) == Nil
    ensures AsFirst(es, t) == As(es[i], t)
  {
    if i > 0 {
      FirstFound(es[1..], i - 1, t);
    }
  }

  /** The same as one search through the error and then the list. */
  function BodyLimitResolver(oerr: ResolvedError): Option<ResolvedError> {
    var found := AsFirst([oerr.err] + oerr.errs, AMaxBytes);
    if found.Nil? then None else Some(TooLarge(found))
  }

  // ---------------------------------------------------------------- Error

  type Resolver = ResolvedError -> Option<ResolvedError>

  /** What reaches the error handler, and how many resolvers were asked. */
  datatype Outcome = Panics | Handled(resolved: ResolvedError, asked: nat)

  function NonNil(errs: seq<Err>): seq<Err> {
    if errs == [] then []
    else
      var before, last := NonNil(errs[..|errs| - 1]), errs[|errs| - 1];
      if last.Nil? then before else before + [last]
  }

  /** `errors.Join`. */
  function JoinErrors(errs: seq<Err>): Err {
    var kept := NonNil(errs);
    if kept == [] then Nil else Joined(kept)
  }

  /** What an error contributes to a call with several errors. */
  function Exposed(e: Err): Err {
    var r := As(e, AResolved);
    if r.Resolved? then r.re.err else e
  }

  function StatusOf(e: Err): int {
    var r := As(e, AResolved);
    if r.Resolved? then r.re.statusCode else 0
  }

  function AllExposed(errs: seq<Err>): (r: seq<Err>)
    ensures |r| == |errs|
  {
    seq(|errs|, i requires 0 <= i < |errs| => Exposed(errs[i]))
  }

  /** The highest status code of the resolved errors, at least 0. */
  function TopStatus(errs: seq<Err>): (top: int)
    ensures top >= 0 && forall e :: e in errs ==> StatusOf(e) <= top
    ensures top == 0 || exists e :: e in errs && StatusOf(e) == top
  {
    if errs == [] then 0
    else
      var top, last := TopStatus(errs[..|errs| - 1]), errs[|errs| - 1];
      assert forall e :: e in errs ==> e in errs[..|errs| - 1] || e == last;
      if StatusOf(last) > top then StatusOf(last) else top
  }

  /** The one error that stands for all errors passed, before defaults and resolvers. */
  function Aggregate(errs: seq<Err>): ResolvedError {
    if |errs| == 1 then
      var r := As(errs[0], AResolved);
      if r.Resolved? then r.re else ResolvedError(errs[0], [], 0, Unknown)
    else
      ResolvedError(Nil, AllExposed(errs), TopStatus(errs), Unknown)
  }

  function WithDefaults(r: ResolvedError): ResolvedError {
    r.(err := if |r.errs| > 0 && r.err.Nil? then JoinErrors(r.errs) else r.err,
       statusCode := if r.statusCode == 0 then STATUS_INTERNAL else r.statusCode)
  }

  /** The first resolver with an answer decides. */
  function Resolve(r: ResolvedError, resolvers: seq<Resolver>): Outcome {
    if resolvers == [] then Handled(r, 0)
    else
      match resolvers[0](r)
      case Some(answer) => Handled(answer, 1)
      case None => var rest := Resolve(r, resolvers[1..]); Handled(rest.resolved, rest.asked + 1)
  }

  /** Resolver `k` is the first with an answer. */
  ghost predicate AnswersFirst(r: ResolvedError, resolvers: seq<Resolver>, k: nat) {
    k < |resolvers| && resolvers[k](r).Some? && forall i :: 0 <= i < k ==> resolvers[i](r) == None
  }

  /** The first resolver that answers decides and is the last one asked; without an answer all are
      asked and the error stays as it was. */
  lemma {:induction false} FirstAnswer(r: ResolvedError, resolvers: seq<Resolver>)
    ensures (forall i :: 0 <= i < |resolvers| ==> resolvers[i](r) == None) ==>
              Resolve(r, resolvers) == Handled(r, |resolvers|)
    ensures forall k: nat :: AnswersFirst(r, resolvers, k) ==>
              Resolve(r, resolvers) == Handled(resolvers[k](r).value, k + 1)
  {
    if resolvers != [] {
      var rest := resolvers[1..];
      FirstAnswer(r, rest);
      assert forall i :: 0 < i < |resolvers| ==> resolvers[i] == rest[i - 1];
      forall k: nat | AnswersFirst(r, resolvers, k)
        ensures Resolve(r, resolvers) == Handled(resolvers[k](r).value, k + 1)
      {
        if k > 0 {
          assert resolvers[0](r) == None && AnswersFirst(r, rest, k - 1);
        }
      }
    }
  }

  function Handling(errs: seq<Err>, resolvers: seq<Resolver>): Outcome {
    if NonNil(errs) == [] then Panics
    else Resolve(WithDefaults(Aggregate(NonNil(errs))), resolvers)
  }

  /** An error that reaches the resolvers reaches the handler. */
  lemma {:induction false} ResolveHandles(r: ResolvedError, resolvers: seq<Resolver>)
    ensures Resolve(r, resolvers).Handled? && Resolve(r, resolvers).asked <= |resolvers|
  {
    if resolvers != [] {
      ResolveHandles(r, resolvers[1..]);
    }
  }

  /** What cutting the nil errors out in place leaves of the slice: the others in front, in order, and
      behind them only copies of the last element. */
  ghost predicate Compacted(before: seq<Err>, after: seq<Err>) {
    && |after| == |before|
    && NonNil(before) <= after
    && forall j :: |NonNil(before)| <= j < |after| ==> after[j] == before[|before| - 1]
  }

  method Error(errs: array<Err>, resolvers: seq<Resolver>) returns (out: Outcome)
    modifies errs
    ensures out == Handling(old(errs[..]), resolvers)
    ensures out.Panics? <==> forall i :: 0 <= i < errs.Length ==> old(errs[i]) == Nil
    ensures Compacted(old(errs[..]), errs[..])
  {
    ghost var given := errs[..];
    NonNilMembers(given);
    var n := CompactErrors(errs);
    if n == 0 {
      assert forall i :: 0 <= i < errs.Length ==> given[i] in given;
      return Panics;
    }
    assert errs[0] in NonNil(given);
    var resolved := ResolvedError(Nil, [], 0, Unknown);
    if n == 1 {
      var rerr := As(errs[0], AResolved);
      if rerr.Resolved? {
        resolved := rerr.re;
      } else {
        resolved := resolved.(err := errs[0]);
      }
    } else {
      resolved := CollectErrors(errs[..n]);
    }
    if |resolved.errs| > 0 && resolved.err.Nil? {
      resolved := resolved.(err := JoinErrors(resolved.errs));
    }
    if resolved.statusCode == 0 {
      resolved := resolved.(statusCode := STATUS_INTERNAL);
    }
    out := AskResolvers(resolved, resolvers);
    ResolveHandles(resolved, resolvers);
  }

  /** The loop over the configured resolvers. */
  method AskResolvers(resolved: ResolvedError, resolvers: seq<Resolver>) returns (out: Outcome)
    ensures out == Resolve(resolved, resolvers)
  {
    var asked := 0;
    while asked < |resolvers|
      invariant asked <= |resolvers|
      invariant Resolve(resolved, resolvers) ==
                var rest := Resolve(resolved, resolvers[asked..]); Handled(rest.resolved, rest.asked + asked)
    {
      var answer := resolvers[asked](resolved);
      assert resolvers[asked..][1..] == resolvers[asked + 1..];
      asked := asked + 1;
      if answer.Some? {
        return Handled(answer.value, asked);
      }
    }
    return Handled(resolved, asked);
  }

  /** The slice `s` after `done` of the errors given have been looked at: `i` of them are kept, in front,
      and the others are cut out, the length being `n` by now. */
  ghost predicate Midway(given: seq<Err>, done: nat, s: seq<Err>, i: nat, n: nat) {
    && i <= n <= |s| == |given| && done <= |given| && n - i == |given| - done
    && s[..i] == NonNil(given[..done])
    && s[i..n] == given[done..]
    && forall j :: n <= j < |given| ==> s[j] == given[|given| - 1]
  }

  /** `append(s[:i], s[i+1:]...)` on a slice of length `n`, seen in the array behind it. */
  function WithoutOne(s: seq<Err>, i: nat, n: nat): seq<Err>
    requires i < n <= |s|
  {
    s[..i] + s[i + 1..n] + s[n - 1..]
  }

  lemma MidwayKeep(given: seq<Err>, done: nat, s: seq<Err>, i: nat, n: nat)
    requires Midway(given, done, s, i, n) && i < n && !s[i].Nil?
    ensures Midway(given, done + 1, s, i + 1, n)
  {
    assert s[i] == s[i..n][0] == given[done];
    assert given[..done + 1][..done] == given[..done];
    assert s[i + 1..n] == s[i..n][1..];
  }

  lemma MidwayCut(given: seq<Err>, done: nat, s: seq<Err>, i: nat, n: nat)
    requires Midway(given, done, s, i, n) && i < n && s[i].Nil?
    ensures Midway(given, done + 1, WithoutOne(s, i, n), i, n - 1)
  {
    var cut := WithoutOne(s, i, n);
    assert s[i] == s[i..n][0] == given[done];
    assert given[..done + 1][..done] == given[..done];
    assert cut[i..n - 1] == s[i + 1..n] == s[i..n][1..];
    assert s[n - 1] == s[i..n][n - 1 - i] == given[|given| - 1];
    assert forall j :: n - 1 <= j < |s| ==> cut[j] == s[j];
  }

  lemma MidwayDone(given: seq<Err>, done: nat, s: seq<Err>, n: nat)
    requires Midway(given, done, s, n, n)
    ensures s[..n] == NonNil(given) && Compacted(given, s)
  {
    assert given[..done] == given;
  }

  /** Nil errors are cut out of the caller's slice one at a time; `n` is its new length. */
  method CompactErrors(errs: array<Err>) returns (n: nat)
    modifies errs
    ensures n <= errs.Length && errs[..n] == NonNil(old(errs[..]))
    ensures Compacted(old(errs[..]), errs[..])
  {
    ghost var given, done := errs[..], 0;
    n := errs.Length;
    var i := 0;
    while i < n
      invariant 0 <= i && Midway(given, done, errs[..], i, n)
      decreases |given| - done
    {
      if errs[i].Nil? {
        MidwayCut(given, done, errs[..], i, n);
        CutOut(errs, i, n);
        n := n - 1;
        i := i - 1;
      } else {
        MidwayKeep(given, done, errs[..], i, n);
      }
      i := i + 1;
      done := done + 1;
    }
    MidwayDone(given, done, errs[..], n);
  }

  method CutOut(errs: array<Err>, i: nat, n: nat)
    requires i < n <= errs.Length
    modifies errs
    ensures errs[..] == WithoutOne(old(errs[..]), i, n)
  {
    forall k | i <= k < n - 1 {
      errs[k] := errs[k + 1];
    }
  }

  method CollectErrors(errs: seq<Err>) returns (resolved: ResolvedError)
    ensures resolved == ResolvedError(Nil, AllExposed(errs), TopStatus(errs), Unknown)
  {
    resolved := ResolvedError(Nil, [], 0, Unknown);
    for i := 0 to |errs|
      invariant resolved == ResolvedError(Nil, AllExposed(errs[..i]), TopStatus(errs[..i]), Unknown)
    {
      assert errs[..i + 1][..i] == errs[..i];
      assert AllExposed(errs[..i + 1]) == AllExposed(errs[..i]) + [Exposed(errs[i])];
      var rerr := As(errs[i], AResolved);
      if rerr.Resolved? {
        resolved := resolved.(errs := resolved.errs + [rerr.re.err]);
        if rerr.re.statusCode > resolved.statusCode {
          resolved := resolved.(statusCode := rerr.re.statusCode);
        }
        continue;
      }
      resolved := resolved.(errs := resolved.errs + [errs[i]]);
    }
    assert errs[..|errs|] == errs;
  }

  // ---------------------------------------------------------------- overflow resolution

  /** The default resolver in front, any others appended to it. */
  function DefaultResolvers(appended: seq<Resolver>): seq<Resolver> {
    [BodyLimitResolver] + appended
  }

  /** Where the default resolver looks: for a single resolved error its error and its list, otherwise
      what each error contributes. */
  function Candidates(es: seq<Err>): seq<Err> {
    if |es| == 1 && As(es[0], AResolved).Resolved? then
      [As(es[0], AResolved).re.err] + As(es[0], AResolved).re.errs
    else AllExposed(es)
  }

  ghost predicate SomeCarries(es: seq<Err>) {
    exists x :: x in es && Carries(x)
  }

  ghost predicate SomeHolds(es: seq<Err>, x: Err) {
    exists e :: e in es && InTree(x, e)
  }

  ghost predicate OverflowSeen(errs: seq<Err>) {
    SomeCarries(Candidates(NonNil(errs)))
  }

  /** The default answer: a public 413 around one of the errors' own `MaxBytesError`s. */
  ghost predicate IsOverflowAnswer(out: Outcome, es: seq<Err>) {
    exists m :: SomeHolds(es, MaxBytes(m)) && out == Handled(ResolvedError(MaxBytes(m), [], 413, Public), 1)
  }

  /** With the default resolver in front an overflow is answered by it exactly when it is seen, and
      no appended resolver is then asked; otherwise the default resolver leaves the aggregate as it
      was to the appended ones. */
  lemma OverflowResolution(errs: seq<Err>, appended: seq<Resolver>)
    requires NonNil(errs) != []
    ensures var es, out := NonNil(errs), Handling(errs, DefaultResolvers(appended));
      if OverflowSeen(errs) then IsOverflowAnswer(out, Candidates(es))
      else
        var rest := Resolve(WithDefaults(Aggregate(es)), appended);
        rest.Handled? && out == Handled(rest.resolved, rest.asked + 1)
  {
    var es := NonNil(errs);
    var w := WithDefaults(Aggregate(es));
    assert DefaultResolvers(appended)[1..] == appended;
    AggregateSees(es);
    if OverflowSeen(errs) {
      var m :| SomeHolds(Candidates(es), MaxBytes(m)) && BodyLimitResolver(w) == Some(TooLarge(MaxBytes(m)));
    }
  }

  lemma AggregateSees(es: seq<Err>)
    requires es != []
    ensures var answer := BodyLimitResolver(WithDefaults(Aggregate(es)));
      if SomeCarries(Candidates(es)) then
        exists m :: SomeHolds(Candidates(es), MaxBytes(m)) && answer == Some(TooLarge(MaxBytes(m)))
      else answer == None
  {
    var a := Aggregate(es);
    if |es| == 1 {
      if As(es[0], AResolved).Resolved? {
        assert Candidates(es) == [a.err] + a.errs;
      } else {
        assert Candidates(es) == [es[0]] == [a.err] + a.errs;
      }
    }
    DefaultsSee(a);
    if |es| != 1 {
      assert Candidates(es) == a.errs;
      assert forall x :: x in [a.err] + a.errs <==> x == Nil || x in a.errs;
    }
  }

  lemma {:induction false} NonNilMembers(errs: seq<Err>)
    ensures forall x :: x in NonNil(errs) <==> x in errs && x != Nil
  {
    if errs != [] {
      NonNilMembers(errs[..|errs| - 1]);
      assert forall x :: x in errs <==> x in errs[..|errs| - 1] || x == errs[|errs| - 1];
    }
  }

  /** Filling in the default error neither hides an overflow nor makes one up. */
  lemma DefaultsSee(a: ResolvedError)
    ensures var answer := BodyLimitResolver(WithDefaults(a));
      if SomeCarries([a.err] + a.errs) then
        exists m :: SomeHolds([a.err] + a.errs, MaxBytes(m)) && answer == Some(TooLarge(MaxBytes(m)))
      else answer == None
  {
    var w := WithDefaults(a);
    assert w.errs == a.errs;
    FirstCarried([w.err] + w.errs);
    if w.err != a.err {
      JoinSees(a.errs);
      assert a.err == Nil && w.err == JoinErrors(a.errs);
      assert forall x :: x in a.errs ==> x in [a.err] + a.errs;
      if SomeCarries([a.err] + a.errs) {
        var x :| x in [a.err] + a.errs && Carries(x);
        assert x in [w.err] + w.errs;
      }
      if SomeCarries([w.err] + w.errs) {
        var x :| x in [w.err] + w.errs && Carries(x);
        assert x == w.err || x in a.errs;
      }
      forall m | SomeHolds([w.err] + w.errs, MaxBytes(m)) ensures SomeHolds([a.err] + a.errs, MaxBytes(m)) {
        var x :| x in [w.err] + w.errs && InTree(MaxBytes(m), x);
        assert x == w.err || x in a.errs;
      }
    }
  }

  lemma FirstCarried(es: seq<Err>)
    ensures var found := AsFirst(es, AMaxBytes);
      if SomeCarries(es) then exists m :: SomeHolds(es, MaxBytes(m)) && found == MaxBytes(m)
      else found == Nil
  {
    var found := AsFirst(es, AMaxBytes);
    AsFirstIsFirst(es, AMaxBytes);
    if found != Nil {
      AsFindsForest(es, AMaxBytes, found);
      assert found == MaxBytes(found.limit);
      var i :| 0 <= i < |es| && As(es[i], AMaxBytes) == found;
      assert Carries(es[i]);
    }
  }

  lemma JoinSees(errs: seq<Err>)
    ensures Carries(JoinErrors(errs)) <==> SomeCarries(errs)
    ensures forall m :: InTree(MaxBytes(m), JoinErrors(errs)) ==> SomeHolds(errs, MaxBytes(m))
  {
    var kept := NonNil(errs);
    NonNilMembers(errs);
    if kept != [] {
      FirstCarried(kept);
    }
    assert forall i :: 0 <= i < |kept| ==> kept[i] in errs;
  }

  /** `e` has no resolved error in its tree, or is one itself. */
  predicate PlainOrDirect(e: Err) {
    e.Resolved? || As(e, AResolved).Nil?
  }

  /** Plain errors, and errors that are themselves resolved, are seen when they carry an overflow;
      for a resolved error it must be under its single error. */
  lemma PlainOrDirectIsSeen(errs: seq<Err>, e: Err)
    requires e in errs && PlainOrDirect(e)
    requires if e.Resolved? then Carries(e.re.err) else Carries(e)
    ensures NonNil(errs) != [] && OverflowSeen(errs)
  {
    var es := NonNil(errs);
    NonNilMembers(errs);
    var i :| 0 <= i < |es| && es[i] == e;
    DirectCandidate(es, i);
  }

  lemma DirectCandidate(es: seq<Err>, i: nat)
    requires i < |es| && PlainOrDirect(es[i])
    requires if es[i].Resolved? then Carries(es[i].re.err) else Carries(es[i])
    ensures SomeCarries(Candidates(es))
  {
    var e, all := es[i], Candidates(es);
    if |es| == 1 && e.Resolved? {
      assert all[0] == e.re.err && all[0] in all;
    } else {
      assert all == AllExposed(es) && all[i] == Exposed(e) && all[i] in all;
    }
  }

  /** A call with several errors does not see an overflow that a resolved error holds only in its
      list. */
  lemma ListedOverflowUnseen(limit: int, text: string)
    ensures var hidden := Resolved(ResolvedError(Nil, [MaxBytes(limit)], 0, Unknown));
      && Carries(hidden)
      && OverflowSeen([hidden])
      && !OverflowSeen([hidden, Other(text)])
  {
    var list := [MaxBytes(limit)];
    var hidden := Resolved(ResolvedError(Nil, list, 0, Unknown));
    assert As(list[0], AMaxBytes) == MaxBytes(limit);
    assert AsFirst(list, AMaxBytes) == MaxBytes(limit);
    assert [hidden][..0] == [] && NonNil([]) == [];
    assert NonNil([hidden]) == [hidden];
    assert Carries(list[0]);
    assert Candidates([hidden])[1] == list[0];
    var both := [hidden, Other(text)];
    assert both[..1] == [hidden];
    assert NonNil(both) == both;
    assert Candidates(both) == [Nil, Other(text)];
  }

  /** The error `ErrorWithCode` passes on: one error is its single error, several are its list. */
  function CodeError(statusCode: int, errs: seq<Err>): ResolvedError {
    if |errs| == 0 then ResolvedError(StatusText(statusCode), [], statusCode, Unknown)
    else if |errs| == 1 then ResolvedError(errs[0], [], statusCode, Unknown)
    else ResolvedError(Nil, errs, statusCode, Unknown)
  }

  method ErrorWithCode(statusCode: int, errs: seq<Err>, resolvers: seq<Resolver>) returns (out: Outcome)
    ensures out == Handling([Resolved(CodeError(statusCode, errs))], resolvers)
  {
    var passed := new Err[] [Resolved(CodeError(statusCode, errs))];
    assert passed[..] == [Resolved(CodeError(statusCode, errs))];
    out := Error(passed, resolvers);
  }

  lemma OneError(e: Err)
    requires !e.Nil?
    ensures NonNil([e]) == [e]
  {
    assert [e][..0] == [] && NonNil([]) == [];
  }

  /** An overflow in any of the errors given with a code becomes the public 413; without one, and without
      further resolvers, the code stands, or 500 for a code of 0. */
  lemma {:induction false} CodeAnswer(statusCode: int, errs: seq<Err>)
    ensures var out := Handling([Resolved(CodeError(statusCode, errs))], DefaultResolvers([]));
      if SomeCarries(errs) then IsOverflowAnswer(out, errs)
      else
        && out.Handled? && out.resolved.visibility == Unknown
        && out.resolved.statusCode == (if statusCode == 0 then 500 else statusCode)
        && out.resolved.errs == (if |errs| > 1 then errs else [])
        && out.resolved.err ==
           if |errs| == 0 then StatusText(statusCode)
           else if |errs| == 1 then errs[0]
           else if NonNil(errs) == [] then Nil else Joined(NonNil(errs))
  {
    var re := CodeError(statusCode, errs);
    OneError(Resolved(re));
    CodeCandidates(statusCode, errs);
    OverflowResolution([Resolved(re)], []);
  }

  lemma CodeCandidates(statusCode: int, errs: seq<Err>)
    ensures var es := Candidates([Resolved(CodeError(statusCode, errs))]);
      && (SomeCarries(es) <==> SomeCarries(errs))
      && forall m :: SomeHolds(es, MaxBytes(m)) <==> SomeHolds(errs, MaxBytes(m))
  {
    var re := CodeError(statusCode, errs);
    var es := Candidates([Resolved(re)]);
    assert es == [re.err] + re.errs;
    assert forall x :: x in errs ==> x in es;
    assert forall x :: x in es ==> x in errs || x == Nil || x == StatusText(statusCode);
  }

  /** One plain error that no resolver answers reaches the handler as it is, as a 500. */
  lemma PlainUnanswered(e: Err, resolvers: seq<Resolver>)
    requires !e.Nil? && As(e, AResolved).Nil?
    requires forall i :: 0 <= i < |resolvers| ==> resolvers[i](ResolvedError(e, [], 500, Unknown)) == None
    ensures Handling([e], resolvers) == Handled(ResolvedError(e, [], 500, Unknown), |resolvers|)
  {
    assert [e][..0] == [] && NonNil([]) == [];
    assert NonNil([e]) == [e];
    FirstAnswer(ResolvedError(e, [], 500, Unknown), resolvers);
  }

  /** No resolver has an answer for what the errors become. */
  predicate Unanswered(errs: seq<Err>, resolvers: seq<Resolver>) {
    forall i :: 0 <= i < |resolvers| ==> resolvers[i](WithDefaults(Aggregate(NonNil(errs)))) == None
  }

  /** The status of a resolved error in the tree of one of the errors. */
  ghost predicate HasStatus(es: seq<Err>, status: int) {
    exists e :: e in es && As(e, AResolved).Resolved? && As(e, AResolved).re.statusCode == status
  }

  /** `status` is the highest of the errors' own, or 500 when none of them is positive. */
  ghost predicate IsTopStatus(es: seq<Err>, status: int) {
    if exists s :: s > 0 && HasStatus(es, s) then HasStatus(es, status) && forall s :: HasStatus(es, s) ==> s <= status
    else status == 500
  }

  /** The list holds what each error contributes, in order: of a resolved error its single error. */
  predicate Contributions(es: seq<Err>, errs: seq<Err>) {
    && |errs| == |es|
    && forall i :: 0 <= i < |es| ==>
         var r := As(es[i], AResolved);
         errs[i] == if r.Resolved? then r.re.err else es[i]
  }

  /** Several errors without an answering resolver reach the handler as one of unknown visibility: their
      contributions in a list and joined, under the highest status among them, or 500. */
  lemma {:induction false} SeveralErrors(errs: seq<Err>, resolvers: seq<Resolver>)
    requires |NonNil(errs)| > 1 && Unanswered(errs, resolvers)
    ensures var es, out := NonNil(errs), Handling(errs, resolvers);
      && out.Handled? && out.asked == |resolvers| && out.resolved.visibility == Unknown
      && IsTopStatus(es, out.resolved.statusCode)
      && Contributions(es, out.resolved.errs)
      && out.resolved.err ==
         if NonNil(out.resolved.errs) == [] then Nil else Joined(NonNil(out.resolved.errs))
  {
    var es := NonNil(errs);
    FirstAnswer(WithDefaults(Aggregate(es)), resolvers);
    TopIsStatus(es);
  }

  lemma TopIsStatus(es: seq<Err>)
    ensures IsTopStatus(es, if TopStatus(es) == 0 then 500 else TopStatus(es))
  {
    var top := TopStatus(es);
    forall s | HasStatus(es, s) ensures s <= top {
      var e :| e in es && As(e, AResolved).Resolved? && As(e, AResolved).re.statusCode == s;
      assert StatusOf(e) == s;
    }
    if top > 0 {
      var e :| e in es && StatusOf(e) == top;
      assert HasStatus(es, top);
    }
  }

  /** One error that is resolved, or wraps a resolved one, reaches the handler as it was labelled, with 500
      for a status of 0 and its list joined when it has no error of its own. */
  lemma {:induction false} OneResolved(errs: seq<Err>, e: Err, resolvers: seq<Resolver>)
    requires NonNil(errs) == [e] && As(e, AResolved).Resolved? && Unanswered(errs, resolvers)
    ensures var re, out := As(e, AResolved).re, Handling(errs, resolvers);
      && out.Handled? && out.asked == |resolvers|
      && out.resolved.errs == re.errs && out.resolved.visibility == re.visibility
      && out.resolved.statusCode == (if re.statusCode == 0 then 500 else re.statusCode)
      && out.resolved.err ==
         if re.err != Nil || re.errs == [] then re.err
         else if NonNil(re.errs) == [] then Nil else Joined(NonNil(re.errs))
  {
    FirstAnswer(WithDefaults(Aggregate([e])), resolvers);
  }

  /** The early rejection, labelled 413 but of unknown visibility, also becomes the public answer. */
  lemma EarlyRejection(maxBytes: int, appended: seq<Resolver>)
    ensures Handling([Resolved(ResolvedError(MaxBytes(maxBytes), [], 413, Unknown))], DefaultResolvers(appended))
         == Handled(ResolvedError(MaxBytes(maxBytes), [], 413, Public), 1)
  {
    var re := ResolvedError(MaxBytes(maxBytes), [], 413, Unknown);
    assert [Resolved(re)][..0] == [] && NonNil([]) == [];
    assert NonNil([Resolved(re)]) == [Resolved(re)];
    assert As([re.err][0], AMaxBytes) == re.err && [re.err] + [] == [re.err];
    assert BodyLimitResolver(WithDefaults(re)) == Some(TooLarge(re.err));
  }

  lemma {:induction false} NonNilConcat(x: seq<Err>, y: seq<Err>)
    ensures NonNil(x + y) == NonNil(x) + NonNil(y)
  {
    if y == [] {
      assert x + y == x;
    } else {
      NonNilConcat(x, y[..|y| - 1]);
      assert (x + y)[..|x + y| - 1] == x + y[..|y| - 1];
    }
  }

  /** A resolved error that carries an overflow, passed first, decides the limit answered. */
  lemma FirstIsAnswered(re: ResolvedError, m: int, others: seq<Err>, appended: seq<Resolver>)
    requires re.errs == [] && As(re.err, AMaxBytes) == MaxBytes(m)
    ensures Handling([Resolved(re)] + others, DefaultResolvers(appended))
         == Handled(ResolvedError(MaxBytes(m), [], 413, Public), 1)
  {
    NonNilConcat([Resolved(re)], others);
    OneError(Resolved(re));
    var es := [Resolved(re)] + NonNil(others);
    FirstDecides(es, re, m);
    assert NonNil([Resolved(re)] + others) == es;
    assert DefaultResolvers(appended)[0] == BodyLimitResolver;
  }

  lemma FirstDecides(es: seq<Err>, re: ResolvedError, m: int)
    requires es != [] && es[0] == Resolved(re)
    requires re.errs == [] && As(re.err, AMaxBytes) == MaxBytes(m)
    ensures BodyLimitResolver(WithDefaults(Aggregate(es))) == Some(TooLarge(MaxBytes(m)))
  {
    var w := WithDefaults(Aggregate(es));
    if |es| > 1 {
      var all := AllExposed(es);
      assert all[0] == re.err && all == [re.err] + all[1..];
      JoinFirst(re.err, all[1..], m);
    }
    HeardFirst(w.err, w.errs, m);
  }

  lemma HeardFirst(e: Err, es: seq<Err>, m: int)
    requires As(e, AMaxBytes) == MaxBytes(m)
    ensures AsFirst([e] + es, AMaxBytes) == MaxBytes(m)
  {
    assert ([e] + es)[0] == e;
  }

  lemma JoinFirst(e: Err, es: seq<Err>, m: int)
    requires As(e, AMaxBytes) == MaxBytes(m)
    ensures As(JoinErrors([e] + es), AMaxBytes) == MaxBytes(m)
  {
    NonNilConcat([e], es);
    OneError(e);
    HeardFirst(e, NonNil(es), m);
  }
}
