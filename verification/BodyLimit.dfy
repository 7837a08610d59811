/** The request body limit: limiting readers stacked on one body, and the context marker that says
    which limit is in force. */
module BodyLimit {
  import opened Basics
  import Errors

  // ---------------------------------------------------------------- reading

  datatype ReadError = NoError | Eof | Transport | TooLarge(limit: int)

  /** How the transport answers one read: how many bytes it is ready to hand over, and what it
      reports with them. End-of-file is only reported when nothing is left. */
  datatype Answer = Answer(ready: nat, report: ReadError)

  /** The state of one `http.MaxBytesReader`. */
  datatype Wrapper = Wrapper(limit: nat, left: nat, err: ReadError)

  /** The bytes the client sends, how many are consumed, and the readers on top, innermost first. */
  datatype Body = Body(data: seq<Byte>, pos: nat, wraps: seq<Wrapper>)

  datatype ReadResult = ReadResult(body: Body, bytes: seq<Byte>, err: ReadError)

  function Min(a: nat, b: nat): nat {
    if a < b then a else b
  }

  function ReadSource(b: Body, k: nat, a: Answer): ReadResult
    requires b.pos <= |b.data|
  {
    var n := Min(a.ready, Min(k, |b.data| - b.pos));
    var err := if a.report == Transport then Transport
               else if a.report == Eof && b.pos + n == |b.data| then Eof
               else NoError;
    ReadResult(b.(pos := b.pos + n), b.data[b.pos..b.pos + n], err)
  }

  function Inner(b: Body): Body
    requires b.wraps != []
  {
    b.(wraps := b.wraps[..|b.wraps| - 1])
  }

  function Outermost(b: Body): Wrapper
    requires b.wraps != []
  {
    b.wraps[|b.wraps| - 1]
  }

  function Wrap(b: Body, w: Wrapper): Body {
    b.(wraps := b.wraps + [w])
  }

  /** One `Read` of at most `k` bytes. A limiting reader asks for one byte more than it may deliver;
      an answer of that size is an overflow. Any error is kept and repeated. */
  function ReadBody(b: Body, k: nat, a: Answer): (r: ReadResult)
    requires b.pos <= |b.data|
    ensures r.body.data == b.data && r.body.pos <= |b.data| && |r.body.wraps| == |b.wraps|
    decreases |b.wraps|
  {
    if b.wraps == [] then ReadSource(b, k, a)
    else
      var w := Outermost(b);
      if w.err != NoError then ReadResult(b, [], w.err)
      else if k == 0 then ReadResult(b, [], NoError)
      else
        PassOn(w, ReadBody(Inner(b), Ask(w, k), a))
  }

  function Ask(w: Wrapper, k: nat): nat {
    if k - 1 > w.left then w.left + 1 else k
  }

  /** What a limiting reader makes of the answer from below it. */
  function PassOn(w: Wrapper, r: ReadResult): ReadResult {
    if |r.bytes| <= w.left then
      ReadResult(Wrap(r.body, w.(left := w.left - |r.bytes|, err := r.err)), r.bytes, r.err)
    else
      ReadResult(Wrap(r.body, w.(left := 0, err := TooLarge(w.limit))), r.bytes[..w.left], TooLarge(w.limit))
  }

  // ---------------------------------------------------------------- limiting

  /** The part of a request that limiting sees; `contentLength` is -1 when the client sent none. */
  datatype Req = Req(body: Body, marker: Option<int>, contentLength: int)

  /** `limitRequestBody` on the request, and whether it rejects. */
  function Limit(q: Req, maxBytes: int): (r: (Req, bool)) {
    if maxBytes <= 0 then (q, false)
    else if q.marker.Some? && maxBytes >= q.marker.value then (q, false)
    else if q.marker.None? && q.contentLength > maxBytes then (q, true)
    else
      (q.(body := Wrap(q.body, Wrapper(maxBytes, maxBytes, NoError)), marker := Some(maxBytes)), false)
  }

  datatype Op = LimitCall(maxBytes: int) | ReadCall(k: nat, answer: Answer)

  /** One request over a whole run: its state, the bytes its readers have received and the errors
      they were told, how much had been delivered when each wrapper was installed, and the positive
      limits that were not rejected. */
  datatype Trace = Trace(req: Req, delivered: seq<Byte>, reports: seq<ReadError>, since: seq<nat>, accepted: seq<int>)

  function Start(data: seq<Byte>, contentLength: int): Trace {
    Trace(Req(Body(data, 0, []), None, contentLength), [], [], [], [])
  }

  /** What a read adds to the run. */
  function Answered(t: Trace, r: ReadResult): Trace {
    t.(req := t.req.(body := r.body), delivered := t.delivered + r.bytes, reports := t.reports + [r.err])
  }

  function Step(t: Trace, op: Op): Trace
    requires t.req.body.pos <= |t.req.body.data|
  {
    match op
    case LimitCall(maxBytes) =>
      var (q, rejected) := Limit(t.req, maxBytes);
      t.(req := q,
         since := if |q.body.wraps| > |t.req.body.wraps| then t.since + [|t.delivered|] else t.since,
         accepted := if maxBytes > 0 && !rejected then t.accepted + [maxBytes] else t.accepted)
    case ReadCall(k, answer) =>
      Answered(t, ReadBody(t.req.body, k, answer))
  }

  function Run(t: Trace, ops: seq<Op>): (r: Trace)
    requires t.req.body.pos <= |t.req.body.data|
    ensures r.req.body.pos <= |r.req.body.data| && r.req.body.data == t.req.body.data
    decreases |ops|
  {
    if ops == [] then t else Step(Run(t, ops[..|ops| - 1]), ops[|ops| - 1])
  }

  lemma RunSnoc(t: Trace, ops: seq<Op>, op: Op)
    requires t.req.body.pos <= |t.req.body.data|
    ensures Run(t, ops + [op]) == Step(Run(t, ops), op)
  {
    assert (ops + [op])[..|ops|] == ops;
  }

  // ---------------------------------------------------------------- every run

  /** Some reader in the stack has failed; nothing more will come through. */
  ghost predicate Blocked(b: Body) {
    exists i :: 0 <= i < |b.wraps| && b.wraps[i].err != NoError
  }

  /** What one read through any stack keeps: the bytes are the next ones of the body, every wrapper
      pays for them, and bytes are only lost when a reader fails for good. */
  ghost predicate ReadKeeps(b: Body, k: nat, r: ReadResult) {
    && b.pos + |r.bytes| <= r.body.pos <= |b.data| == |r.body.data|
    && |r.bytes| <= k
    && r.bytes == b.data[b.pos..b.pos + |r.bytes|]
    && (Blocked(b) ==> r.bytes == [] && Blocked(r.body))
    && (r.body.pos == b.pos + |r.bytes| || Blocked(r.body))
    && |r.body.wraps| == |b.wraps|
    && (forall i :: 0 <= i < |b.wraps| ==> PaysFor(b.wraps[i], r.body.wraps[i], |r.bytes|))
    && (b.wraps != [] && r.err != NoError ==> Outermost(r.body).err == r.err)
  }

  predicate PaysFor(before: Wrapper, after: Wrapper, n: nat) {
    after.limit == before.limit && after.left + n <= before.left
  }

  lemma {:induction false} ReadLaw(b: Body, k: nat, a: Answer)
    requires b.pos <= |b.data|
    ensures ReadKeeps(b, k, ReadBody(b, k, a))
    decreases |b.wraps|
  {
    if b.wraps != [] {
      var w := Outermost(b);
      if w.err == NoError && k > 0 {
        var ask := Ask(w, k);
        ReadLaw(Inner(b), ask, a);
        PassOnKeeps(b, k, ask, ReadBody(Inner(b), ask, a));
      }
    }
  }

  lemma PassOnKeeps(b: Body, k: nat, ask: nat, inner: ReadResult)
    requires b.wraps != [] && Outermost(b).err == NoError && ask <= k
    requires b.pos <= |b.data| && ReadKeeps(Inner(b), ask, inner)
    ensures ReadKeeps(b, k, PassOn(Outermost(b), inner))
  {
    var w, r := Outermost(b), PassOn(Outermost(b), inner);
    BlockedWrap(Inner(b), w);
    assert Wrap(Inner(b), w) == b;
    BlockedWrap(inner.body, Outermost(r.body));
    assert Wrap(inner.body, Outermost(r.body)) == r.body;
    AllPay(b, inner, Outermost(r.body), |r.bytes|);
    assert r.bytes == inner.bytes[..|r.bytes|] == b.data[b.pos..b.pos + |inner.bytes|][..|r.bytes|];
  }

  lemma BlockedWrap(b: Body, w: Wrapper)
    ensures Blocked(Wrap(b, w)) <==> Blocked(b) || w.err != NoError
  {
    var all := Wrap(b, w).wraps;
    assert all[|b.wraps|] == w;
    assert forall i :: 0 <= i < |b.wraps| ==> all[i] == b.wraps[i];
  }

  lemma AllPay(b: Body, inner: ReadResult, w': Wrapper, n: nat)
    requires b.wraps != [] && |inner.body.wraps| == |b.wraps| - 1
    requires forall i :: 0 <= i < |b.wraps| - 1 ==> PaysFor(Inner(b).wraps[i], inner.body.wraps[i], |inner.bytes|)
    requires PaysFor(Outermost(b), w', n) && n <= |inner.bytes|
    ensures forall i :: 0 <= i < |b.wraps| ==> PaysFor(b.wraps[i], Wrap(inner.body, w').wraps[i], n)
  {
    forall i | 0 <= i < |b.wraps| ensures PaysFor(b.wraps[i], Wrap(inner.body, w').wraps[i], n) {
      if i < |b.wraps| - 1 {
        assert PaysFor(Inner(b).wraps[i], inner.body.wraps[i], |inner.bytes|);
      }
    }
  }

  ghost predicate Decreasing(wraps: seq<Wrapper>) {
    && (forall i :: 0 <= i < |wraps| ==> wraps[i].limit > 0)
    && (forall i, j :: 0 <= i < j < |wraps| ==> wraps[i].limit > wraps[j].limit)
  }

  /** The marker is the least accepted limit, and the outermost reader enforces it; a first limit below
      the declared length is never accepted. */
  ghost predicate MarkerSound(q: Req, accepted: seq<int>) {
    && Decreasing(q.body.wraps)
    && (forall x :: x in accepted ==> q.marker.Some? && q.marker.value <= x)
    && (accepted != [] ==> q.contentLength <= accepted[0])
    && match q.marker
       case None => q.body.wraps == []
       case Some(m) => m > 0 && m in accepted && q.body.wraps != [] && Outermost(q.body).limit == m
  }

  /** Each wrapper has let through at most its own limit since it was installed. */
  ghost predicate WithinLimits(t: Trace) {
    && |t.since| == |t.req.body.wraps|
    && forall i :: 0 <= i < |t.since| ==>
         var w := t.req.body.wraps[i];
         t.since[i] <= |t.delivered| && |t.delivered| - t.since[i] <= w.limit - w.left
  }

  ghost predicate Sound(t: Trace) {
    && t.req.body.pos <= |t.req.body.data|
    && MarkerSound(t.req, t.accepted)
    && WithinLimits(t)
    && |t.delivered| <= t.req.body.pos
    && t.delivered == t.req.body.data[..|t.delivered|]
    && (|t.delivered| == t.req.body.pos || Blocked(t.req.body))
  }

  /** Limits and reads in any order, from a fresh request: the marker is the least limit accepted,
      wrapper limits strictly decrease outwards and the outermost equals the marker, the bytes
      delivered are always a prefix of the body, and no wrapper exceeds its limit. */
  lemma {:induction false} EveryRunSound(data: seq<Byte>, contentLength: int, ops: seq<Op>)
    ensures Sound(Run(Start(data, contentLength), ops))
    decreases |ops|
  {
    if ops != [] {
      EveryRunSound(data, contentLength, ops[..|ops| - 1]);
      var t := Run(Start(data, contentLength), ops[..|ops| - 1]);
      match ops[|ops| - 1]
      case LimitCall(maxBytes) => LimitKeepsSound(t, maxBytes);
      case ReadCall(k, answer) => ReadKeepsSound(t, k, answer);
    }
  }

  lemma LimitKeepsSound(t: Trace, maxBytes: int)
    requires Sound(t)
    ensures Sound(Step(t, LimitCall(maxBytes)))
  {
    var (q, rejected) := Limit(t.req, maxBytes);
    if maxBytes > 0 && !rejected {
      LimitKeepsMarker(t.req, t.accepted, maxBytes);
    }
    if q != t.req {
      BlockedWrap(t.req.body, Wrapper(maxBytes, maxBytes, NoError));
      WrapKeepsWithin(t, maxBytes);
    }
  }

  lemma LimitKeepsMarker(q: Req, accepted: seq<int>, maxBytes: int)
    requires MarkerSound(q, accepted) && maxBytes > 0 && !Limit(q, maxBytes).1
    ensures MarkerSound(Limit(q, maxBytes).0, accepted + [maxBytes])
  {
    var r, wraps := Limit(q, maxBytes).0, q.body.wraps;
    if r != q {
      assert wraps != [] ==> wraps[|wraps| - 1] == Outermost(q.body);
      assert forall i :: 0 <= i < |wraps| ==> r.body.wraps[i] == wraps[i] && maxBytes < wraps[i].limit;
    }
  }

  lemma WrapKeepsWithin(t: Trace, limit: nat)
    requires WithinLimits(t)
    ensures WithinLimits(t.(req := t.req.(body := Wrap(t.req.body, Wrapper(limit, limit, NoError)),
                                          marker := Some(limit)),
                            since := t.since + [|t.delivered|]))
  {
  }

  lemma ReadKeepsSound(t: Trace, k: nat, answer: Answer)
    requires Sound(t)
    ensures Sound(Step(t, ReadCall(k, answer)))
  {
    ReadLaw(t.req.body, k, answer);
    var r := ReadBody(t.req.body, k, answer);
    var t' := Step(t, ReadCall(k, answer));
    assert forall i :: 0 <= i < |t.since| ==> PaysFor(t.req.body.wraps[i], r.body.wraps[i], |r.bytes|);
    if !Blocked(t.req.body) {
      assert t'.delivered == t.req.body.data[..|t'.delivered|];
    }
  }

  /** Asking again for a limit that is not stricter changes nothing. */
  lemma LooserLimitIsNoop(q: Req, maxBytes: int, again: int)
    requires maxBytes > 0 && !Limit(q, maxBytes).1 && again >= maxBytes
    ensures Limit(Limit(q, maxBytes).0, again) == (Limit(q, maxBytes).0, false)
  {
  }

  // ---------------------------------------------------------------- the first error

  /** The error of the outermost reader that has failed; those above it have not seen it yet. */
  function FirstError(b: Body): ReadError
    decreases |b.wraps|
  {
    if b.wraps == [] then NoError
    else if Outermost(b).err != NoError then Outermost(b).err
    else FirstError(Inner(b))
  }

  lemma FirstErrorWrap(b: Body, w: Wrapper)
    ensures FirstError(Wrap(b, w)) == if w.err != NoError then w.err else FirstError(b)
  {
    assert Inner(Wrap(b, w)) == b && Outermost(Wrap(b, w)) == w;
  }

  /** A failed stack answers every read that asks for bytes with its error, and hands over nothing. */
  lemma {:induction false} FailedRead(b: Body, k: nat, a: Answer)
    requires b.pos <= |b.data| && FirstError(b) != NoError
    ensures var r := ReadBody(b, k, a);
      && r.bytes == [] && r.body.pos == b.pos && FirstError(r.body) == FirstError(b)
      && (r.err == FirstError(b) || (k == 0 && r.err == NoError))
    decreases |b.wraps|
  {
    var w := Outermost(b);
    if w.err == NoError && k > 0 {
      FailedRead(Inner(b), Ask(w, k), a);
      var inner := ReadBody(Inner(b), Ask(w, k), a);
      FirstErrorWrap(inner.body, w.(left := w.left - |inner.bytes|, err := inner.err));
    }
  }

  lemma FailedStep(t: Trace, op: Op)
    requires t.req.body.pos <= |t.req.body.data| && FirstError(t.req.body) != NoError
    ensures var r := Step(t, op);
      && r.delivered == t.delivered && FirstError(r.req.body) == FirstError(t.req.body)
      && match op
         case LimitCall(_) => r.reports == t.reports
         case ReadCall(k, _) =>
           || r.reports == t.reports + [FirstError(t.req.body)]
           || (k == 0 && r.reports == t.reports + [NoError])
  {
    match op
    case LimitCall(maxBytes) =>
      if maxBytes > 0 {
        FirstErrorWrap(t.req.body, Wrapper(maxBytes, maxBytes, NoError));
      }
    case ReadCall(k, answer) => FailedRead(t.req.body, k, answer);
  }

  lemma {:induction false} FailedRun(t: Trace, ops: seq<Op>)
    requires t.req.body.pos <= |t.req.body.data| && FirstError(t.req.body) != NoError
    ensures var r := Run(t, ops);
      && r.delivered == t.delivered && FirstError(r.req.body) == FirstError(t.req.body)
      && t.reports <= r.reports
      && forall i :: |t.reports| <= i < |r.reports| ==>
           r.reports[i] == NoError || r.reports[i] == FirstError(t.req.body)
    decreases |ops|
  {
    if ops != [] {
      FailedRun(t, ops[..|ops| - 1]);
      FailedStep(Run(t, ops[..|ops| - 1]), ops[|ops| - 1]);
    }
  }

  /** The first error a reader of a limited body is told ends the body: whatever limits and reads
      follow, nothing more is delivered, and every later read that asks for bytes is told that error
      again. */
  lemma {:induction false} FirstErrorIsFinal(t: Trace, k: nat, a: Answer, ops: seq<Op>)
    requires t.req.body.pos <= |t.req.body.data| && t.req.body.wraps != []
    requires ReadBody(t.req.body, k, a).err != NoError
    ensures var told, e := Step(t, ReadCall(k, a)), ReadBody(t.req.body, k, a).err;
      var r := Run(told, ops);
      && r.delivered == told.delivered
      && (forall i :: |t.reports| <= i < |r.reports| ==> r.reports[i] == NoError || r.reports[i] == e)
      && (ops != [] && ops[|ops| - 1].ReadCall? && ops[|ops| - 1].k > 0 ==>
           r.reports != [] && r.reports[|r.reports| - 1] == e)
  {
    var told := Step(t, ReadCall(k, a));
    ReadLaw(t.req.body, k, a);
    FailedRun(told, ops);
    if ops != [] {
      var before := ops[..|ops| - 1];
      FailedRun(told, before);
      FailedStep(Run(told, before), ops[|ops| - 1]);
    }
  }

  // ---------------------------------------------------------------- which limit an overflow carries

  /** No reader has failed, and each has counted exactly what was delivered since it was installed. */
  ghost predicate Exact(b: Body, since: seq<nat>, delivered: nat) {
    && |since| == |b.wraps|
    && forall i :: 0 <= i < |since| ==>
         b.wraps[i].err == NoError && delivered - since[i] == b.wraps[i].limit - b.wraps[i].left
  }

  /** Exactly the reader's limit was delivered since it was installed. */
  predicate UsedUp(b: Body, since: seq<nat>, delivered: nat, i: nat)
    requires i < |since| == |b.wraps|
  {
    delivered - since[i] == b.wraps[i].limit
  }

  /** The innermost reader whose limit is used up has this limit. */
  ghost predicate Decides(b: Body, since: seq<nat>, delivered: nat, limit: int) {
    && |since| == |b.wraps|
    && exists j: nat ::
         && j < |since| && b.wraps[j].limit == limit && UsedUp(b, since, delivered, j)
         && forall i: nat :: i < j ==> !UsedUp(b, since, delivered, i)
  }

  /** What a read makes of a stack on which nothing has failed. */
  ghost predicate Tells(r: ReadResult, since: seq<nat>, delivered: nat) {
    && |since| == |r.body.wraps|
    && (r.err == NoError ==> Exact(r.body, since, delivered + |r.bytes|))
    && (r.err.TooLarge? ==> Decides(r.body, since, delivered + |r.bytes|, r.err.limit))
  }

  lemma {:induction false} ReadTells(b: Body, since: seq<nat>, delivered: nat, k: nat, a: Answer)
    requires b.pos <= |b.data| && Exact(b, since, delivered)
    ensures Tells(ReadBody(b, k, a), since, delivered)
    decreases |b.wraps|
  {
    if b.wraps != [] && k > 0 {
      var w, below := Outermost(b), since[..|since| - 1];
      assert Exact(Inner(b), below, delivered);
      assert w == b.wraps[|b.wraps| - 1];
      ReadTells(Inner(b), below, delivered, Ask(w, k), a);
      var inner := ReadBody(Inner(b), Ask(w, k), a);
      if |inner.bytes| <= w.left {
        TellsOn(b, since, delivered, inner);
      } else {
        ReadLaw(Inner(b), Ask(w, k), a);
        TellsOver(b, since, delivered, inner, Ask(w, k));
      }
    }
  }

  /** Readers with the same limits, and further ones on top, leave the decision as it was. */
  lemma DecidesOutward(b: Body, b': Body, since: seq<nat>, since': seq<nat>, delivered: nat, limit: int)
    requires Decides(b, since, delivered, limit)
    requires |since'| == |b'.wraps| && since <= since'
    requires forall i :: 0 <= i < |b.wraps| ==> b'.wraps[i].limit == b.wraps[i].limit
    ensures Decides(b', since', delivered, limit)
  {
    var j: nat :| j < |since| && b.wraps[j].limit == limit && UsedUp(b, since, delivered, j)
                  && forall i: nat :: i < j ==> !UsedUp(b, since, delivered, i);
    assert UsedUp(b', since', delivered, j);
    forall i: nat | i < j ensures !UsedUp(b', since', delivered, i) {
      assert !UsedUp(b, since, delivered, i);
    }
  }

  /** One more reader that has counted exactly. */
  lemma ExactWrap(b: Body, since: seq<nat>, delivered: nat, w: Wrapper, from: nat)
    requires Exact(b, since, delivered) && w.err == NoError && delivered - from == w.limit - w.left
    ensures Exact(Wrap(b, w), since + [from], delivered)
  {
    var all := Wrap(b, w).wraps;
    assert all[|b.wraps|] == w && forall i :: 0 <= i < |b.wraps| ==> all[i] == b.wraps[i];
  }

  lemma TellsOn(b: Body, since: seq<nat>, delivered: nat, inner: ReadResult)
    requires b.wraps != [] && Exact(b, since, delivered) && |inner.bytes| <= Outermost(b).left
    requires Tells(inner, since[..|since| - 1], delivered)
    ensures Tells(PassOn(Outermost(b), inner), since, delivered)
  {
    var w, below, n := Outermost(b), since[..|since| - 1], delivered + |inner.bytes|;
    var w' := w.(left := w.left - |inner.bytes|, err := inner.err);
    assert w == b.wraps[|b.wraps| - 1] && since == below + [since[|since| - 1]];
    if inner.err == NoError {
      ExactWrap(inner.body, below, n, w', since[|since| - 1]);
    }
    if inner.err.TooLarge? {
      DecidesOutward(inner.body, Wrap(inner.body, w'), below, since, n, inner.err.limit);
    }
  }

  lemma TellsOver(b: Body, since: seq<nat>, delivered: nat, inner: ReadResult, ask: nat)
    requires b.wraps != [] && Exact(b, since, delivered) && |inner.bytes| > Outermost(b).left
    requires b.pos <= |b.data| && ReadKeeps(Inner(b), ask, inner)
    ensures Tells(PassOn(Outermost(b), inner), since, delivered)
  {
    var w, r, last := Outermost(b), PassOn(Outermost(b), inner), |b.wraps| - 1;
    assert w == b.wraps[last];
    var n := delivered + |r.bytes|;
    assert UsedUp(r.body, since, n, last);
    forall i: nat | i < last ensures !UsedUp(r.body, since, n, i) {
      assert PaysFor(Inner(b).wraps[i], inner.body.wraps[i], |inner.bytes|);
      assert Inner(b).wraps[i] == b.wraps[i] && r.body.wraps[i] == inner.body.wraps[i];
    }
  }

  lemma {:induction false} ExactUnfailed(b: Body, since: seq<nat>, delivered: nat)
    requires Exact(b, since, delivered)
    ensures FirstError(b) == NoError
    decreases |b.wraps|
  {
    if b.wraps != [] {
      assert Outermost(b) == b.wraps[|b.wraps| - 1];
      ExactUnfailed(Inner(b), since[..|since| - 1], delivered);
    }
  }

  lemma LimitsKept(b: Body, k: nat, a: Answer)
    requires b.pos <= |b.data|
    ensures var r := ReadBody(b, k, a);
      forall i :: 0 <= i < |b.wraps| ==> r.body.wraps[i].limit == b.wraps[i].limit
  {
    ReadLaw(b, k, a);
    var r := ReadBody(b, k, a);
    assert forall i :: 0 <= i < |b.wraps| ==> PaysFor(b.wraps[i], r.body.wraps[i], |r.bytes|);
  }

  /** The error told to a reader of a limited body that had not failed is its first. */
  lemma FirstTold(b: Body, since: seq<nat>, delivered: nat, k: nat, a: Answer)
    requires b.pos <= |b.data| && Exact(b, since, delivered)
    requires Tells(ReadBody(b, k, a), since, delivered)
    ensures var r := ReadBody(b, k, a);
      FirstError(r.body) == if b.wraps == [] then NoError else r.err
  {
    var r := ReadBody(b, k, a);
    ReadLaw(b, k, a);
    if b.wraps != [] && r.err == NoError {
      ExactUnfailed(r.body, since, delivered + |r.bytes|);
    }
  }

  /** Readers count exactly until one fails; a stack that failed by overflow carries the limit that
      decided. */
  ghost predicate Standing(b: Body, since: seq<nat>, delivered: nat) {
    match FirstError(b)
    case NoError => Exact(b, since, delivered)
    case TooLarge(limit) => Decides(b, since, delivered, limit)
    case _ => |since| == |b.wraps|
  }

  lemma StandingWrap(b: Body, since: seq<nat>, delivered: nat, limit: nat)
    requires Standing(b, since, delivered)
    ensures var b' := Wrap(b, Wrapper(limit, limit, NoError));
      FirstError(b') == FirstError(b) && Standing(b', since + [delivered], delivered)
  {
    var w := Wrapper(limit, limit, NoError);
    FirstErrorWrap(b, w);
    if FirstError(b) == NoError {
      ExactWrap(b, since, delivered, w, delivered);
    }
    if FirstError(b).TooLarge? {
      DecidesOutward(b, Wrap(b, w), since, since + [delivered], delivered, FirstError(b).limit);
    }
  }

  /** How an answer leaves the readers and their first error. */
  ghost predicate Follows(b: Body, since: seq<nat>, delivered: nat, r: ReadResult) {
    && r.body.pos <= |r.body.data| && |r.body.wraps| == |b.wraps|
    && (forall i :: 0 <= i < |b.wraps| ==> r.body.wraps[i].limit == b.wraps[i].limit)
    && Standing(r.body, since, delivered + |r.bytes|)
    && (r.err.TooLarge? ==> FirstError(r.body) == r.err)
    && (FirstError(b) != NoError ==> FirstError(r.body) == FirstError(b))
    && (FirstError(r.body) == FirstError(b) || FirstError(r.body) == r.err)
  }

  lemma StandingRead(b: Body, since: seq<nat>, delivered: nat, k: nat, a: Answer)
    requires b.pos <= |b.data| && Standing(b, since, delivered)
    ensures Follows(b, since, delivered, ReadBody(b, k, a))
  {
    LimitsKept(b, k, a);
    if FirstError(b) == NoError {
      ReadTells(b, since, delivered, k, a);
      FirstTold(b, since, delivered, k, a);
    } else {
      FailedRead(b, k, a);
      FailedFollows(b, since, delivered, ReadBody(b, k, a));
    }
  }

  lemma FailedFollows(b: Body, since: seq<nat>, delivered: nat, r: ReadResult)
    requires Standing(b, since, delivered) && FirstError(b) != NoError
    requires r.body.pos <= |r.body.data| && |r.body.wraps| == |b.wraps|
    requires forall i :: 0 <= i < |b.wraps| ==> r.body.wraps[i].limit == b.wraps[i].limit
    requires r.bytes == [] && FirstError(r.body) == FirstError(b) && (r.err == FirstError(b) || r.err == NoError)
    ensures Follows(b, since, delivered, r)
  {
    if FirstError(b).TooLarge? {
      DecidesOutward(b, r.body, since, since, delivered, FirstError(b).limit);
    }
  }

  /** Over a run: the overflow of the first failure is reported, and no other. */
  ghost predicate Tracked(t: Trace) {
    var b := t.req.body;
    && b.pos <= |b.data| && Standing(b, t.since, |t.delivered|)
    && LimitsIn(b.wraps, t.accepted)
    && OnlyOverflow(FirstError(b), t.reports)
  }

  ghost predicate LimitsIn(wraps: seq<Wrapper>, accepted: seq<int>) {
    forall i :: 0 <= i < |wraps| ==> wraps[i].limit in accepted
  }

  /** If `first` is an overflow it is reported, and no other is. */
  ghost predicate OnlyOverflow(first: ReadError, reports: seq<ReadError>) {
    && (forall e :: e in reports && e.TooLarge? ==> e == first)
    && (first.TooLarge? ==> first in reports)
  }

  lemma OnlyOverflowSnoc(first: ReadError, next: ReadError, reports: seq<ReadError>, err: ReadError)
    requires OnlyOverflow(first, reports)
    requires err.TooLarge? ==> next == err
    requires first != NoError ==> next == first
    requires next == first || next == err
    ensures OnlyOverflow(next, reports + [err])
  {
    assert forall e :: e in reports + [err] <==> e in reports || e == err;
  }

  lemma LimitTracked(t: Trace, maxBytes: int)
    requires Tracked(t)
    ensures Tracked(Step(t, LimitCall(maxBytes)))
  {
    if Limit(t.req, maxBytes).0 != t.req {
      StandingWrap(t.req.body, t.since, |t.delivered|, maxBytes);
    }
  }

  lemma ReadTracked(t: Trace, k: nat, a: Answer)
    requires Tracked(t)
    ensures Tracked(Step(t, ReadCall(k, a)))
  {
    StandingRead(t.req.body, t.since, |t.delivered|, k, a);
    AnswerTracked(t, ReadBody(t.req.body, k, a));
  }

  lemma AnswerTracked(t: Trace, r: ReadResult)
    requires Tracked(t) && Follows(t.req.body, t.since, |t.delivered|, r)
    ensures Tracked(Answered(t, r))
  {
    OnlyOverflowSnoc(FirstError(t.req.body), FirstError(r.body), t.reports, r.err);
    assert LimitsIn(r.body.wraps, t.accepted) by {
      assert forall i :: 0 <= i < |r.body.wraps| ==> r.body.wraps[i].limit == t.req.body.wraps[i].limit;
    }
    TrackedFrom(t, r);
  }

  lemma TrackedFrom(t: Trace, r: ReadResult)
    requires r.body.pos <= |r.body.data| && LimitsIn(r.body.wraps, t.accepted)
    requires Standing(r.body, t.since, |t.delivered| + |r.bytes|)
    requires OnlyOverflow(FirstError(r.body), t.reports + [r.err])
    ensures Tracked(Answered(t, r))
  {
    assert |t.delivered + r.bytes| == |t.delivered| + |r.bytes|;
  }

  lemma {:induction false} RunKeeps(t: Trace, ops: seq<Op>)
    requires Sound(t) && Tracked(t)
    ensures Sound(Run(t, ops)) && Tracked(Run(t, ops))
    decreases |ops|
  {
    if ops != [] {
      RunKeeps(t, ops[..|ops| - 1]);
      var before := Run(t, ops[..|ops| - 1]);
      match ops[|ops| - 1]
      case LimitCall(maxBytes) =>
        LimitKeepsSound(before, maxBytes);
        LimitTracked(before, maxBytes);
      case ReadCall(k, answer) =>
        ReadKeepsSound(before, k, answer);
        ReadTracked(before, k, answer);
    }
  }

  // ---------------------------------------------------------------- told before the read

  /** No reader has failed. */
  predicate Open(b: Body) {
    forall i :: 0 <= i < |b.wraps| ==> b.wraps[i].err == NoError
  }

  /** How much of `n` bytes the readers let through. */
  function Through(b: Body, n: nat): nat
    decreases |b.wraps|
  {
    if b.wraps == [] then n else Min(Outermost(b).left, Through(Inner(b), n))
  }

  lemma {:induction false} ThroughMin(b: Body, n: nat, cap: nat)
    ensures Through(b, Min(n, cap)) == Min(cap, Through(b, n))
    decreases |b.wraps|
  {
    if b.wraps != [] {
      ThroughMin(Inner(b), n, cap);
    }
  }

  lemma {:induction false} ThroughLess(b: Body, n: nat)
    ensures Through(b, n) <= n
    ensures Through(b, n) < n <==> exists i :: 0 <= i < |b.wraps| && b.wraps[i].left < n
    decreases |b.wraps|
  {
    if b.wraps != [] {
      ThroughLess(Inner(b), n);
      assert b.wraps == Inner(b).wraps + [Outermost(b)];
      if Through(Inner(b), n) < n {
        var i :| 0 <= i < |Inner(b).wraps| && Inner(b).wraps[i].left < n;
        assert b.wraps[i].left < n;
      }
    }
  }

  /** A read of an open stack delivers what its readers let through of what the transport has for it, and
      overflows when that is not all. */
  lemma {:induction false} ReadCounts(b: Body, k: nat, a: Answer)
    requires b.pos <= |b.data| && Open(b)
    ensures Counts(b, |ReadSource(b, k, a).bytes|, ReadBody(b, k, a))
    decreases |b.wraps|
  {
    if b.wraps != [] {
      var w, n := Outermost(b), |ReadSource(b, k, a).bytes|;
      assert w == b.wraps[|b.wraps| - 1];
      ThroughLess(b, n);
      if k > 0 {
        ReadCounts(Inner(b), Ask(w, k), a);
        assert |ReadSource(Inner(b), Ask(w, k), a).bytes| == Min(n, w.left + 1);
        PassOnCounts(b, n, ReadBody(Inner(b), Ask(w, k), a));
      }
    }
  }

  /** `n` is what the transport has for the read. */
  predicate Counts(b: Body, n: nat, r: ReadResult) {
    |r.bytes| == Through(b, n) && (r.err.TooLarge? <==> Through(b, n) < n)
  }

  lemma PassOnCounts(b: Body, n: nat, inner: ReadResult)
    requires b.wraps != [] && Counts(Inner(b), Min(n, Outermost(b).left + 1), inner)
    ensures Counts(b, n, PassOn(Outermost(b), inner))
  {
    ThroughMin(Inner(b), n, Outermost(b).left + 1);
    ThroughLess(Inner(b), n);
  }

  /** The innermost of the readers with the fewest bytes left. */
  ghost predicate LeastLeft(b: Body, j: nat) {
    && j < |b.wraps|
    && (forall i :: 0 <= i < |b.wraps| ==> b.wraps[j].left <= b.wraps[i].left)
    && (forall i :: 0 <= i < j ==> b.wraps[j].left < b.wraps[i].left)
  }

  /** Every reader but the outermost has more bytes left than it. */
  predicate LessThanBelow(b: Body)
    requires b.wraps != []
  {
    forall i :: 0 <= i < |b.wraps| - 1 ==> b.wraps[i].left > Outermost(b).left
  }

  /** What the readers' counts tell before a read of an open stack: it overflows exactly when the
      transport has more for it than some reader has left, and then carries the limit of the innermost
      reader with the fewest bytes left. That is the outermost reader's exactly when all below it have
      more left. */
  lemma {:induction false} OverflowLimit(b: Body, k: nat, a: Answer)
    requires b.pos <= |b.data| && Open(b)
    ensures var r, n := ReadBody(b, k, a), |ReadSource(b, k, a).bytes|;
      && (r.err.TooLarge? <==> exists i :: 0 <= i < |b.wraps| && b.wraps[i].left < n)
      && (r.err.TooLarge? ==>
           exists j: nat :: LeastLeft(b, j) && r.err.limit == b.wraps[j].limit && |r.bytes| == b.wraps[j].left)
      && (r.err.TooLarge? && Decreasing(b.wraps) ==>
           b.wraps != [] && (r.err.limit == Outermost(b).limit <==> LessThanBelow(b)))
  {
    var r := ReadBody(b, k, a);
    ReadCounts(b, k, a);
    ThroughLess(b, |ReadSource(b, k, a).bytes|);
    if r.err.TooLarge? {
      var j := Overflowing(b, k, a);
      assert Outermost(b) == b.wraps[|b.wraps| - 1];
    }
  }

  lemma Overflowing(b: Body, k: nat, a: Answer) returns (j: nat)
    requires b.pos <= |b.data| && Open(b) && ReadBody(b, k, a).err.TooLarge?
    ensures LeastLeft(b, j)
    ensures ReadBody(b, k, a).err.limit == b.wraps[j].limit && |ReadBody(b, k, a).bytes| == b.wraps[j].left
  {
    var since := OpenIsExact(b);
    ReadTells(b, since, Total(b.wraps), k, a);
    ReadLaw(b, k, a);
    j := DecidedLeast(b, since, Total(b.wraps), k, ReadBody(b, k, a));
  }

  lemma DecidedLeast(b: Body, since: seq<nat>, delivered: nat, k: nat, r: ReadResult) returns (j: nat)
    requires Exact(b, since, delivered) && ReadKeeps(b, k, r) && Tells(r, since, delivered) && r.err.TooLarge?
    ensures LeastLeft(b, j) && r.err.limit == b.wraps[j].limit && |r.bytes| == b.wraps[j].left
  {
    var n := delivered + |r.bytes|;
    j :| j < |since| && r.body.wraps[j].limit == r.err.limit && UsedUp(r.body, since, n, j)
         && forall i: nat :: i < j ==> !UsedUp(r.body, since, n, i);
    forall i: nat | i < |b.wraps|
      ensures r.body.wraps[i].limit == b.wraps[i].limit && |r.bytes| <= b.wraps[i].left
      ensures UsedUp(r.body, since, n, i) <==> |r.bytes| == b.wraps[i].left
    {
      UsedUpNow(b, since, delivered, k, r, i);
    }
  }

  lemma UsedUpNow(b: Body, since: seq<nat>, delivered: nat, k: nat, r: ReadResult, i: nat)
    requires Exact(b, since, delivered) && ReadKeeps(b, k, r) && i < |b.wraps|
    ensures r.body.wraps[i].limit == b.wraps[i].limit && |r.bytes| <= b.wraps[i].left
    ensures UsedUp(r.body, since, delivered + |r.bytes|, i) <==> |r.bytes| == b.wraps[i].left
  {
    assert PaysFor(b.wraps[i], r.body.wraps[i], |r.bytes|);
    assert delivered - since[i] == b.wraps[i].limit - b.wraps[i].left;
  }

  function Total(wraps: seq<Wrapper>): nat {
    if wraps == [] then 0 else Total(wraps[..|wraps| - 1]) + wraps[|wraps| - 1].limit
  }

  lemma {:induction false} LimitsInTotal(wraps: seq<Wrapper>)
    ensures forall i :: 0 <= i < |wraps| ==> wraps[i].limit <= Total(wraps)
  {
    if wraps != [] {
      LimitsInTotal(wraps[..|wraps| - 1]);
      assert wraps == wraps[..|wraps| - 1] + [wraps[|wraps| - 1]];
    }
  }

  /** The counts of an open stack are those of some past. */
  lemma OpenIsExact(b: Body) returns (since: seq<nat>)
    requires Open(b)
    ensures Exact(b, since, Total(b.wraps))
  {
    LimitsInTotal(b.wraps);
    since := seq(|b.wraps|, i requires 0 <= i < |b.wraps| =>
      Total(b.wraps) - b.wraps[i].limit + b.wraps[i].left);
  }

  /** After limits and reads in any order: a reported overflow was first told by a read of an open stack. It
      carries an accepted limit, and the limit then in force exactly when every reader below the outermost
      had more bytes left than it. */
  lemma {:induction false} OverflowOrigin(data: seq<Byte>, contentLength: int, ops: seq<Op>, limit: int)
    returns (i: nat)
    requires TooLarge(limit) in Run(Start(data, contentLength), ops).reports
    ensures i < |ops| && ops[i].ReadCall?
    ensures ToldOpen(Run(Start(data, contentLength), ops[..i]), ops[i].k, ops[i].answer, limit)
  {
    i := FirstToldAt(Start(data, contentLength), ops, limit);
  }

  lemma {:induction false} FirstToldAt(t: Trace, ops: seq<Op>, limit: int) returns (i: nat)
    requires Sound(t) && Tracked(t)
    requires TooLarge(limit) !in t.reports && TooLarge(limit) in Run(t, ops).reports
    ensures i < |ops| && ops[i].ReadCall? && ToldOpen(Run(t, ops[..i]), ops[i].k, ops[i].answer, limit)
    decreases |ops|
  {
    var before := ops[..|ops| - 1];
    RunKeeps(t, before);
    if TooLarge(limit) in Run(t, before).reports {
      i := FirstToldAt(t, before, limit);
      assert before[..i] == ops[..i] && before[i] == ops[i];
    } else {
      i := |ops| - 1;
      FirstOverflow(Run(t, before), ops[i], limit);
    }
  }

  /** The read is told of the overflow although nothing had failed, with the limit the stack said. */
  ghost predicate ToldOpen(t: Trace, k: nat, a: Answer, limit: int) {
    var b := t.req.body;
    && b.pos <= |b.data| && Open(b) && ReadBody(b, k, a).err == TooLarge(limit)
    && limit in t.accepted && t.req.marker.Some? && b.wraps != []
    && (limit == t.req.marker.value <==> LessThanBelow(b))
  }

  lemma FirstOverflow(t: Trace, op: Op, limit: int)
    requires Sound(t) && Tracked(t)
    requires TooLarge(limit) !in t.reports && TooLarge(limit) in Step(t, op).reports
    ensures op.ReadCall? && ToldOpen(t, op.k, op.answer, limit)
  {
    assert op.ReadCall? && ReadBody(t.req.body, op.k, op.answer).err == TooLarge(limit);
    if FirstError(t.req.body) != NoError {
      FailedRead(t.req.body, op.k, op.answer);
    }
    AcceptedLimit(t, op.k, op.answer, limit);
  }

  lemma AcceptedLimit(t: Trace, k: nat, a: Answer, limit: int)
    requires Sound(t) && Tracked(t) && FirstError(t.req.body) == NoError
    requires ReadBody(t.req.body, k, a).err == TooLarge(limit)
    ensures ToldOpen(t, k, a, limit)
  {
    OverflowLimit(t.req.body, k, a);
    var j: nat :| LeastLeft(t.req.body, j) && limit == t.req.body.wraps[j].limit;
  }

  /** A reader installed over an open stack, and reads after it: an overflow carries the new limit exactly
      when every reader had more bytes left when it was installed. */
  lemma {:induction false} InstalledOver(data: seq<Byte>, contentLength: int, ops: seq<Op>, maxBytes: int,
                                         schedule: seq<Op>, limit: int)
    requires OnlyReads(schedule)
    requires var t := Run(Start(data, contentLength), ops);
      && FirstError(t.req.body) == NoError && Limit(t.req, maxBytes).0 != t.req
      && TooLarge(limit) in Run(Step(t, LimitCall(maxBytes)), schedule).reports
    ensures var wraps := Run(Start(data, contentLength), ops).req.body.wraps;
      limit == maxBytes <==> forall i :: 0 <= i < |wraps| ==> wraps[i].left > maxBytes
  {
    RunKeeps(Start(data, contentLength), ops);
    InstalledOn(Run(Start(data, contentLength), ops), maxBytes, schedule, limit);
  }

  lemma InstalledOn(t: Trace, maxBytes: int, schedule: seq<Op>, limit: int)
    requires Sound(t) && Tracked(t) && OnlyReads(schedule)
    requires FirstError(t.req.body) == NoError && Limit(t.req, maxBytes).0 != t.req
    requires TooLarge(limit) in Run(Step(t, LimitCall(maxBytes)), schedule).reports
    ensures limit == maxBytes <==>
            forall i :: 0 <= i < |t.req.body.wraps| ==> t.req.body.wraps[i].left > maxBytes
  {
    var installed := Step(t, LimitCall(maxBytes));
    LimitKeepsSound(t, maxBytes);
    LimitTracked(t, maxBytes);
    RunKeeps(installed, schedule);
    ReadsKeepLimits(installed, schedule);
    DecidedAtInstall(t, maxBytes, Run(installed, schedule), limit);
  }

  lemma {:induction false} ReadsKeepLimits(t: Trace, schedule: seq<Op>)
    requires OnlyReads(schedule) && t.req.body.pos <= |t.req.body.data|
    ensures SameReaders(t, Run(t, schedule))
    decreases |schedule|
  {
    if schedule != [] {
      var last := schedule[|schedule| - 1];
      assert last in schedule;
      ReadsKeepLimits(t, schedule[..|schedule| - 1]);
      LimitsKept(Run(t, schedule[..|schedule| - 1]).req.body, last.k, last.answer);
    }
  }

  ghost predicate SameReaders(t: Trace, u: Trace) {
    && u.since == t.since && |u.req.body.wraps| == |t.req.body.wraps|
    && forall i :: 0 <= i < |t.req.body.wraps| ==> u.req.body.wraps[i].limit == t.req.body.wraps[i].limit
  }

  lemma DecidedAtInstall(t: Trace, maxBytes: int, u: Trace, limit: int)
    requires Tracked(t) && FirstError(t.req.body) == NoError && Limit(t.req, maxBytes).0 != t.req
    requires Sound(u) && Tracked(u) && SameReaders(Step(t, LimitCall(maxBytes)), u)
    requires TooLarge(limit) in u.reports
    ensures limit == maxBytes <==>
            forall i :: 0 <= i < |t.req.body.wraps| ==> t.req.body.wraps[i].left > maxBytes
  {
    var b, n, last := u.req.body, |u.delivered|, |t.req.body.wraps|;
    assert FirstError(b) == TooLarge(limit);
    OutermostDecides(u, limit);
    assert b.wraps[last].limit == maxBytes && u.since[last] == |t.delivered| && n - u.since[last] <= maxBytes;
    forall i: nat | i < last
      ensures UsedUp(b, u.since, n, i) <==> n - |t.delivered| == t.req.body.wraps[i].left
      ensures n - |t.delivered| <= t.req.body.wraps[i].left
    {
      SpentSince(t, maxBytes, u, i);
    }
  }

  lemma OutermostDecides(u: Trace, limit: int)
    requires Decreasing(u.req.body.wraps) && Decides(u.req.body, u.since, |u.delivered|, limit)
    ensures var b, n, last := u.req.body, |u.delivered|, |u.since| - 1;
      && last >= 0
      && (limit == b.wraps[last].limit <==> forall i: nat :: i < last ==> !UsedUp(b, u.since, n, i))
      && (limit == b.wraps[last].limit ==> UsedUp(b, u.since, n, last))
  {
    var b, n, last := u.req.body, |u.delivered|, |u.since| - 1;
    var j: nat :| j < |u.since| && b.wraps[j].limit == limit && UsedUp(b, u.since, n, j)
                  && forall i: nat :: i < j ==> !UsedUp(b, u.since, n, i);
    assert j < last ==> b.wraps[j].limit > b.wraps[last].limit;
  }

  /** What a reader had left at the installation pays for what came after. */
  lemma SpentSince(t: Trace, maxBytes: int, u: Trace, i: nat)
    requires Tracked(t) && FirstError(t.req.body) == NoError && Limit(t.req, maxBytes).0 != t.req
    requires Sound(u) && SameReaders(Step(t, LimitCall(maxBytes)), u)
    requires i < |t.req.body.wraps|
    ensures var n, left := |u.delivered| - |t.delivered|, t.req.body.wraps[i].left;
      n <= left && (UsedUp(u.req.body, u.since, |u.delivered|, i) <==> n == left)
  {
    assert u.since[i] == t.since[i] && u.req.body.wraps[i].limit == t.req.body.wraps[i].limit;
    assert |u.delivered| - u.since[i] <= u.req.body.wraps[i].limit - u.req.body.wraps[i].left;
  }

  /** The limit carried can be another than the one in force: one byte read under a limit of two, then
      a limit of one. */
  lemma InnerOverflow(data: seq<Byte>, a: Answer)
    requires |data| >= 3 && a.ready >= 2 && a.report == NoError
    ensures var begun := Step(Step(Start(data, -1), LimitCall(2)), ReadCall(1, a));
      var t := Step(Step(begun, LimitCall(1)), ReadCall(2, a));
      t.req.marker == Some(1) && t.reports == [NoError, TooLarge(2)] && t.delivered == data[..2]
  {
    OneByteRead(data, a);
    OverflowAtTwo(data, a);
  }

  function OneByteUnderTwo(data: seq<Byte>): Trace
    requires |data| >= 3
  {
    Trace(Req(Body(data, 1, [Wrapper(2, 1, NoError)]), Some(2), -1), data[..1], [NoError], [0], [2])
  }

  lemma OneByteRead(data: seq<Byte>, a: Answer)
    requires |data| >= 3 && a.ready >= 2 && a.report == NoError
    ensures Step(Step(Start(data, -1), LimitCall(2)), ReadCall(1, a)) == OneByteUnderTwo(data)
  {
    var empty, w := Body(data, 0, []), Wrapper(2, 2, NoError);
    var limited := Trace(Req(Wrap(empty, w), Some(2), -1), [], [], [0], [2]);
    assert Step(Start(data, -1), LimitCall(2)) == limited;
    ReadWrapped(empty, w, 1, a);
    assert ReadSource(empty, 1, a) == ReadResult(Body(data, 1, []), data[..1], NoError);
    assert Step(limited, ReadCall(1, a)) == Answered(limited, PassOn(w, ReadSource(empty, 1, a)));
  }

  lemma OverflowAtTwo(data: seq<Byte>, a: Answer)
    requires |data| >= 3 && a.ready >= 2 && a.report == NoError
    ensures var t := Step(Step(OneByteUnderTwo(data), LimitCall(1)), ReadCall(2, a));
      t.req.marker == Some(1) && t.reports == [NoError, TooLarge(2)] && t.delivered == data[..2]
  {
    var one := OneByteUnderTwo(data).req.body;
    OverflowBelow(data, a);
    ReadWrapped(one, Wrapper(1, 1, NoError), 2, a);
    assert data[..1] + data[1..2] == data[..2];
  }

  lemma OverflowBelow(data: seq<Byte>, a: Answer)
    requires |data| >= 3 && a.ready >= 2 && a.report == NoError
    ensures ReadBody(OneByteUnderTwo(data).req.body, 2, a) ==
            ReadResult(Body(data, 3, [Wrapper(2, 0, TooLarge(2))]), data[1..2], TooLarge(2))
  {
    assert OneByteUnderTwo(data).req.body == Wrap(Body(data, 1, []), Wrapper(2, 1, NoError));
    ReadWrapped(Body(data, 1, []), Wrapper(2, 1, NoError), 2, a);
    assert data[1..3][..1] == data[1..2];
  }

  // ---------------------------------------------------------------- limits first, then reads

  /** No reader has failed, and every wrapper has counted exactly the bytes consumed. */
  ghost predicate InStep(b: Body) {
    forall i :: 0 <= i < |b.wraps| ==>
      b.wraps[i].err == NoError && b.wraps[i].left == b.wraps[i].limit - b.pos
  }

  /** Reads are told of no error until the first, and of that one ever after. */
  ghost predicate Sticky(reports: seq<ReadError>, err: ReadError) {
    && (forall i :: 0 <= i < |reports| ==> reports[i] == NoError || reports[i] == err)
    && (reports != [] ==> reports[|reports| - 1] == err)
    && (forall i, j :: 0 <= i < j < |reports| && reports[i] != NoError ==> reports[j] == reports[i])
  }

  /** A request on which limits were installed before any read, `m` the strictest: what the reads so
      far have delivered and reported is fixed by the body, `m` and where the reader stands. */
  ghost predicate Settled(t: Trace, m: nat) {
    var b, n := t.req.body, |t.req.body.data|;
    && b.wraps != [] && Decreasing(b.wraps) && Outermost(b).limit == m && b.pos <= n
    && Sticky(t.reports, Outermost(b).err)
    && match Outermost(b).err
       case NoError => InStep(b) && b.pos <= m && t.delivered == b.data[..b.pos]
       case Eof => n <= m && t.delivered == b.data
       case TooLarge(limit) => limit == m < n && t.delivered == b.data[..m]
       case Transport => |t.delivered| <= m && t.delivered <= b.data
  }

  /** The stack after a read that no wrapper had to cut short. */
  function Advanced(wraps: seq<Wrapper>, n: nat, err: ReadError): seq<Wrapper> {
    seq(|wraps|, i requires 0 <= i < |wraps| =>
      wraps[i].(left := if n <= wraps[i].left then wraps[i].left - n else 0, err := err))
  }

  /** What a read gets when no reader cuts it. */
  function Unhindered(b: Body, k: nat, a: Answer): ReadResult
    requires b.pos <= |b.data|
  {
    var s := ReadSource(b, k, a);
    ReadResult(s.body.(wraps := Advanced(b.wraps, |s.bytes|, s.err)), s.bytes, s.err)
  }

  ghost predicate HasRoom(b: Body, k: nat) {
    forall i :: 0 <= i < |b.wraps| ==> k <= b.wraps[i].left
  }

  /** A read that fits under every wrapper passes through the stack as if it were not there. */
  lemma {:induction false} ReadThrough(b: Body, k: nat, a: Answer)
    requires b.pos <= |b.data| && InStep(b) && k > 0
    requires HasRoom(b, k)
    ensures ReadBody(b, k, a) == Unhindered(b, k, a)
    decreases |b.wraps|
  {
    if b.wraps != [] {
      var w := Outermost(b);
      assert w == b.wraps[|b.wraps| - 1] && k <= w.left && w.err == NoError;
      ReadThrough(Inner(b), k, a);
      PassOnUnhindered(b, k, a);
    }
  }

  /** A reader with room passes on what gets through below it. */
  lemma PassOnUnhindered(b: Body, k: nat, a: Answer)
    requires b.pos <= |b.data| && b.wraps != [] && |ReadSource(b, k, a).bytes| <= Outermost(b).left
    ensures PassOn(Outermost(b), Unhindered(Inner(b), k, a)) == Unhindered(b, k, a)
  {
    var s := ReadSource(b, k, a);
    assert ReadSource(Inner(b), k, a) == ReadResult(s.body.(wraps := Inner(b).wraps), s.bytes, s.err);
    AdvancedSnoc(b, |s.bytes|, s.err);
  }

  lemma AdvancedSnoc(b: Body, n: nat, err: ReadError)
    requires b.wraps != [] && n <= Outermost(b).left
    ensures Advanced(b.wraps, n, err) ==
            Advanced(Inner(b).wraps, n, err) + [Outermost(b).(left := Outermost(b).left - n, err := err)]
  {
  }

  /** What the outermost reader asks of the stack below it always fits there. */
  lemma InnerHasRoom(b: Body)
    requires b.wraps != [] && Decreasing(b.wraps) && InStep(b)
    ensures InStep(Inner(b)) && HasRoom(Inner(b), Outermost(b).left + 1)
  {
    var last := |b.wraps| - 1;
    forall i | 0 <= i < last ensures Outermost(b).left + 1 <= Inner(b).wraps[i].left {
      assert b.wraps[i].limit > b.wraps[last].limit;
    }
  }

  lemma ReadUnder(b: Body, k: nat, a: Answer)
    requires b.pos <= |b.data| && b.wraps != [] && k > 0 && Outermost(b).err == NoError
    requires InStep(Inner(b)) && HasRoom(Inner(b), Outermost(b).left + 1)
    ensures var w := Outermost(b);
      ReadBody(b, k, a) == PassOn(w, Unhindered(Inner(b), Ask(w, k), a))
  {
    ReadThrough(Inner(b), Ask(Outermost(b), k), a);
  }

  /** One read while nothing has failed: the stack below answers as the body itself would. */
  lemma OutermostReads(b: Body, k: nat, a: Answer)
    requires b.pos <= |b.data| && b.wraps != [] && Decreasing(b.wraps) && InStep(b) && k > 0
    ensures var w := Outermost(b);
      ReadBody(b, k, a) == PassOn(w, Unhindered(Inner(b), Ask(w, k), a))
  {
    InnerHasRoom(b);
    ReadUnder(b, k, a);
  }

  /** So the outermost reader alone decides. */
  lemma ReadInStep(b: Body, k: nat, a: Answer)
    requires b.pos <= |b.data| && b.wraps != [] && Decreasing(b.wraps) && InStep(b) && k > 0
    ensures var w, s := Outermost(b), ReadSource(b, Ask(Outermost(b), k), a);
      if |s.bytes| <= w.left then ReadBody(b, k, a) == Unhindered(b, Ask(w, k), a)
      else Overflows(b, s.bytes, ReadBody(b, k, a))
  {
    OutermostReads(b, k, a);
    var w := Outermost(b);
    var s := ReadSource(b, Ask(w, k), a);
    if |s.bytes| <= w.left {
      PassOnUnhindered(b, Ask(w, k), a);
    }
  }

  /** The answer when one byte more came up than the outermost reader may deliver. */
  predicate Overflows(b: Body, bytes: seq<Byte>, r: ReadResult)
    requires b.wraps != []
  {
    var w := Outermost(b);
    && |bytes| == w.left + 1 && r.bytes == bytes[..w.left] && r.err == TooLarge(w.limit)
    && r.body.pos == b.pos + w.left + 1 && r.body.wraps != []
    && Outermost(r.body) == Wrapper(w.limit, 0, TooLarge(w.limit))
  }

  lemma AdvancedInStep(b: Body, n: nat)
    requires InStep(b) && HasRoom(b, n)
    ensures InStep(Body(b.data, b.pos + n, Advanced(b.wraps, n, NoError)))
  {
  }

  lemma SameLimits(before: seq<Wrapper>, after: seq<Wrapper>)
    requires Decreasing(before) && |after| == |before|
    requires forall i :: 0 <= i < |before| ==> after[i].limit == before[i].limit
    ensures Decreasing(after)
  {
  }

  lemma ReadKeepsSettled(t: Trace, m: nat, k: nat, a: Answer)
    requires Settled(t, m)
    ensures Settled(Step(t, ReadCall(k, a)), m)
  {
    var b := t.req.body;
    if Outermost(b).err == NoError && k > 0 {
      LimitsStay(b, k, a);
      ReadInStep(b, k, a);
      if |ReadSource(b, Ask(Outermost(b), k), a).bytes| <= Outermost(b).left {
        SettledWithin(t, m, Ask(Outermost(b), k), a);
      } else {
        SettledOver(t, m, k, a);
      }
    }
  }

  /** An open reader that is told `err` now. */
  lemma StickyNow(reports: seq<ReadError>, err: ReadError)
    requires Sticky(reports, NoError)
    ensures Sticky(reports + [err], err)
  {
  }

  lemma SettledOver(t: Trace, m: nat, k: nat, a: Answer)
    requires Settled(t, m) && k > 0 && Outermost(t.req.body).err == NoError
    requires LimitsAsBefore(t.req.body, ReadBody(t.req.body, k, a).body)
    requires var b := t.req.body;
      Overflows(b, ReadSource(b, Ask(Outermost(b), k), a).bytes, ReadBody(b, k, a))
    ensures Settled(Step(t, ReadCall(k, a)), m)
  {
    var b := t.req.body;
    var w, s := Outermost(b), ReadSource(b, Ask(Outermost(b), k), a);
    assert w == b.wraps[|b.wraps| - 1] && w.left == m - b.pos;
    PrefixExtends(b.data, b.pos, b.pos + |s.bytes|, w.left);
    StickyNow(t.reports, TooLarge(m));
  }

  lemma PrefixExtends(data: seq<Byte>, i: nat, j: nat, n: nat)
    requires i <= j <= |data| && n <= j - i
    ensures data[..i] + data[i..j][..n] == data[..i + n]
  {
  }

  ghost predicate LimitsAsBefore(b: Body, after: Body)
    requires b.wraps != []
  {
    Decreasing(after.wraps) && after.wraps != [] && Outermost(after).limit == Outermost(b).limit
  }

  lemma LimitsStay(b: Body, k: nat, a: Answer)
    requires b.pos <= |b.data| && b.wraps != [] && Decreasing(b.wraps)
    ensures LimitsAsBefore(b, ReadBody(b, k, a).body)
  {
    ReadLaw(b, k, a);
    var r := ReadBody(b, k, a);
    assert forall i :: 0 <= i < |b.wraps| ==> PaysFor(b.wraps[i], r.body.wraps[i], |r.bytes|);
    SameLimits(b.wraps, r.body.wraps);
  }

  lemma SettledWithin(t: Trace, m: nat, ask: nat, a: Answer)
    requires Settled(t, m) && Outermost(t.req.body).err == NoError
    requires |ReadSource(t.req.body, ask, a).bytes| <= Outermost(t.req.body).left
    requires LimitsAsBefore(t.req.body, Unhindered(t.req.body, ask, a).body)
    ensures Settled(Answered(t, Unhindered(t.req.body, ask, a)), m)
  {
    var b := t.req.body;
    var s := ReadSource(b, ask, a);
    PrefixExtends(b.data, b.pos, b.pos + |s.bytes|, |s.bytes|);
    StickyNow(t.reports, s.err);
    assert Outermost(b) == b.wraps[|b.wraps| - 1];
    if s.err == NoError {
      RoomBelow(b, |s.bytes|);
      AdvancedInStep(b, |s.bytes|);
    } else if s.err == Eof {
      assert b.data[..|b.data|] == b.data;
    }
  }

  /** What fits under the outermost reader fits under all. */
  lemma RoomBelow(b: Body, n: nat)
    requires b.wraps != [] && Decreasing(b.wraps) && InStep(b) && n <= Outermost(b).left
    ensures HasRoom(b, n)
  {
    InnerHasRoom(b);
    forall i | 0 <= i < |b.wraps| ensures n <= b.wraps[i].left {
      assert i < |b.wraps| - 1 ==> Inner(b).wraps[i] == b.wraps[i];
    }
  }

  // ---------------------------------------------------------------- whole runs

  ghost predicate OnlyLimits(ops: seq<Op>) {
    forall op :: op in ops ==> op.LimitCall?
  }

  ghost predicate OnlyReads(ops: seq<Op>) {
    forall op :: op in ops ==> op.ReadCall?
  }

  ghost predicate Unread(t: Trace) {
    && t.req.body.pos == 0 && t.delivered == [] && t.reports == []
    && forall i :: 0 <= i < |t.req.body.wraps| ==>
         t.req.body.wraps[i].err == NoError && t.req.body.wraps[i].left == t.req.body.wraps[i].limit
  }

  lemma {:induction false} LimitsLeaveUnread(data: seq<Byte>, contentLength: int, limits: seq<Op>)
    requires OnlyLimits(limits)
    ensures Unread(Run(Start(data, contentLength), limits))
    decreases |limits|
  {
    if limits != [] {
      assert limits[|limits| - 1] in limits;
      LimitsLeaveUnread(data, contentLength, limits[..|limits| - 1]);
    }
  }

  lemma {:induction false} ReadsStaySettled(t: Trace, m: nat, schedule: seq<Op>)
    requires Settled(t, m) && OnlyReads(schedule)
    ensures Settled(Run(t, schedule), m)
    decreases |schedule|
  {
    if schedule != [] {
      var last := schedule[|schedule| - 1];
      assert last in schedule;
      ReadsStaySettled(t, m, schedule[..|schedule| - 1]);
      ReadKeepsSettled(Run(t, schedule[..|schedule| - 1]), m, last.k, last.answer);
    }
  }

  /** Limits installed before any read, then any reads at all: with `m` the least limit accepted,
      what is delivered is a prefix of the body of at most `m` bytes. End-of-file means the whole
      body came through and fits; an overflow carries `m`, never another limit, and means exactly the
      first `m` bytes came through and more follow. The first error is repeated ever after. */
  lemma BodyLimitHolds(data: seq<Byte>, contentLength: int, limits: seq<Op>, schedule: seq<Op>)
    requires OnlyLimits(limits) && OnlyReads(schedule)
    requires Run(Start(data, contentLength), limits).accepted != []
    ensures var installed := Run(Start(data, contentLength), limits);
      var t := Run(installed, schedule);
      && installed.req.marker.Some?
      && var m := installed.req.marker.value;
      && m > 0 && m in installed.accepted && (forall x :: x in installed.accepted ==> m <= x)
      && |t.delivered| <= m && t.delivered <= data
      && (forall e :: e in t.reports ==>
           match e
           case Eof => |data| <= m && t.delivered == data
           case TooLarge(limit) => limit == m < |data| && t.delivered == data[..m]
           case _ => true)
      && t.req.body.wraps != [] && Sticky(t.reports, Outermost(t.req.body).err)
  {
    var installed := Run(Start(data, contentLength), limits);
    EveryRunSound(data, contentLength, limits);
    LimitsLeaveUnread(data, contentLength, limits);
    var m := installed.req.marker.value;
    ReadsStaySettled(installed, m, schedule);
    var t := Run(installed, schedule);
    forall e | e in t.reports ensures e == NoError || e == Outermost(t.req.body).err {
      var i :| 0 <= i < |t.reports| && t.reports[i] == e;
    }
  }

  /** A read by a consumer that wants bytes, answered by a transport that does not fail, has some while
      any are left, and then reports end-of-file, with the last byte or on the read after it. */
  predicate Honest(b: Body, op: Op) {
    && op.ReadCall? && op.k > 0 && op.answer.ready > 0 && op.answer.report != Transport
    && (b.pos == |b.data| ==> op.answer.report == Eof)
  }

  /** Every read of the schedule is, where it happens. */
  predicate HonestRun(t: Trace, schedule: seq<Op>)
    requires t.req.body.pos <= |t.req.body.data|
    decreases |schedule|
  {
    schedule != [] ==>
      var before := schedule[..|schedule| - 1];
      HonestRun(t, before) && Honest(Run(t, before).req.body, schedule[|schedule| - 1])
  }

  /** Such a read delivers something or ends the body. */
  lemma HonestStep(t: Trace, m: nat, op: Op)
    requires Settled(t, m) && Honest(t.req.body, op) && Outermost(t.req.body).err == NoError
    ensures var r := Step(t, op);
      Outermost(r.req.body).err != Transport
      && (Outermost(r.req.body).err == NoError ==> |r.delivered| > |t.delivered|)
  {
    var b := t.req.body;
    ReadInStep(b, op.k, op.answer);
    var w, s := Outermost(b), ReadSource(b, Ask(Outermost(b), op.k), op.answer);
    if |s.bytes| <= w.left {
      AdvancedSnoc(b, |s.bytes|, s.err);
    }
  }

  lemma {:induction false} HonestProgress(t: Trace, m: nat, schedule: seq<Op>)
    requires Settled(t, m) && Outermost(t.req.body).err == NoError
    requires HonestRun(t, schedule)
    ensures var r := Run(t, schedule);
      && Settled(r, m)
      && Outermost(r.req.body).err != Transport
      && |r.reports| == |t.reports| + |schedule|
      && (Outermost(r.req.body).err == NoError ==> |r.delivered| >= |t.delivered| + |schedule|)
    decreases |schedule|
  {
    if schedule != [] {
      var last := schedule[|schedule| - 1];
      HonestProgress(t, m, schedule[..|schedule| - 1]);
      var before := Run(t, schedule[..|schedule| - 1]);
      ReadKeepsSettled(before, m, last.k, last.answer);
      if Outermost(before.req.body).err == NoError {
        HonestStep(before, m, last);
      }
    }
  }

  /** A consumer that keeps reading is told how the body ended, after at most one read more than the
      bytes it may have: it then holds the body cut at the limit. */
  lemma ReadToEnd(data: seq<Byte>, contentLength: int, limits: seq<Op>, schedule: seq<Op>)
    requires OnlyLimits(limits) && HonestRun(Run(Start(data, contentLength), limits), schedule)
    requires Run(Start(data, contentLength), limits).accepted != []
    ensures var installed := Run(Start(data, contentLength), limits);
      var t := Run(installed, schedule);
      && installed.req.marker.Some? && installed.req.marker.value > 0
      && var m: nat := installed.req.marker.value;
      && |t.reports| == |schedule|
      && (|schedule| > Min(m, |data|) ==>
           && t.delivered == data[..Min(m, |data|)]
           && t.reports[|schedule| - 1] == if |data| <= m then Eof else TooLarge(m))
  {
    EveryRunSound(data, contentLength, limits);
    LimitsLeaveUnread(data, contentLength, limits);
    var installed := Run(Start(data, contentLength), limits);
    assert MarkerSound(installed.req, installed.accepted) && installed.accepted[0] in installed.accepted;
    HonestProgress(installed, installed.req.marker.value, schedule);
    assert data[..|data|] == data;
  }

  /** One reader on top of a stack, unfolded once. */
  lemma ReadWrapped(b: Body, w: Wrapper, k: nat, a: Answer)
    requires b.pos <= |b.data| && w.err == NoError && k > 0
    ensures ReadBody(Wrap(b, w), k, a) == PassOn(w, ReadBody(b, Ask(w, k), a))
  {
    assert Inner(Wrap(b, w)) == b && Outermost(Wrap(b, w)) == w;
  }

  // ---------------------------------------------------------------- the objects

  /** The client's end of the body. */
  class Source {
    const data: seq<Byte>
    var pos: nat

    constructor (data: seq<Byte>)
      ensures this.data == data && pos == 0
    {
      this.data := data;
      pos := 0;
    }

    method Read(k: nat, a: Answer) returns (bytes: seq<Byte>, err: ReadError)
      requires pos <= |data|
      modifies this
      ensures ReadSource(Body(data, old(pos), []), k, a) == ReadResult(Body(data, pos, []), bytes, err)
    {
      var n := Min(a.ready, Min(k, |data| - pos));
      bytes := data[pos..pos + n];
      pos := pos + n;
      if a.report == Transport {
        err := Transport;
      } else if a.report == Eof && pos == |data| {
        err := Eof;
      } else {
        err := NoError;
      }
    }
  }

  /** One `http.MaxBytesReader` on top of another, or of the source. */
  class MaxBytesReader {
    const limit: nat
    var left: nat
    var err: ReadError
    const source: Source
    const inner: MaxBytesReader?
    ghost const Repr: set<object>

    ghost predicate Valid()
      reads this, Repr
      decreases Repr
    {
      && this in Repr && source in Repr && source.pos <= |source.data|
      && (inner == null ==> Repr == {this, source})
      && (inner != null ==>
           && inner in Repr && Repr == {this} + inner.Repr && this !in inner.Repr
           && inner.source == source && inner.Valid())
    }

    ghost function View(): (b: Body)
      requires Valid()
      reads Repr
      ensures b.wraps != [] && b.data == source.data && b.pos == source.pos
      decreases Repr, 1
    {
      Wrap(Below(), Wrapper(limit, left, err))
    }

    ghost function Below(): (b: Body)
      requires Valid()
      reads Repr
      ensures b.data == source.data && b.pos == source.pos
      decreases Repr, 0
    {
      if inner == null then Body(source.data, source.pos, []) else inner.View()
    }

    method ReadBelow(k: nat, a: Answer) returns (bytes: seq<Byte>, e: ReadError)
      requires Valid()
      modifies Repr - {this}
      ensures Valid()
      ensures ReadBody(old(Below()), k, a) == ReadResult(Below(), bytes, e)
      decreases Repr, 0
    {
      if inner == null {
        bytes, e := source.Read(k, a);
      } else {
        bytes, e := inner.Read(k, a);
      }
    }

    constructor (source: Source, inner: MaxBytesReader?, limit: nat)
      requires source.pos <= |source.data|
      requires inner != null ==> inner.Valid() && inner.source == source
      ensures Valid() && this.source == source
      ensures fresh(Repr - (if inner == null then {source} else inner.Repr))
      ensures View() == Wrap(if inner == null then Body(source.data, source.pos, []) else inner.View(),
                             Wrapper(limit, limit, NoError))
    {
      this.source, this.inner, this.limit := source, inner, limit;
      left, err := limit, NoError;
      Repr := {this} + if inner == null then {source} else inner.Repr;
    }

    method Read(k: nat, a: Answer) returns (bytes: seq<Byte>, e: ReadError)
      requires Valid()
      modifies Repr
      ensures Valid()
      ensures ReadBody(old(View()), k, a) == ReadResult(View(), bytes, e)
      decreases Repr, 2
    {
      if err != NoError {
        return [], err;
      }
      if k == 0 {
        return [], NoError;
      }
      ReadWrapped(Below(), Wrapper(limit, left, NoError), k, a);
      bytes, e := ReadOpen(k, a);
    }

    /** A read that no earlier error stops. */
    method ReadOpen(k: nat, a: Answer) returns (bytes: seq<Byte>, e: ReadError)
      requires Valid() && err == NoError && k > 0
      modifies Repr
      ensures Valid()
      ensures var w := Wrapper(limit, old(left), NoError);
        ReadResult(View(), bytes, e) == PassOn(w, ReadBody(old(Below()), Ask(w, k), a))
      decreases Repr, 1
    {
      var ask := k;
      if k - 1 > left {
        ask := left + 1;
      }
      bytes, e := ReadBelow(ask, a);
      ghost var after := Below();
      bytes, e := Account(after, bytes, e);
      assert Below() == after;
    }

    /** The tail of a read: counting the bytes, or cutting them at the limit. */
    method Account(ghost b: Body, bytes: seq<Byte>, e: ReadError) returns (passed: seq<Byte>, told: ReadError)
      modifies `left, `err
      ensures PassOn(Wrapper(limit, old(left), old(err)), ReadResult(b, bytes, e)) ==
              ReadResult(Wrap(b, Wrapper(limit, left, err)), passed, told)
    {
      if |bytes| <= left {
        left := left - |bytes|;
        err := e;
        return bytes, e;
      }
      passed := bytes[..left];
      left := 0;
      err := TooLarge(limit);
      told := err;
    }
  }

  /** What the caller of `limitRequestBody` learns: nothing, an error to return, or that the response
      was already written. */
  datatype LimitResult = Accepted | Rejected(error: Errors.Err) | Written(response: Errors.Outcome)

  class Request {
    const source: Source
    var body: MaxBytesReader?
    var marker: Option<int>
    const contentLength: int

    ghost predicate Valid()
      reads this, source, body, if body == null then {} else body.Repr
    {
      source.pos <= |source.data| && (body != null ==> body.Valid() && body.source == source && this !in body.Repr)
    }

    ghost function View(): Req
      requires Valid()
      reads this, source, body, if body == null then {} else body.Repr
    {
      Req(if body == null then Body(source.data, source.pos, []) else body.View(), marker, contentLength)
    }

    constructor (source: Source, contentLength: int)
      requires source.pos == 0
      ensures Valid() && View() == Start(source.data, contentLength).req && body == null
    {
      this.source, this.contentLength := source, contentLength;
      body, marker := null, None;
    }

    /** `limitRequestBody`: without a response writer the rejection is returned as an error; with one
        it is answered at once. */
    method LimitBody(maxBytes: int, writer: bool, resolvers: seq<Errors.Resolver>) returns (res: LimitResult)
      requires Valid()
      modifies this
      ensures Valid() && View() == Limit(old(View()), maxBytes).0
      ensures res.Accepted? <==> !Limit(old(View()), maxBytes).1
      ensures !res.Accepted? ==> View() == old(View()) && 0 < maxBytes < contentLength && marker == None
      ensures res.Rejected? ==> !writer
      ensures res.Rejected? ==>
                res.error == Errors.Resolved(Errors.ResolvedError(Errors.MaxBytes(maxBytes), [], 413, Errors.Public))
      ensures res.Written? ==> writer
      ensures res.Written? ==>
                var e := Errors.ResolvedError(Errors.MaxBytes(maxBytes), [], 413, Errors.Unknown);
                res.response == Errors.Handling([Errors.Resolved(e)], resolvers)
    {
      if maxBytes <= 0 {
        return Accepted;
      }
      if marker.Some? {
        if maxBytes >= marker.value {
          return Accepted;
        }
      } else if contentLength > maxBytes {
        var tooBig := Errors.MaxBytes(maxBytes);
        if writer {
          var response := Errors.ErrorWithCode(413, [tooBig], resolvers);
          return Written(response);
        }
        return Rejected(Errors.Resolved(Errors.TooLarge(tooBig)));
      }
      body := new MaxBytesReader(source, body, maxBytes);
      marker := Some(maxBytes);
      return Accepted;
    }

    method Read(k: nat, a: Answer) returns (bytes: seq<Byte>, e: ReadError)
      requires Valid()
      modifies source, body, if body == null then {} else body.Repr
      ensures Valid() && body == old(body) && marker == old(marker)
      ensures ReadBody(old(View()).body, k, a) == ReadResult(View().body, bytes, e)
    {
      if body == null {
        bytes, e := source.Read(k, a);
      } else {
        bytes, e := body.Read(k, a);
      }
    }
  }
}
