/** `Bind` with the default decoders: which error leaves it, and what becomes of an overflow. */
module Bind {
  import opened Basics
  import opened Errors
  import BodyLimit

  /** What the form, JSON and multipart parsers and the validator answer when they are asked. Parsers
      read the limited body, so their answer may carry its overflow error. */
  datatype Answers = Answers(
    parseForm: Err, decodeQuery: Err, decodeJson: Err, parseMultipart: Err, decodeMultipart: Err,
    decodePost: Err, validate: Err)

  predicate TakesBody(httpMethod: string) {
    httpMethod == "POST" || httpMethod == "PUT" || httpMethod == "PATCH"
  }

  const JSON_TYPE := "application/json"
  const MULTIPART_TYPE := "multipart/form-data"

  /** `mapOutboundError`. */
  function MapOutbound(e: Err): Err {
    if e.Nil? then Nil
    else
      var r := As(e, AResolved);
      if r.Resolved? then
        match BodyLimitResolver(r.re)
        case Some(mapped) => Resolved(mapped)
        case None => r
      else
        match ResolveBodyLimit(e)
        case Some(mapped) => Resolved(mapped)
        case None => e
  }

  /** The decoder's answer before it is wrapped: the first failing parser asked. */
  function Decoded(httpMethod: string, contentType: string, a: Answers): Err {
    if !a.decodeQuery.Nil? || !TakesBody(httpMethod) then a.decodeQuery
    else if JSON_TYPE <= contentType then a.decodeJson
    else if MULTIPART_TYPE <= contentType then
      if a.parseMultipart.Nil? then a.decodeMultipart else a.parseMultipart
    else a.decodePost
  }

  /** The decoder comes to the JSON body. */
  predicate AsksJson(httpMethod: string, contentType: string, a: Answers) {
    a.decodeQuery.Nil? && TakesBody(httpMethod) && JSON_TYPE <= contentType
  }

  /** `DefaultRequestDecoder` around `DefaultJSONDecoder`, which limits the body once more. */
  method DecodeRequest(req: BodyLimit.Request, maxBytes: int, httpMethod: string, contentType: string, a: Answers)
    returns (e: Err)
    requires req.Valid()
    modifies req
    ensures req.Valid()
    ensures var (limited, rejected) := BodyLimit.Limit(old(req.View()), maxBytes);
      if AsksJson(httpMethod, contentType, a) then
        && req.View() == limited
        && e == Labelled(if rejected then Resolved(TooLarge(MaxBytes(maxBytes))) else a.decodeJson)
      else
        req.View() == old(req.View()) && e == Labelled(Decoded(httpMethod, contentType, a))
  {
    e := a.decodeQuery;
    if e.Nil? && TakesBody(httpMethod) {
      if JSON_TYPE <= contentType {
        var limited := req.LimitBody(maxBytes, false, []);
        if limited.Rejected? {
          e := limited.error;
        } else {
          e := a.decodeJson;
        }
      } else if MULTIPART_TYPE <= contentType {
        e := a.parseMultipart;
        if e.Nil? {
          e := a.decodeMultipart;
        }
      } else {
        e := a.decodePost;
      }
    }
    e := Labelled(e);
  }

  /** How the decoder labels an error it returns. */
  function Labelled(e: Err): Err {
    if e.Nil? then Nil
    else if As(e, AnInvalidDecoder) != Nil then
      Resolved(ResolvedError(e, [], STATUS_INTERNAL, Unknown))
    else Resolved(ResolvedError(e, [], STATUS_BAD_REQUEST, Public))
  }

  /** `Bind`. */
  method Bind(req: BodyLimit.Request, maxBytes: int, httpMethod: string, contentType: string, a: Answers)
    returns (e: Err)
    requires req.Valid()
    modifies req
    ensures req.Valid() && req.View() == BodyLimit.Limit(old(req.View()), maxBytes).0
    ensures e == Bound(BodyLimit.Limit(old(req.View()), maxBytes).1, maxBytes, httpMethod, contentType, a)
  {
    ghost var before := req.View();
    var limited := req.LimitBody(maxBytes, false, []);
    if limited.Rejected? {
      return limited.error;
    }
    if maxBytes > 0 {
      BodyLimit.LooserLimitIsNoop(before, maxBytes, maxBytes);
    }
    if !a.parseForm.Nil? {
      return Resolved(ResolvedError(a.parseForm, [], STATUS_BAD_REQUEST, Public));
    }
    e := DecodeRequest(req, maxBytes, httpMethod, contentType, a);
    if !e.Nil? {
      return MapOutbound(e);
    }
    e := a.validate;
  }

  /** The error leaving `Bind`. */
  function Bound(rejected: bool, maxBytes: int, httpMethod: string, contentType: string, a: Answers): Err {
    if rejected then Resolved(TooLarge(MaxBytes(maxBytes)))
    else if !a.parseForm.Nil? then Resolved(ResolvedError(a.parseForm, [], STATUS_BAD_REQUEST, Public))
    else
      var decoded := Labelled(Decoded(httpMethod, contentType, a));
      if decoded.Nil? then a.validate else MapOutbound(decoded)
  }

  /** The body overflowed: the request was rejected, or a parser that was asked met the limit. */
  predicate Overflowed(rejected: bool, httpMethod: string, contentType: string, a: Answers) {
    || rejected
    || Carries(a.parseForm)
    || (a.parseForm.Nil? && Carries(Decoded(httpMethod, contentType, a)))
  }

  /** A labelled overflow comes out of `mapOutboundError` as a public 413 of its own. */
  lemma LabelledOverflow(e: Err)
    ensures Carries(e) ==> MapOutbound(Labelled(e)) == Resolved(TooLarge(As(e, AMaxBytes)))
    ensures !Carries(e) ==> MapOutbound(Labelled(e)) == Labelled(e)
  {
    if !e.Nil? {
      assert Labelled(e).re.errs == [] && Labelled(e).re.err == e;
      assert [e] + [] == [e] && [e][0] == e;
      assert AsFirst([e][1..], AMaxBytes) == Nil;
    }
  }

  /** An overflow leaves `Bind` as a resolved error that carries it under its single error, labelled
      413 exactly when it was not met by `ParseForm`; and passing it to `Error`, alone or with other
      errors, answers a public 413 whatever resolvers were appended. */
  lemma OverflowLeavesBind(rejected: bool, maxBytes: int, httpMethod: string, contentType: string, a: Answers,
                           others: seq<Err>, appended: seq<Resolver>)
    requires Overflowed(rejected, httpMethod, contentType, a)
    ensures var e := Bound(rejected, maxBytes, httpMethod, contentType, a);
      && e.Resolved? && Carries(e.re.err) && e.re.visibility == Public
      && (e.re.statusCode == 413 <==> rejected || a.parseForm.Nil?)
      && NonNil([e] + others) != []
      && IsOverflowAnswer(Handling([e] + others, DefaultResolvers(appended)), Candidates(NonNil([e] + others)))
  {
    var e := Bound(rejected, maxBytes, httpMethod, contentType, a);
    if !rejected && a.parseForm.Nil? {
      LabelledOverflow(Decoded(httpMethod, contentType, a));
    }
    assert ([e] + others)[0] == e;
    PlainOrDirectIsSeen([e] + others, e);
    OverflowResolution([e] + others, appended);
  }

  /** A form that overflows leaves `Bind` labelled 400; only `Error` makes it a 413. */
  lemma FormOverflow(limit: int, maxBytes: int, contentType: string, a: Answers)
    requires a.parseForm == MaxBytes(limit)
    ensures Bound(false, maxBytes, "POST", contentType, a)
         == Resolved(ResolvedError(MaxBytes(limit), [], 400, Public))
    ensures Handling([Bound(false, maxBytes, "POST", contentType, a)], DefaultResolvers([]))
         == Handled(ResolvedError(MaxBytes(limit), [], 413, Public), 1)
  {
    FirstIsAnswered(ResolvedError(MaxBytes(limit), [], 400, Public), limit, [], []);
  }

  /** The answers of the parsers in the order `Bind` asks them: always for the form and the query, and, when
      the method takes a body, for what its content type says. */
  function AskedInOrder(httpMethod: string, contentType: string, a: Answers): seq<Err> {
    [a.parseForm, a.decodeQuery] +
    if httpMethod !in {"POST", "PUT", "PATCH"} then []
    else if "application/json" <= contentType then [a.decodeJson]
    else if "multipart/form-data" <= contentType then [a.parseMultipart, a.decodeMultipart]
    else [a.decodePost]
  }

  ghost predicate FirstFailure(asked: seq<Err>, i: nat) {
    i < |asked| && asked[i] != Nil && forall j :: 0 <= j < i ==> asked[j] == Nil
  }

  /** What `Bind` returns. For a rejected request it is a public 413 with the limit. When no parser asked
      fails, it is the validator's answer. Otherwise the first failure decides: of the form a public 400; of
      the others a public 413 around an overflow it carries, a 500 of unknown visibility for an invalid
      decoder, and a public 400 for the rest. */
  lemma {:induction false} BindAnswer(maxBytes: int, httpMethod: string, contentType: string, a: Answers)
    ensures var asked, e := AskedInOrder(httpMethod, contentType, a),
                            Bound(false, maxBytes, httpMethod, contentType, a);
      && Bound(true, maxBytes, httpMethod, contentType, a) ==
         Resolved(ResolvedError(MaxBytes(maxBytes), [], 413, Public))
      && ((forall i :: 0 <= i < |asked| ==> asked[i] == Nil) ==> e == a.validate)
      && (forall i: nat :: FirstFailure(asked, i) ==>
           e == Resolved(
             if i == 0 then ResolvedError(asked[i], [], 400, Public)
             else if As(asked[i], AMaxBytes) != Nil then ResolvedError(As(asked[i], AMaxBytes), [], 413, Public)
             else if As(asked[i], AnInvalidDecoder) != Nil then ResolvedError(asked[i], [], 500, Unknown)
             else ResolvedError(asked[i], [], 400, Public)))
  {
    var asked := AskedInOrder(httpMethod, contentType, a);
    DecodedInOrder(httpMethod, contentType, a);
    LabelledOverflow(Decoded(httpMethod, contentType, a));
    forall i: nat | FirstFailure(asked, i) && i > 0
      ensures a.parseForm == Nil && Decoded(httpMethod, contentType, a) == asked[i]
    {
      assert asked[0] == a.parseForm;
    }
    if forall i :: 0 <= i < |asked| ==> asked[i] == Nil {
      assert asked[0] == a.parseForm;
    }
  }

  lemma DecodedInOrder(httpMethod: string, contentType: string, a: Answers)
    ensures var asked, e := AskedInOrder(httpMethod, contentType, a), Decoded(httpMethod, contentType, a);
      && ((forall i :: 1 <= i < |asked| ==> asked[i] == Nil) ==> e == Nil)
      && (forall i: nat :: FirstFailure(asked, i) && i > 0 ==> e == asked[i])
  {
    var asked := AskedInOrder(httpMethod, contentType, a);
    assert TakesBody(httpMethod) <==> httpMethod in {"POST", "PUT", "PATCH"};
    if !TakesBody(httpMethod) {
      assert asked == [a.parseForm, a.decodeQuery];
    } else if "application/json" <= contentType {
      assert asked == [a.parseForm, a.decodeQuery, a.decodeJson];
    } else if "multipart/form-data" <= contentType {
      assert asked == [a.parseForm, a.decodeQuery, a.parseMultipart, a.decodeMultipart];
      assert asked[2] == a.parseMultipart && asked[3] == a.decodeMultipart;
    } else {
      assert asked == [a.parseForm, a.decodeQuery, a.decodePost];
    }
    forall i: nat | FirstFailure(asked, i) && i > 0
      ensures Decoded(httpMethod, contentType, a) == asked[i]
    {
      assert i > 1 ==> asked[1] == Nil;
      assert i > 2 ==> asked[2] == Nil;
    }
    if forall i :: 1 <= i < |asked| ==> asked[i] == Nil {
      assert asked[1] == Nil;
      assert |asked| > 2 ==> asked[2] == Nil;
      assert |asked| > 3 ==> asked[3] == Nil;
    }
  }

  /** Nothing but a body overflow, or a validator's own, leaves `Bind` looking like one. */
  lemma NoFalseOverflow(rejected: bool, maxBytes: int, httpMethod: string, contentType: string, a: Answers)
    requires Carries(Bound(rejected, maxBytes, httpMethod, contentType, a))
    ensures Overflowed(rejected, httpMethod, contentType, a) || Carries(a.validate)
  {
    if !rejected && a.parseForm.Nil? {
      LabelledOverflow(Decoded(httpMethod, contentType, a));
    }
  }

  // ---------------------------------------------------------------- from the body to the answer

  /** The error of the first parser asked that fails. */
  function ParserError(httpMethod: string, contentType: string, a: Answers): Err {
    if a.parseForm.Nil? then Decoded(httpMethod, contentType, a) else a.parseForm
  }

  /** The request once `Bind` has limited it, after earlier limits. */
  function Limited(data: seq<Byte>, contentLength: int, earlier: seq<BodyLimit.Op>, maxBytes: int): (t: BodyLimit.Trace)
    ensures t.req.body.pos <= |t.req.body.data| && t.req.body.data == data
  {
    var before := BodyLimit.Run(BodyLimit.Start(data, contentLength), earlier);
    BodyLimit.Step(before, BodyLimit.LimitCall(maxBytes))
  }

  /** The reads go on past the limit in force, in a body that does too. */
  predicate ReadsPastLimit(t: BodyLimit.Trace, schedule: seq<BodyLimit.Op>)
    requires t.req.body.pos <= |t.req.body.data|
  {
    && BodyLimit.HonestRun(t, schedule)
    && t.req.marker.Some? && t.req.marker.value < |t.req.body.data| && t.req.marker.value < |schedule|
  }

  /** The overflow the last read was told of is the one the parser's error carries, however wrapped. */
  ghost predicate Passes(reports: seq<BodyLimit.ReadError>, e: Err) {
    forall limit :: reports != [] && reports[|reports| - 1] == BodyLimit.TooLarge(limit) ==>
      As(e, AMaxBytes) == MaxBytes(limit)
  }

  /** A body longer than the least limit, that of `Bind` and those before it, read past it by a parser that
      returns the last read's error: `Bind`'s error, passed on first, is answered by a public 413 around
      that limit. */
  lemma {:induction false} LongBodyAnswered(data: seq<Byte>, contentLength: int, earlier: seq<BodyLimit.Op>,
                                            maxBytes: int, schedule: seq<BodyLimit.Op>, httpMethod: string,
                                            contentType: string, a: Answers, others: seq<Err>,
                                            appended: seq<Resolver>)
    requires BodyLimit.OnlyLimits(earlier)
    requires var installed := Limited(data, contentLength, earlier, maxBytes);
      && ReadsPastLimit(installed, schedule)
      && Passes(BodyLimit.Run(installed, schedule).reports, ParserError(httpMethod, contentType, a))
    ensures var installed := Limited(data, contentLength, earlier, maxBytes);
      var e, m := Bound(false, maxBytes, httpMethod, contentType, a), installed.req.marker.value;
      && m in installed.accepted && (forall x :: x in installed.accepted ==> m <= x)
      && Handling([e] + others, DefaultResolvers(appended)) == Handled(ResolvedError(MaxBytes(m), [], 413, Public), 1)
  {
    var limits, start := earlier + [BodyLimit.LimitCall(maxBytes)], BodyLimit.Start(data, contentLength);
    var installed := Limited(data, contentLength, earlier, maxBytes);
    BodyLimit.RunSnoc(start, earlier, BodyLimit.LimitCall(maxBytes));
    assert installed == BodyLimit.Run(start, limits);
    BodyLimit.EveryRunSound(data, contentLength, limits);
    BodyLimit.ReadToEnd(data, contentLength, limits, schedule);
    var m := installed.req.marker.value;
    OverflowBound(maxBytes, httpMethod, contentType, a, m);
    FirstIsAnswered(Bound(false, maxBytes, httpMethod, contentType, a).re, m, others, appended);
  }

  lemma OverflowBound(maxBytes: int, httpMethod: string, contentType: string, a: Answers, m: int)
    requires As(ParserError(httpMethod, contentType, a), AMaxBytes) == MaxBytes(m)
    ensures var e := Bound(false, maxBytes, httpMethod, contentType, a);
      e.Resolved? && e.re.errs == [] && As(e.re.err, AMaxBytes) == MaxBytes(m)
  {
    if a.parseForm.Nil? {
      LabelledOverflow(Decoded(httpMethod, contentType, a));
    }
  }
}
