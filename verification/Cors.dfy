/** The CORS configuration and its two handlers. */
module Cors {
  import opened Http
  import opened Strings
  import Text
  import Glob

  datatype Req = Req(httpMethod: string, header: Header)

  function JoinWith(parts: seq<string>, sep: string): string {
    if parts == [] then ""
    else if |parts| == 1 then parts[0]
    else JoinWith(parts[..|parts| - 1], sep) + sep + parts[|parts| - 1]
  }

  // ---------------------------------------------------------------- configuration

  /** `AllowOriginFunc`: not set, one of the two that `Validate` installs, or the user's own. */
  datatype OriginFunc = Unset | AllowAll | MatchOrigins | Custom(f: (Req, string) -> (seq<string>, bool))

  datatype Config = Config(
    allowedOrigins: seq<string>, originFunc: OriginFunc, allowedMethods: seq<string>,
    allowedHeaders: seq<string>, exposedHeaders: seq<string>, maxAge: int,
    allowCredentials: bool, allowPrivateNetwork: bool, preflightStatus: int,
    allowsAllOrigins: bool, allowsAllHeaders: bool,
    exposedValue: seq<string>, preflightVary: seq<string>, maxAgeSeconds: seq<string>)

  function MapStrings(s: seq<string>, fns: seq<string -> string>): (r: seq<string>)
    ensures |r| == |s|
  {
    seq(|s|, i requires 0 <= i < |s| => Text.ApplyAll(fns, s[i]))
  }

  function Normalizers(env: Platform): seq<string -> string> {
    [(s: string) => MapChars(env.lower, s), (s: string) => TrimSpace(s)]
  }

  const DEFAULT_METHODS := ["GET", "HEAD", "POST"]
  const DEFAULT_HEADERS := ["Accept", "Content-Type", "Origin"]
  const PREFLIGHT_VARY := "Origin, Access-Control-Request-Method, Access-Control-Request-Headers"
  const PRIVATE_VARY := ", Access-Control-Request-Private-Network"
  const SECOND := 1_000_000_000

  function OriginsOf(env: Platform, c: Config): seq<string> {
    var mapped := MapStrings(c.allowedOrigins, Normalizers(env));
    if c.originFunc.Unset? && |mapped| == 0 then ["*"] else mapped
  }

  function OriginFuncOf(env: Platform, c: Config): OriginFunc {
    if !c.originFunc.Unset? then c.originFunc else if "*" in OriginsOf(env, c) then AllowAll else MatchOrigins
  }

  function HeadersOf(env: Platform, c: Config): seq<string> {
    MapStrings(if |c.allowedHeaders| == 0 then DEFAULT_HEADERS else c.allowedHeaders, [env.canonical])
  }

  function PreflightVary(privateNetwork: bool): string {
    if privateNetwork then PREFLIGHT_VARY + PRIVATE_VARY else PREFLIGHT_VARY
  }

  function MaxAgeOf(env: Platform, maxAge: int, before: seq<string>): seq<string> {
    if maxAge > 0 then [env.itoa(maxAge / SECOND)] else if maxAge < 0 then ["0"] else before
  }

  /** What `Validate` makes of a configuration. */
  function Validated(env: Platform, c: Config): Config {
    var exposed := MapStrings(c.exposedHeaders, [env.canonical]);
    c.(allowedOrigins := OriginsOf(env, c),
       originFunc := OriginFuncOf(env, c),
       allowedMethods := if |c.allowedMethods| == 0 then DEFAULT_METHODS else c.allowedMethods,
       allowedHeaders := HeadersOf(env, c),
       exposedHeaders := exposed,
       preflightStatus := if c.preflightStatus == 0 then 204 else c.preflightStatus,
       allowsAllOrigins := "*" in OriginsOf(env, c),
       allowsAllHeaders := "*" in HeadersOf(env, c),
       exposedValue := [JoinWith(exposed, ", ")],
       preflightVary := [PreflightVary(c.allowPrivateNetwork)],
       maxAgeSeconds := MaxAgeOf(env, c.maxAge, c.maxAgeSeconds))
  }

  /** `AllowOriginFunc(r, origin)`: headers to vary on, and whether the origin is allowed. */
  ghost function OriginAnswer(c: Config, r: Req, origin: string): (seq<string>, bool) {
    match c.originFunc
    case Custom(f) => f(r, origin)
    case AllowAll => ([], true)
    case _ => ([], exists i :: 0 <= i < |c.allowedOrigins| && Glob.Accepts(origin, c.allowedOrigins[i]))
  }

  // ---------------------------------------------------------------- the handlers

  /** The header names a preflight asks for. */
  function RequestedHeaders(env: Platform, r: Req): seq<string> {
    MapStrings(Text.SplitAll(Values(r.header, Field.RequestHeaders), ','), [(s: string) => TrimSpace(s), env.canonical])
  }

  ghost predicate HeadersAllowed(env: Platform, c: Config, r: Req) {
    Field.RequestHeaders in r.header && !c.allowsAllHeaders ==>
      forall i :: 0 <= i < |RequestedHeaders(env, r)| ==> RequestedHeaders(env, r)[i] in c.allowedHeaders
  }

  ghost predicate PreflightGrants(env: Platform, c: Config, r: Req, origin: string) {
    && origin != "" && OriginAnswer(c, r, origin).1
    && Get(r.header, Field.RequestMethod) != "OPTIONS" && Get(r.header, Field.RequestMethod) in c.allowedMethods
    && HeadersAllowed(env, c, r)
  }

  ghost predicate RequestGrants(c: Config, r: Req, origin: string) {
    && origin != "" && OriginAnswer(c, r, origin).1
    && (r.httpMethod == "OPTIONS" || r.httpMethod in c.allowedMethods)
  }

  function AddVary(env: Platform, h: Header, vary: seq<string>): Header {
    if vary == [] then h
    else h[Field.Vary := Values(h, Field.Vary) + [JoinWith(MapStrings(vary, [env.canonical]), ", ")]]
  }

  function AllowedOriginValue(c: Config, r: Req): seq<string> {
    if c.allowsAllOrigins then ["*"] else Values(r.header, Field.Origin)
  }

  function SetIf(h: Header, on: bool, key: Field, value: seq<string>): Header {
    if on then h[key := value] else h
  }

  /** Requests as the server hands them over: a header that is present has a line. */
  predicate WellFormed(r: Req) {
    Field.RequestHeaders in r.header ==> r.header[Field.RequestHeaders] != []
  }

  lemma RequestedHeadersCount(env: Platform, r: Req)
    requires WellFormed(r) && Field.RequestHeaders in r.header
    ensures |RequestedHeaders(env, r)| > 0
  {
    Text.SplitOfJoin(r.header[Field.RequestHeaders], ',');
  }

  /** The response header after `handlePreflight`. */
  ghost function PreflightFields(env: Platform, c: Config, r: Req, origin: string, h: Header): Header
    requires WellFormed(r) && |c.preflightVary| == 1
  {
    var varied := AddVary(env, h[Field.Vary := Values(h, Field.Vary) + c.preflightVary], OriginAnswer(c, r, origin).0);
    if !PreflightGrants(env, c, r, origin) then varied
    else GrantFields(env, c, r, varied)
  }

  /** The header a granted preflight is answered with. */
  ghost function GrantFields(env: Platform, c: Config, r: Req, varied: Header): Header
    requires WellFormed(r)
  {
    var asked := RequestedHeaders(env, r);
    var h0 := varied[Field.AllowOrigin := AllowedOriginValue(c, r)];
    var h1 := h0[Field.AllowMethods := Values(r.header, Field.RequestMethod)];
    var named := Field.RequestHeaders in r.header && (RequestedHeadersCount(env, r); asked[0] != "");
    var h2 := SetIf(h1, named, Field.AllowHeaders, asked);
    var h3 := SetIf(h2, c.allowCredentials, Field.AllowCredentials, ["true"]);
    var private := c.allowPrivateNetwork && Get(r.header, Field.RequestPrivateNetwork) == "true";
    var h4 := SetIf(h3, private, Field.AllowPrivateNetwork, ["true"]);
    SetIf(h4, |c.maxAgeSeconds| > 0, Field.MaxAge, c.maxAgeSeconds)
  }

  /** The response header after `handleRequest`. */
  ghost function RequestFields(env: Platform, c: Config, r: Req, origin: string, h: Header): Header {
    var varied := AddVary(env, h[Field.Vary := Values(h, Field.Vary) + ["Origin"]], OriginAnswer(c, r, origin).0);
    if !RequestGrants(c, r, origin) then varied
    else
      var h1 := varied[Field.AllowOrigin := AllowedOriginValue(c, r)];
      var h2 := SetIf(h1, |c.exposedValue| > 0, Field.ExposeHeaders, c.exposedValue);
      SetIf(h2, c.allowCredentials, Field.AllowCredentials, ["true"])
  }

  // ---------------------------------------------------------------- what they decide

  /** The origin is accepted by one of the patterns. */
  ghost predicate SomeAccepts(patterns: seq<string>, origin: string) {
    exists i :: 0 <= i < |patterns| && Glob.Accepts(origin, patterns[i])
  }

  /** After `Validate` with a built-in origin function, whether installed by this call or an earlier one,
      an origin is allowed exactly when some pattern accepts it, or when the function that allows all
      was installed before. */
  lemma OriginDecision(env: Platform, c: Config, r: Req, origin: string)
    requires !c.originFunc.Custom?
    ensures var v := Validated(env, c);
      && OriginAnswer(v, r, origin).0 == []
      && (OriginAnswer(v, r, origin).1 <==> c.originFunc.AllowAll? || SomeAccepts(v.allowedOrigins, origin))
  {
    var v := Validated(env, c);
    if c.originFunc.Unset? && v.originFunc.AllowAll? {
      StarAccepts(v.allowedOrigins, origin);
    }
  }

  lemma StarAccepts(patterns: seq<string>, origin: string)
    requires "*" in patterns
    ensures SomeAccepts(patterns, origin)
  {
    var i :| 0 <= i < |patterns| && patterns[i] == "*";
    Glob.StarAcceptsAll(origin);
    Glob.ExactWithoutLeadingLiteral(origin, "*");
    assert Glob.Accepts(origin, patterns[i]);
  }

  /** When no pattern's literals can overlap, these are exactly the origins of the patterns' languages. */
  lemma OriginLanguage(env: Platform, c: Config, r: Req, origin: string)
    requires !c.originFunc.Custom?
    requires forall i :: 0 <= i < |Validated(env, c).allowedOrigins| ==> Glob.Exact(Validated(env, c).allowedOrigins[i])
    ensures var origins := Validated(env, c).allowedOrigins;
      OriginAnswer(Validated(env, c), r, origin).1 <==>
      c.originFunc.AllowAll? || exists i :: 0 <= i < |origins| && Glob.Matches(origin, origins[i])
  {
    OriginDecision(env, c, r, origin);
    var origins := Validated(env, c).allowedOrigins;
    forall i | 0 <= i < |origins|
      ensures Glob.Accepts(origin, origins[i]) <==> Glob.Matches(origin, origins[i])
    {
      Glob.ExactPatterns(origins[i]);
    }
  }

  /** A configured origin as it counts: lowered, then trimmed. */
  function Normal(env: Platform, x: string): string {
    TrimSpace(MapChars(env.lower, x))
  }

  lemma NormalOrigin(env: Platform, x: string)
    ensures Text.ApplyAll(Normalizers(env), x) == Normal(env, x)
  {
    var fns := Normalizers(env);
    assert fns[..1][..0] == [] && fns[..1][0] == fns[0];
    assert Text.ApplyAll(fns, x) == fns[1](Text.ApplyAll(fns[..1], x));
    assert Text.ApplyAll(fns[..1], x) == fns[0](Text.ApplyAll([], x));
  }

  /** Some configured origin counts as `*`. */
  ghost predicate NamesAll(env: Platform, origins: seq<string>) {
    exists i :: 0 <= i < |origins| && Normal(env, origins[i]) == "*"
  }

  lemma NormalOrigins(env: Platform, origins: seq<string>)
    ensures var mapped := MapStrings(origins, Normalizers(env));
      && (forall i :: 0 <= i < |origins| ==> mapped[i] == Normal(env, origins[i]))
      && ("*" in mapped <==> NamesAll(env, origins))
  {
    var mapped := MapStrings(origins, Normalizers(env));
    forall i | 0 <= i < |origins| ensures mapped[i] == Normal(env, origins[i]) {
      NormalOrigin(env, origins[i]);
    }
    if NamesAll(env, origins) {
      var i :| 0 <= i < |origins| && Normal(env, origins[i]) == "*";
      assert mapped[i] == "*";
    }
  }

  /** Configured patterns count lowered and trimmed; none at all, while no function is set, means every
      origin. */
  lemma OriginsNormalized(env: Platform, c: Config, r: Req, origin: string)
    ensures var v := Validated(env, c);
      if c.allowedOrigins == [] && c.originFunc.Unset? then OriginAnswer(v, r, origin).1
      else
        && |v.allowedOrigins| == |c.allowedOrigins|
        && forall i :: 0 <= i < |c.allowedOrigins| ==> v.allowedOrigins[i] == Normal(env, c.allowedOrigins[i])
  {
    NormalOrigins(env, c.allowedOrigins);
  }

  // ---------------------------------------------------------------- validating again

  /** What the library functions satisfy: doing it twice is doing it once, and `*` has no lower case. */
  ghost predicate Settles(env: Platform) {
    && (forall x :: env.lower(env.lower(x)) == env.lower(x))
    && (forall s :: env.canonical(env.canonical(s)) == env.canonical(s))
    && env.lower('*') == '*'
  }

  lemma NormalTwice(env: Platform, x: string)
    requires Settles(env)
    ensures Text.ApplyAll(Normalizers(env), Text.ApplyAll(Normalizers(env), x)) == Text.ApplyAll(Normalizers(env), x)
  {
    var low := MapChars(env.lower, x);
    NormalOrigin(env, x);
    NormalOrigin(env, TrimSpace(low));
    FixedTrim(env.lower, low);
    TrimTwice(low);
  }

  lemma OriginsTwice(env: Platform, origins: seq<string>)
    requires Settles(env)
    ensures MapStrings(MapStrings(origins, Normalizers(env)), Normalizers(env)) == MapStrings(origins, Normalizers(env))
  {
    forall i | 0 <= i < |origins|
      ensures MapStrings(MapStrings(origins, Normalizers(env)), Normalizers(env))[i]
           == MapStrings(origins, Normalizers(env))[i]
    {
      NormalTwice(env, origins[i]);
    }
  }

  lemma StarIsNormal(env: Platform)
    requires Settles(env)
    ensures MapStrings(["*"], Normalizers(env)) == ["*"]
  {
    NormalOrigin(env, "*");
    assert MapChars(env.lower, "*") == "*";
  }

  lemma CanonicalOne(env: Platform, x: string)
    ensures Text.ApplyAll([env.canonical], x) == env.canonical(x)
  {
    assert [env.canonical][..0] == [];
  }

  lemma NamesTwice(env: Platform, names: seq<string>)
    requires Settles(env)
    ensures MapStrings(MapStrings(names, [env.canonical]), [env.canonical]) == MapStrings(names, [env.canonical])
  {
    forall i | 0 <= i < |names|
      ensures MapStrings(MapStrings(names, [env.canonical]), [env.canonical])[i]
           == MapStrings(names, [env.canonical])[i]
    {
      CanonicalOne(env, names[i]);
      CanonicalOne(env, env.canonical(names[i]));
    }
  }

  /** Calling `Validate` and then installing the handler, which validates again, leaves the configuration
      of the first call. */
  lemma {:induction false} ValidateTwice(env: Platform, c: Config)
    requires Settles(env)
    ensures Validated(env, Validated(env, c)) == Validated(env, c)
  {
    var v := Validated(env, c);
    OriginsTwice(env, c.allowedOrigins);
    StarIsNormal(env);
    assert OriginsOf(env, v) == v.allowedOrigins;
    NamesTwice(env, if |c.allowedHeaders| == 0 then DEFAULT_HEADERS else c.allowedHeaders);
    assert HeadersOf(env, v) == v.allowedHeaders;
    NamesTwice(env, c.exposedHeaders);
  }

  /** The origins changed between two calls of `Validate`: the function stays, so all origins stay
      allowed if they were, and otherwise the new patterns decide. The header then names all origins
      only if the new patterns do. */
  lemma {:induction false} OriginsReplaced(env: Platform, c: Config, origins: seq<string>, r: Req, origin: string)
    requires c.originFunc.Unset?
    ensures var v := Validated(env, Validated(env, c).(allowedOrigins := origins));
      && (OriginAnswer(v, r, origin).1 <==>
           || c.allowedOrigins == [] || NamesAll(env, c.allowedOrigins)
           || exists i :: 0 <= i < |origins| && Glob.Accepts(origin, Normal(env, origins[i])))
      && (AllowedOriginValue(v, r) == if NamesAll(env, origins) then ["*"] else Values(r.header, Field.Origin))
  {
    NormalOrigins(env, c.allowedOrigins);
    NormalOrigins(env, origins);
    OriginDecision(env, Validated(env, c).(allowedOrigins := origins), r, origin);
    SameAccepts(env, origins, MapStrings(origins, Normalizers(env)), origin);
  }

  /** No origins at first and `*a` afterwards: the origin `b`, which is not of that form, stays allowed. */
  lemma StaleOrigins(env: Platform, c: Config, r: Req)
    requires c.originFunc.Unset? && c.allowedOrigins == []
    requires env.lower('*') == '*' && env.lower('a') == 'a'
    ensures var v := Validated(env, Validated(env, c).(allowedOrigins := ["*a"]));
      && v.allowedOrigins == ["*a"] && OriginAnswer(v, r, "b").1
      && !Glob.Accepts("b", "*a") && !Glob.Matches("b", "*a")
  {
    var origins := ["*a"];
    OriginsReplaced(env, c, origins, r, "b");
    NormalOrigins(env, origins);
    StarAIsNormal(env);
    BIsForeign();
  }

  lemma BIsForeign()
    ensures !Glob.Accepts("b", "*a") && !Glob.Matches("b", "*a")
  {
    Glob.StarSuffix("b", "a");
    Glob.ExactWithoutLeadingLiteral("b", "*a");
  }

  lemma StarAIsNormal(env: Platform)
    requires env.lower('*') == '*' && env.lower('a') == 'a'
    ensures Normal(env, "*a") == "*a"
  {
    assert MapChars(env.lower, "*a") == "*a";
  }

  // ---------------------------------------------------------------- the answers

  /** A refused preflight changes nothing but Vary. */
  lemma RefusalTouchesOnlyVary(env: Platform, c: Config, r: Req, origin: string, h: Header, key: Field)
    requires WellFormed(r) && |c.preflightVary| == 1 && key != Field.Vary
    requires !PreflightGrants(env, c, r, origin)
    ensures key in PreflightFields(env, c, r, origin, h) <==> key in h
    ensures key in h ==> PreflightFields(env, c, r, origin, h)[key] == h[key]
  {
  }

  /** The configuration allows the origin. */
  ghost predicate OriginListed(env: Platform, c: Config, origin: string) {
    && origin != ""
    && (|| c.originFunc.AllowAll?
        || (c.originFunc.Unset? && c.allowedOrigins == [])
        || exists i :: 0 <= i < |c.allowedOrigins| && Glob.Accepts(origin, Normal(env, c.allowedOrigins[i])))
  }

  /** The configuration names all origins. */
  ghost predicate AllOriginsListed(env: Platform, c: Config) {
    (c.originFunc.Unset? && c.allowedOrigins == []) || NamesAll(env, c.allowedOrigins)
  }

  predicate MethodListed(c: Config, m: string) {
    if c.allowedMethods == [] then m in ["GET", "HEAD", "POST"] else m in c.allowedMethods
  }

  /** The header names that count as configured. */
  function HeaderNames(c: Config): seq<string> {
    if c.allowedHeaders == [] then ["Accept", "Content-Type", "Origin"] else c.allowedHeaders
  }

  ghost predicate HeaderListed(env: Platform, c: Config, name: string) {
    exists i :: 0 <= i < |HeaderNames(c)| && name == env.canonical(HeaderNames(c)[i])
  }

  /** The `i`-th header name asked for, of the field lines taken together. */
  ghost predicate AskedName(env: Platform, r: Req, i: nat, name: string) {
    var lines := Values(r.header, Field.RequestHeaders);
    lines != [] && var parts := Split(Join(lines, ','), ','); i < |parts| && name == env.canonical(TrimSpace(parts[i]))
  }

  /** What the configuration says about a preflight. */
  ghost predicate PreflightListed(env: Platform, c: Config, r: Req, origin: string) {
    && OriginListed(env, c, origin)
    && Get(r.header, Field.RequestMethod) != "OPTIONS" && MethodListed(c, Get(r.header, Field.RequestMethod))
    && (Field.RequestHeaders !in r.header || HeaderListed(env, c, "*") ||
        forall i: nat, name :: AskedName(env, r, i, name) ==> HeaderListed(env, c, name))
  }

  /** What it says about an actual request. */
  ghost predicate RequestListed(env: Platform, c: Config, r: Req, origin: string) {
    OriginListed(env, c, origin) && (r.httpMethod == "OPTIONS" || MethodListed(c, r.httpMethod))
  }

  lemma OriginByList(env: Platform, c: Config, r: Req, origin: string)
    requires !c.originFunc.Custom?
    ensures origin != "" && OriginAnswer(Validated(env, c), r, origin).1 <==> OriginListed(env, c, origin)
    ensures Validated(env, c).allowsAllOrigins <==> AllOriginsListed(env, c)
  {
    var mapped := MapStrings(c.allowedOrigins, Normalizers(env));
    OriginDecision(env, c, r, origin);
    NormalOrigins(env, c.allowedOrigins);
    if c.originFunc.Unset? && c.allowedOrigins == [] {
      StarAccepts(["*"], origin);
    } else {
      assert Validated(env, c).allowedOrigins == mapped;
      SameAccepts(env, c.allowedOrigins, mapped, origin);
    }
  }

  lemma SameAccepts(env: Platform, origins: seq<string>, patterns: seq<string>, origin: string)
    requires |patterns| == |origins| && forall i :: 0 <= i < |origins| ==> patterns[i] == Normal(env, origins[i])
    ensures SomeAccepts(patterns, origin) <==>
            exists i :: 0 <= i < |origins| && Glob.Accepts(origin, Normal(env, origins[i]))
  {
    if SomeAccepts(patterns, origin) {
      var i :| 0 <= i < |patterns| && Glob.Accepts(origin, patterns[i]);
      assert Glob.Accepts(origin, Normal(env, origins[i]));
    }
    forall i | 0 <= i < |origins| && Glob.Accepts(origin, Normal(env, origins[i]))
      ensures SomeAccepts(patterns, origin)
    {
      assert Glob.Accepts(origin, patterns[i]);
    }
  }

  lemma HeadersByList(env: Platform, c: Config, name: string)
    ensures name in Validated(env, c).allowedHeaders <==> HeaderListed(env, c, name)
  {
    assert Validated(env, c).allowedHeaders == MapStrings(HeaderNames(c), [env.canonical]);
    CanonicalMember(env, HeaderNames(c), name);
  }

  lemma CanonicalMember(env: Platform, names: seq<string>, name: string)
    ensures name in MapStrings(names, [env.canonical]) <==>
            exists i :: 0 <= i < |names| && name == env.canonical(names[i])
  {
    CanonicalNames(env, names);
    var mapped := MapStrings(names, [env.canonical]);
    forall i | 0 <= i < |names| && name == env.canonical(names[i]) ensures name in mapped {
      assert mapped[i] == name;
    }
    if name in mapped {
      var i :| 0 <= i < |mapped| && mapped[i] == name;
      assert name == env.canonical(names[i]);
    }
  }

  lemma CanonicalNames(env: Platform, names: seq<string>)
    ensures forall i :: 0 <= i < |names| ==> MapStrings(names, [env.canonical])[i] == env.canonical(names[i])
  {
    forall i | 0 <= i < |names| ensures MapStrings(names, [env.canonical])[i] == env.canonical(names[i]) {
      CanonicalOne(env, names[i]);
    }
  }

  lemma AskedNames(env: Platform, r: Req)
    requires WellFormed(r) && Field.RequestHeaders in r.header
    ensures var asked := RequestedHeaders(env, r);
      && |asked| > 0
      && (forall i: nat :: i < |asked| ==> AskedName(env, r, i, asked[i]))
      && (forall i: nat, name :: AskedName(env, r, i, name) ==> i < |asked| && name == asked[i])
  {
    var lines := r.header[Field.RequestHeaders];
    Text.SplitOfJoin(lines, ',');
    var parts, asked := Split(Join(lines, ','), ','), RequestedHeaders(env, r);
    forall i | 0 <= i < |parts| ensures asked[i] == env.canonical(TrimSpace(parts[i])) {
      TrimmedName(env, parts[i]);
    }
  }

  /** A preflight is granted exactly when the configuration allows its origin, its method, which must not be
      OPTIONS, and every header name it asks for. */
  lemma PreflightByList(env: Platform, c: Config, r: Req, origin: string)
    requires !c.originFunc.Custom? && WellFormed(r)
    ensures PreflightGrants(env, Validated(env, c), r, origin) <==> PreflightListed(env, c, r, origin)
  {
    OriginByList(env, c, r, origin);
    HeadersByList(env, c, "*");
    if Field.RequestHeaders in r.header {
      AskedNames(env, r);
      var asked := RequestedHeaders(env, r);
      forall i | 0 <= i < |asked|
        ensures asked[i] in Validated(env, c).allowedHeaders <==> HeaderListed(env, c, asked[i])
      {
        HeadersByList(env, c, asked[i]);
      }
    }
  }

  /** So it is answered with an allowed origin exactly then. */
  lemma PreflightDecision(env: Platform, c: Config, r: Req, origin: string, h: Header)
    requires !c.originFunc.Custom? && WellFormed(r) && Field.AllowOrigin !in h
    ensures Field.AllowOrigin in PreflightFields(env, Validated(env, c), r, origin, h) <==>
            PreflightListed(env, c, r, origin)
  {
    var v := Validated(env, c);
    PreflightByList(env, c, r, origin);
    if PreflightGrants(env, v, r, origin) {
      PreflightGranted(env, v, r, origin, h);
    } else {
      RefusalTouchesOnlyVary(env, v, r, origin, h, Field.AllowOrigin);
    }
  }

  lemma RequestByList(env: Platform, c: Config, r: Req, origin: string)
    requires !c.originFunc.Custom?
    ensures RequestGrants(Validated(env, c), r, origin) <==> RequestListed(env, c, r, origin)
  {
    OriginByList(env, c, r, origin);
  }

  /** An actual request is answered with an allowed origin exactly when the configuration allows its origin
      and its method, or the method is OPTIONS. */
  lemma RequestDecision(env: Platform, c: Config, r: Req, origin: string, h: Header)
    requires !c.originFunc.Custom? && Field.AllowOrigin !in h
    ensures Field.AllowOrigin in RequestFields(env, Validated(env, c), r, origin, h) <==>
            RequestListed(env, c, r, origin)
  {
    RequestByList(env, c, r, origin);
    OriginDecision(env, c, r, origin);
  }

  /** The response differs from `h` in no field but Vary. */
  ghost predicate OnlyVary(h: Header, out: Header) {
    forall key :: key != Field.Vary ==> (key in out <==> key in h) && Values(out, key) == Values(h, key)
  }

  const REQUEST_FIELDS := {Field.Vary, Field.AllowOrigin, Field.ExposeHeaders, Field.AllowCredentials}

  /** The whole response to an actual request. Refused, it only says that it varies by origin; granted, it
      names the origin, the exposed headers and, if configured, credentials. */
  lemma {:induction false} RequestResponse(env: Platform, c: Config, r: Req, origin: string, h: Header)
    requires !c.originFunc.Custom?
    ensures var out := RequestFields(env, Validated(env, c), r, origin, h);
      && Values(out, Field.Vary) == Values(h, Field.Vary) + ["Origin"]
      && if !RequestListed(env, c, r, origin) then OnlyVary(h, out)
         else
           && Values(out, Field.AllowOrigin) ==
              (if AllOriginsListed(env, c) then ["*"] else Values(r.header, Field.Origin))
           && Exposes(env, c, Values(out, Field.ExposeHeaders))
           && Values(out, Field.AllowCredentials) ==
              (if c.allowCredentials then ["true"] else Values(h, Field.AllowCredentials))
           && forall key :: key !in REQUEST_FIELDS ==> Values(out, key) == Values(h, key)
  {
    var v := Validated(env, c);
    RequestByList(env, c, r, origin);
    OriginDecision(env, c, r, origin);
    OriginByList(env, c, r, origin);
    CanonicalNames(env, c.exposedHeaders);
    assert Exposes(env, c, v.exposedValue);
    RequestWhole(env, v, r, origin, h);
  }

  lemma RequestWhole(env: Platform, v: Config, r: Req, origin: string, h: Header)
    requires OriginAnswer(v, r, origin).0 == [] && |v.exposedValue| == 1
    ensures var out := RequestFields(env, v, r, origin, h);
      && Values(out, Field.Vary) == Values(h, Field.Vary) + ["Origin"]
      && if !RequestGrants(v, r, origin) then OnlyVary(h, out)
         else
           && Values(out, Field.AllowOrigin) == AllowedOriginValue(v, r)
           && Values(out, Field.ExposeHeaders) == v.exposedValue
           && Values(out, Field.AllowCredentials) == Credentials(v, h)
           && forall key :: key !in REQUEST_FIELDS ==> Values(out, key) == Values(h, key)
  {
    RequestValue(env, v, r, origin, h, Field.Vary);
    if RequestGrants(v, r, origin) {
      RequestValue(env, v, r, origin, h, Field.AllowOrigin);
      RequestValue(env, v, r, origin, h, Field.ExposeHeaders);
      RequestValue(env, v, r, origin, h, Field.AllowCredentials);
      forall key | key !in REQUEST_FIELDS ensures Values(RequestFields(env, v, r, origin, h), key) == Values(h, key) {
        RequestValue(env, v, r, origin, h, key);
      }
    }
  }

  /** What the answer to an actual request says in one field. */
  ghost function RequestedValue(v: Config, r: Req, origin: string, h: Header, key: Field): seq<string> {
    if key == Field.Vary then Values(h, Field.Vary) + ["Origin"]
    else if !RequestGrants(v, r, origin) then Values(h, key)
    else if key == Field.AllowOrigin then AllowedOriginValue(v, r)
    else if key == Field.ExposeHeaders && |v.exposedValue| > 0 then v.exposedValue
    else if key == Field.AllowCredentials && v.allowCredentials then ["true"]
    else Values(h, key)
  }

  lemma RequestValue(env: Platform, v: Config, r: Req, origin: string, h: Header, key: Field)
    requires OriginAnswer(v, r, origin).0 == []
    ensures Values(RequestFields(env, v, r, origin, h), key) == RequestedValue(v, r, origin, h, key)
  {
    SetThree(h[Field.Vary := Values(h, Field.Vary) + ["Origin"]], AllowedOriginValue(v, r), |v.exposedValue| > 0,
             v.exposedValue, v.allowCredentials, key);
  }

  lemma SetThree(h: Header, origin: seq<string>, exposes: bool, exposed: seq<string>, credentials: bool, key: Field)
    ensures var h1 := h[Field.AllowOrigin := origin];
      var h2 := SetIf(h1, exposes, Field.ExposeHeaders, exposed);
      Values(SetIf(h2, credentials, Field.AllowCredentials, ["true"]), key) ==
      if key == Field.AllowOrigin then origin
      else if key == Field.ExposeHeaders && exposes then exposed
      else if key == Field.AllowCredentials && credentials then ["true"]
      else Values(h, key)
  {
    var h1 := h[Field.AllowOrigin := origin];
    SetIfValue(h1, exposes, Field.ExposeHeaders, exposed, key);
    SetIfValue(SetIf(h1, exposes, Field.ExposeHeaders, exposed), credentials, Field.AllowCredentials, ["true"], key);
  }

  /** One line, the configured headers in canonical form, joined by a comma and a blank. */
  ghost predicate Exposes(env: Platform, c: Config, value: seq<string>) {
    exists names: seq<string> ::
      && |names| == |c.exposedHeaders| && value == [JoinWith(names, ", ")]
      && forall i :: 0 <= i < |names| ==> names[i] == env.canonical(c.exposedHeaders[i])
  }

  /** What a preflight's answer varies by. */
  function VaryOfPreflight(privateNetwork: bool): string {
    "Origin, Access-Control-Request-Method, Access-Control-Request-Headers" +
    if privateNetwork then ", Access-Control-Request-Private-Network" else ""
  }

  lemma SameVary(privateNetwork: bool)
    ensures PreflightVary(privateNetwork) == VaryOfPreflight(privateNetwork)
  {
    assert PREFLIGHT_VARY + "" == PREFLIGHT_VARY;
  }

  const PREFLIGHT_FIELDS := {Field.Vary, Field.AllowOrigin, Field.AllowMethods, Field.AllowHeaders,
                             Field.AllowCredentials, Field.AllowPrivateNetwork, Field.MaxAge}

  /** The whole response to a preflight. Refused, it only says what it varies by; granted, it names the
      origin, the method and the headers asked for, and what else is configured. */
  lemma {:induction false} PreflightResponse(env: Platform, c: Config, r: Req, origin: string, h: Header)
    requires !c.originFunc.Custom? && WellFormed(r)
    ensures var out := PreflightFields(env, Validated(env, c), r, origin, h);
      && Values(out, Field.Vary) == Values(h, Field.Vary) + [VaryOfPreflight(c.allowPrivateNetwork)]
      && if !PreflightListed(env, c, r, origin) then OnlyVary(h, out)
         else
           && Values(out, Field.AllowOrigin) ==
              (if AllOriginsListed(env, c) then ["*"] else Values(r.header, Field.Origin))
           && Values(out, Field.AllowMethods) == Values(r.header, Field.RequestMethod)
           && NamesAsked(env, r, h, Values(out, Field.AllowHeaders))
           && Extras(env, c, r, h, out)
           && forall key :: key !in PREFLIGHT_FIELDS ==> Values(out, key) == Values(h, key)
  {
    var v := Validated(env, c);
    SameVary(c.allowPrivateNetwork);
    PreflightByList(env, c, r, origin);
    OriginDecision(env, c, r, origin);
    OriginByList(env, c, r, origin);
    if PreflightGrants(env, v, r, origin) {
      var varied := h[Field.Vary := Values(h, Field.Vary) + v.preflightVary];
      GrantedWhole(env, v, c, r, h, varied);
    }
  }

  /** The headers asked for, each a line, unless none is asked for or the first name is empty. */
  ghost predicate NamesAsked(env: Platform, r: Req, h: Header, value: seq<string>) {
    if Field.RequestHeaders in r.header && !AskedName(env, r, 0, "") then
      && (forall i: nat :: i < |value| ==> AskedName(env, r, i, value[i]))
      && (forall i: nat, name :: AskedName(env, r, i, name) ==> i < |value|)
    else value == Values(h, Field.AllowHeaders)
  }

  /** The fields that depend on the configuration alone, or also on a private network asked for. */
  predicate Extras(env: Platform, c: Config, r: Req, h: Header, out: Header) {
    && Values(out, Field.AllowCredentials) ==
       (if c.allowCredentials then ["true"] else Values(h, Field.AllowCredentials))
    && Values(out, Field.AllowPrivateNetwork) ==
       (if c.allowPrivateNetwork && Get(r.header, Field.RequestPrivateNetwork) == "true" then ["true"]
        else Values(h, Field.AllowPrivateNetwork))
    && Values(out, Field.MaxAge) ==
       (if c.maxAge > 0 then [env.itoa(c.maxAge / 1_000_000_000)]
        else if c.maxAge < 0 then ["0"]
        else if c.maxAgeSeconds != [] then c.maxAgeSeconds
        else Values(h, Field.MaxAge))
  }

  /** What a granted preflight says in one field. */
  function GrantedValue(env: Platform, c: Config, r: Req, varied: Header, key: Field): seq<string>
    requires WellFormed(r)
  {
    var asked := RequestedHeaders(env, r);
    var named := Field.RequestHeaders in r.header && (RequestedHeadersCount(env, r); asked[0] != "");
    var private := c.allowPrivateNetwork && Get(r.header, Field.RequestPrivateNetwork) == "true";
    if key == Field.AllowOrigin then AllowedOriginValue(c, r)
    else if key == Field.AllowMethods then Values(r.header, Field.RequestMethod)
    else if key == Field.AllowHeaders && named then asked
    else if key == Field.AllowCredentials && c.allowCredentials then ["true"]
    else if key == Field.AllowPrivateNetwork && private then ["true"]
    else if key == Field.MaxAge && |c.maxAgeSeconds| > 0 then c.maxAgeSeconds
    else Values(varied, key)
  }

  lemma SetIfValue(h: Header, on: bool, field: Field, value: seq<string>, key: Field)
    ensures Values(SetIf(h, on, field, value), key) == if on && key == field then value else Values(h, key)
  {
  }

  /** Two fields set and four set on a condition, seen in one field. */
  lemma SetAll(h: Header, origin: seq<string>, methods: seq<string>, named: bool, asked: seq<string>,
               credentials: bool, private: bool, cached: bool, maxAge: seq<string>, key: Field)
    ensures var h1 := h[Field.AllowOrigin := origin][Field.AllowMethods := methods];
      var h2 := SetIf(h1, named, Field.AllowHeaders, asked);
      var h3 := SetIf(h2, credentials, Field.AllowCredentials, ["true"]);
      var h4 := SetIf(h3, private, Field.AllowPrivateNetwork, ["true"]);
      Values(SetIf(h4, cached, Field.MaxAge, maxAge), key) ==
      if key == Field.AllowOrigin then origin
      else if key == Field.AllowMethods then methods
      else if key == Field.AllowHeaders && named then asked
      else if key == Field.AllowCredentials && credentials then ["true"]
      else if key == Field.AllowPrivateNetwork && private then ["true"]
      else if key == Field.MaxAge && cached then maxAge
      else Values(h, key)
  {
    var h1 := h[Field.AllowOrigin := origin][Field.AllowMethods := methods];
    var h2 := SetIf(h1, named, Field.AllowHeaders, asked);
    var h3 := SetIf(h2, credentials, Field.AllowCredentials, ["true"]);
    var h4 := SetIf(h3, private, Field.AllowPrivateNetwork, ["true"]);
    SetIfValue(h1, named, Field.AllowHeaders, asked, key);
    SetIfValue(h2, credentials, Field.AllowCredentials, ["true"], key);
    SetIfValue(h3, private, Field.AllowPrivateNetwork, ["true"], key);
    SetIfValue(h4, cached, Field.MaxAge, maxAge, key);
  }

  lemma GrantValue(env: Platform, c: Config, r: Req, varied: Header, key: Field)
    requires WellFormed(r)
    ensures Values(GrantFields(env, c, r, varied), key) == GrantedValue(env, c, r, varied, key)
  {
    var asked := RequestedHeaders(env, r);
    var named := Field.RequestHeaders in r.header && (RequestedHeadersCount(env, r); asked[0] != "");
    var private := c.allowPrivateNetwork && Get(r.header, Field.RequestPrivateNetwork) == "true";
    SetAll(varied, AllowedOriginValue(c, r), Values(r.header, Field.RequestMethod), named, asked,
           c.allowCredentials, private, |c.maxAgeSeconds| > 0, c.maxAgeSeconds, key);
  }

  lemma NamesAskedValue(env: Platform, c: Config, r: Req, h: Header, varied: Header)
    requires WellFormed(r) && OnlyVary(h, varied)
    ensures NamesAsked(env, r, h, GrantedValue(env, c, r, varied, Field.AllowHeaders))
  {
    if Field.RequestHeaders in r.header {
      AskedNames(env, r);
    }
  }

  /** `v` caches what the granted fields of `c` depend on. */
  predicate Caches(env: Platform, v: Config, c: Config) {
    && v.allowCredentials == c.allowCredentials && v.allowPrivateNetwork == c.allowPrivateNetwork
    && v.maxAgeSeconds == MaxAgeOf(env, c.maxAge, c.maxAgeSeconds)
  }

  lemma GrantedExtras(env: Platform, v: Config, c: Config, r: Req, h: Header, varied: Header)
    requires WellFormed(r) && OnlyVary(h, varied) && Caches(env, v, c)
    ensures Extras(env, c, r, h, GrantFields(env, v, r, varied))
  {
    GrantValue(env, v, r, varied, Field.AllowCredentials);
    GrantValue(env, v, r, varied, Field.AllowPrivateNetwork);
    GrantValue(env, v, r, varied, Field.MaxAge);
  }

  lemma GrantedWhole(env: Platform, v: Config, c: Config, r: Req, h: Header, varied: Header)
    requires WellFormed(r) && OnlyVary(h, varied) && Caches(env, v, c)
    ensures var out := GrantFields(env, v, r, varied);
      && Values(out, Field.Vary) == Values(varied, Field.Vary)
      && Values(out, Field.AllowOrigin) == AllowedOriginValue(v, r)
      && Values(out, Field.AllowMethods) == Values(r.header, Field.RequestMethod)
      && NamesAsked(env, r, h, Values(out, Field.AllowHeaders))
      && Extras(env, c, r, h, out)
      && forall key :: key !in PREFLIGHT_FIELDS ==> Values(out, key) == Values(h, key)
  {
    GrantedPlain(env, v, r, varied);
    GrantValue(env, v, r, varied, Field.AllowHeaders);
    NamesAskedValue(env, v, r, h, varied);
    GrantedExtras(env, v, c, r, h, varied);
    GrantedRest(env, v, r, h, varied);
  }

  lemma GrantedPlain(env: Platform, v: Config, r: Req, varied: Header)
    requires WellFormed(r)
    ensures var out := GrantFields(env, v, r, varied);
      && Values(out, Field.Vary) == Values(varied, Field.Vary)
      && Values(out, Field.AllowOrigin) == AllowedOriginValue(v, r)
      && Values(out, Field.AllowMethods) == Values(r.header, Field.RequestMethod)
  {
    GrantValue(env, v, r, varied, Field.Vary);
    GrantValue(env, v, r, varied, Field.AllowOrigin);
    GrantValue(env, v, r, varied, Field.AllowMethods);
  }

  lemma GrantedRest(env: Platform, v: Config, r: Req, h: Header, varied: Header)
    requires WellFormed(r) && OnlyVary(h, varied)
    ensures forall key :: key !in PREFLIGHT_FIELDS ==> Values(GrantFields(env, v, r, varied), key) == Values(h, key)
  {
    forall key | key !in PREFLIGHT_FIELDS ensures Values(GrantFields(env, v, r, varied), key) == Values(h, key) {
      GrantValue(env, v, r, varied, key);
    }
  }

  lemma AddedVary(env: Platform, h: Header, vary: seq<string>)
    ensures Values(AddVary(env, h, vary), Field.Vary) == Values(h, Field.Vary) + VaryLine(env, vary)
    ensures forall key :: key != Field.Vary ==> (key in AddVary(env, h, vary) <==> key in h)
  {
  }

  /** With the user's own origin function its answer takes the place of the patterns, and the fields it
      names are varied on, in one line. */
  lemma {:induction false} CustomRequest(env: Platform, c: Config, r: Req, origin: string, h: Header)
    requires c.originFunc.Custom? && Field.AllowOrigin !in h
    ensures var (vary, allowed) := c.originFunc.f(r, origin);
      var out := RequestFields(env, Validated(env, c), r, origin, h);
      && (Field.AllowOrigin in out <==>
           origin != "" && allowed && (r.httpMethod == "OPTIONS" || MethodListed(c, r.httpMethod)))
      && Values(out, Field.Vary) == Values(h, Field.Vary) + ["Origin"] + VaryLine(env, vary)
  {
    var v, vary := Validated(env, c), c.originFunc.f(r, origin).0;
    var added := h[Field.Vary := Values(h, Field.Vary) + ["Origin"]];
    AddedVary(env, added, vary);
    SetThree(AddVary(env, added, vary), AllowedOriginValue(v, r), |v.exposedValue| > 0, v.exposedValue,
             v.allowCredentials, Field.Vary);
  }

  /** The same for a preflight. */
  lemma {:induction false} CustomPreflight(env: Platform, c: Config, r: Req, origin: string, h: Header)
    requires c.originFunc.Custom? && WellFormed(r) && Field.AllowOrigin !in h
    ensures var (vary, allowed) := c.originFunc.f(r, origin);
      var out := PreflightFields(env, Validated(env, c), r, origin, h);
      && (Field.AllowOrigin in out ==> origin != "" && allowed)
      && Values(out, Field.Vary) ==
         Values(h, Field.Vary) + [VaryOfPreflight(c.allowPrivateNetwork)] + VaryLine(env, vary)
  {
    var v, vary := Validated(env, c), c.originFunc.f(r, origin).0;
    var added := h[Field.Vary := Values(h, Field.Vary) + v.preflightVary];
    SameVary(c.allowPrivateNetwork);
    AddedVary(env, added, vary);
    GrantValue(env, v, r, AddVary(env, added, vary), Field.Vary);
  }

  function VaryLine(env: Platform, vary: seq<string>): seq<string> {
    if vary == [] then [] else [JoinWith(MapStrings(vary, [env.canonical]), ", ")]
  }

  /** `q` is the request a browser sends after the preflight `p` for it. */
  predicate Announced(p: Req, q: Req) {
    && q.httpMethod == Get(p.header, Field.RequestMethod)
    && Values(q.header, Field.Origin) == Values(p.header, Field.Origin)
  }

  /** A preflight is granted exactly when the request it announces is, its method is not OPTIONS, and
      the headers it asks for are allowed. */
  lemma GrantsAgree(env: Platform, c: Config, p: Req, q: Req)
    requires !c.originFunc.Custom? && Announced(p, q)
    ensures var v := Validated(env, c);
      PreflightGrants(env, v, p, Get(p.header, Field.Origin)) <==>
      RequestGrants(v, q, Get(q.header, Field.Origin)) && q.httpMethod != "OPTIONS" && HeadersAllowed(env, v, p)
  {
    SameOrigin(p, q);
    OriginDecision(env, c, p, Get(p.header, Field.Origin));
    OriginDecision(env, c, q, Get(q.header, Field.Origin));
  }

  lemma SameOrigin(p: Req, q: Req)
    requires Values(q.header, Field.Origin) == Values(p.header, Field.Origin)
    ensures Get(q.header, Field.Origin) == Get(p.header, Field.Origin)
  {
  }

  /** Whenever a preflight is granted, the announced request gets the same allowed origin and the same
      credentials header, whatever both responses held before. */
  lemma {:induction false} PreflightAndRequestAgree(env: Platform, c: Config, p: Req, q: Req, h: Header)
    requires !c.originFunc.Custom? && Announced(p, q) && WellFormed(p)
    requires PreflightGrants(env, Validated(env, c), p, Get(p.header, Field.Origin))
    ensures var v := Validated(env, c);
      var a := PreflightFields(env, v, p, Get(p.header, Field.Origin), h);
      var b := RequestFields(env, v, q, Get(q.header, Field.Origin), h);
      && Field.AllowOrigin in a && Field.AllowOrigin in b && a[Field.AllowOrigin] == b[Field.AllowOrigin]
      && a[Field.AllowOrigin] == (if v.allowsAllOrigins then ["*"] else Values(q.header, Field.Origin))
      && Values(a, Field.AllowCredentials) == Values(b, Field.AllowCredentials)
      && (c.allowCredentials ==> Values(b, Field.AllowCredentials) == ["true"])
  {
    GrantsAgree(env, c, p, q);
    GrantedAlike(env, Validated(env, c), p, q, h);
  }

  lemma GrantedAlike(env: Platform, v: Config, p: Req, q: Req, h: Header)
    requires Announced(p, q) && WellFormed(p) && |v.preflightVary| == 1
    requires PreflightGrants(env, v, p, Get(p.header, Field.Origin)) && RequestGrants(v, q, Get(q.header, Field.Origin))
    ensures var a := PreflightFields(env, v, p, Get(p.header, Field.Origin), h);
      var b := RequestFields(env, v, q, Get(q.header, Field.Origin), h);
      && Field.AllowOrigin in a && Field.AllowOrigin in b
      && a[Field.AllowOrigin] == b[Field.AllowOrigin] == AllowedOriginValue(v, q)
      && Values(a, Field.AllowCredentials) == Values(b, Field.AllowCredentials)
      && (v.allowCredentials ==> Values(b, Field.AllowCredentials) == ["true"])
  {
    PreflightGranted(env, v, p, Get(p.header, Field.Origin), h);
    RequestGranted(env, v, q, Get(q.header, Field.Origin), h);
  }

  function Credentials(v: Config, h: Header): seq<string> {
    if v.allowCredentials then ["true"] else Values(h, Field.AllowCredentials)
  }

  lemma VaryAlone(env: Platform, h: Header, vary: seq<string>, key: Field)
    requires key != Field.Vary
    ensures Values(AddVary(env, h, vary), key) == Values(h, key)
  {
  }

  lemma PreflightGranted(env: Platform, v: Config, r: Req, origin: string, h: Header)
    requires WellFormed(r) && |v.preflightVary| == 1 && PreflightGrants(env, v, r, origin)
    ensures var a := PreflightFields(env, v, r, origin, h);
      && Field.AllowOrigin in a && a[Field.AllowOrigin] == AllowedOriginValue(v, r)
      && Values(a, Field.AllowCredentials) == Credentials(v, h)
  {
    var added := h[Field.Vary := Values(h, Field.Vary) + v.preflightVary];
    var varied := AddVary(env, added, OriginAnswer(v, r, origin).0);
    VaryAlone(env, added, OriginAnswer(v, r, origin).0, Field.AllowCredentials);
    Granted(env, v, r, varied);
  }

  lemma Granted(env: Platform, v: Config, r: Req, varied: Header)
    requires WellFormed(r)
    ensures var a := GrantFields(env, v, r, varied);
      && Field.AllowOrigin in a && a[Field.AllowOrigin] == AllowedOriginValue(v, r)
      && Values(a, Field.AllowCredentials) == Credentials(v, varied)
  {
  }

  lemma RequestGranted(env: Platform, v: Config, r: Req, origin: string, h: Header)
    requires RequestGrants(v, r, origin)
    ensures var b := RequestFields(env, v, r, origin, h);
      && Field.AllowOrigin in b && b[Field.AllowOrigin] == AllowedOriginValue(v, r)
      && Values(b, Field.AllowCredentials) == Credentials(v, h)
  {
    var varied := h[Field.Vary := Values(h, Field.Vary) + ["Origin"]];
    VaryAlone(env, varied, OriginAnswer(v, r, origin).0, Field.AllowCredentials);
  }

  function Asking(r: Req, lines: seq<string>): Req {
    r.(header := r.header[Field.RequestHeaders := lines])
  }

  lemma AskedParts(env: Platform, parts: seq<string>, others: seq<string>)
    requires TrimEach(parts) == TrimEach(others)
    ensures MapStrings(parts, [(s: string) => TrimSpace(s), env.canonical]) ==
            MapStrings(others, [(s: string) => TrimSpace(s), env.canonical])
  {
    var trim := (s: string) => TrimSpace(s);
    forall i | 0 <= i < |parts|
      ensures Text.ApplyAll([trim, env.canonical], parts[i]) == Text.ApplyAll([trim, env.canonical], others[i])
    {
      TrimmedName(env, parts[i]);
      TrimmedName(env, others[i]);
      assert TrimEach(parts)[i] == TrimEach(others)[i];
    }
  }

  lemma TrimmedName(env: Platform, x: string)
    ensures Text.ApplyAll([(s: string) => TrimSpace(s), env.canonical], x) == env.canonical(TrimSpace(x))
  {
    var trim := (s: string) => TrimSpace(s);
    assert [trim, env.canonical][..1] == [trim] && [trim][..0] == [];
    assert Text.ApplyAll([trim], x) == trim(x);
  }

  /** Two ways to write the same requested header names, over field lines, around commas, change neither
      the decision nor the response. */
  lemma {:induction false} FieldLinesIrrelevant(env: Platform, c: Config, r: Req, lines: seq<string>,
                                                others: seq<string>, origin: string, h: Header)
    requires lines != [] && others != []
    requires TrimEach(Text.SplitAll(lines, ',')) == TrimEach(Text.SplitAll(others, ','))
    requires !c.originFunc.Custom?
    ensures var v := Validated(env, c);
      var p, q := Asking(r, lines), Asking(r, others);
      && RequestedHeaders(env, p) == RequestedHeaders(env, q)
      && PreflightFields(env, v, p, origin, h) == PreflightFields(env, v, q, origin, h)
  {
    var p, q := Asking(r, lines), Asking(r, others);
    AskedParts(env, Text.SplitAll(lines, ','), Text.SplitAll(others, ','));
    OriginDecision(env, c, p, origin);
    OriginDecision(env, c, q, origin);
    SameAsked(env, Validated(env, c), p, q, origin, h);
  }

  /** Lines combined by a comma, with any white space around it, hold the same names. */
  lemma {:induction false} CombinedLines(lines: seq<string>, before: string, after: string)
    requires lines != [] && AllSpace(before) && AllSpace(after)
    ensures TrimEach(Split(JoinWith(lines, before + "," + after), ',')) == TrimEach(Text.SplitAll(lines, ','))
  {
    var init, last := lines[..|lines| - 1], lines[|lines| - 1];
    if |lines| == 1 {
      assert Text.SplitAll(lines, ',') == Text.SplitAll([], ',') + Split(last, ',');
    } else {
      CombinedLines(init, before, after);
      CombinedPair(JoinWith(init, before + "," + after), last, before, after);
      TrimEachConcat(Text.SplitAll(init, ','), Split(last, ','));
    }
  }

  lemma CombinedPair(front: string, last: string, before: string, after: string)
    requires AllSpace(before) && AllSpace(after)
    ensures TrimEach(Split(front + (before + "," + after) + last, ',')) ==
            TrimEach(Split(front, ',')) + TrimEach(Split(last, ','))
  {
    var x, y := front + before, after + last;
    Regrouped(front, before, ",", after, last);
    SplitConcat(x, y, ',');
    TrimEachConcat(Split(x, ','), Split(y, ','));
    PaddedParts("", front, before, ',');
    assert "" + front == front;
    PaddedParts(after, last, "", ',');
    assert y + "" == y;
  }

  lemma Regrouped(a: string, b: string, c: string, d: string, e: string)
    ensures a + (b + c + d) + e == (a + b) + c + (d + e)
  {
  }

  /** Several field lines, or one holding them combined by a comma and optional white space, are answered
      alike (sections 5.2 and 5.3 of RFC 9110). */
  lemma {:induction false} CombinedFieldLines(env: Platform, c: Config, r: Req, lines: seq<string>, before: string,
                                              after: string, origin: string, h: Header)
    requires lines != [] && AllSpace(before) && AllSpace(after) && !c.originFunc.Custom?
    ensures var v, one := Validated(env, c), [JoinWith(lines, before + "," + after)];
      PreflightFields(env, v, Asking(r, lines), origin, h) == PreflightFields(env, v, Asking(r, one), origin, h)
  {
    var one := [JoinWith(lines, before + "," + after)];
    CombinedLines(lines, before, after);
    assert Text.SplitAll(one, ',') == Text.SplitAll([], ',') + Split(one[0], ',') by {
      assert one[..0] == [];
    }
    FieldLinesIrrelevant(env, c, r, lines, one, origin, h);
  }

  /** Two preflights that ask the same and differ in no other header field. */
  ghost predicate AskTheSame(env: Platform, p: Req, q: Req) {
    && WellFormed(p) && WellFormed(q)
    && Field.RequestHeaders in p.header && Field.RequestHeaders in q.header
    && RequestedHeaders(env, p) == RequestedHeaders(env, q)
    && forall f :: f != Field.RequestHeaders ==> Values(p.header, f) == Values(q.header, f)
  }

  lemma SameAsked(env: Platform, v: Config, p: Req, q: Req, origin: string, h: Header)
    requires AskTheSame(env, p, q) && |v.preflightVary| == 1
    requires OriginAnswer(v, p, origin) == OriginAnswer(v, q, origin)
    ensures PreflightFields(env, v, p, origin, h) == PreflightFields(env, v, q, origin, h)
  {
    SameGrant(env, v, p, q, origin);
    var varied := AddVary(env, h[Field.Vary := Values(h, Field.Vary) + v.preflightVary], OriginAnswer(v, p, origin).0);
    SameGrantFields(env, v, p, q, varied);
  }

  lemma SameGrant(env: Platform, v: Config, p: Req, q: Req, origin: string)
    requires AskTheSame(env, p, q) && OriginAnswer(v, p, origin) == OriginAnswer(v, q, origin)
    ensures PreflightGrants(env, v, p, origin) <==> PreflightGrants(env, v, q, origin)
  {
    SameGet(env, p, q, Field.RequestMethod);
  }

  lemma SameGrantFields(env: Platform, v: Config, p: Req, q: Req, varied: Header)
    requires AskTheSame(env, p, q)
    ensures GrantFields(env, v, p, varied) == GrantFields(env, v, q, varied)
  {
    SameGet(env, p, q, Field.RequestPrivateNetwork);
    SameGet(env, p, q, Field.RequestMethod);
    SameGet(env, p, q, Field.Origin);
  }

  lemma SameGet(env: Platform, p: Req, q: Req, f: Field)
    requires AskTheSame(env, p, q) && f != Field.RequestHeaders
    ensures Get(p.header, f) == Get(q.header, f) && Values(p.header, f) == Values(q.header, f)
  {
    GetOf(p.header, f);
    GetOf(q.header, f);
  }

  lemma GetOf(h: Header, key: Field)
    ensures Get(h, key) == if Values(h, key) == [] then "" else Values(h, key)[0]
  {
  }

  // ---------------------------------------------------------------- the objects

  /** A response header map, changed in place. */
  class HeaderMap {
    var fields: Header

    constructor (fields: Header)
      ensures this.fields == fields
    {
      this.fields := fields;
    }

    method Set(key: Field, value: seq<string>)
      modifies this
      ensures fields == old(fields)[key := value]
    {
      fields := fields[key := value];
    }

    method Add(key: Field, value: string)
      modifies this
      ensures fields == old(fields)[key := Values(old(fields), key) + [value]]
    {
      fields := fields[key := Values(fields, key) + [value]];
    }
  }

  /** `text.Map` on a fresh copy. */
  method Mapped(s: seq<string>, fns: seq<string -> string>) returns (r: seq<string>)
    ensures r == MapStrings(s, fns)
  {
    var a := new string[|s|](i requires 0 <= i < |s| => s[i]);
    Text.Map(a, fns);
    r := a[..];
    assert forall i :: 0 <= i < |s| ==> r[i] == Text.ApplyAll(fns, s[i]);
  }

  class CORSConfig {
    const env: Platform
    var allowedOrigins: seq<string>
    var originFunc: OriginFunc
    var allowedMethods: seq<string>
    var allowedHeaders: seq<string>
    var exposedHeaders: seq<string>
    var maxAge: int
    var allowCredentials: bool
    var allowPrivateNetwork: bool
    var preflightStatus: int
    var allowsAllOrigins: bool
    var allowsAllHeaders: bool
    var exposedValue: seq<string>
    var preflightVary: seq<string>
    var maxAgeSeconds: seq<string>

    ghost function State(): Config
      reads this
    {
      Config(allowedOrigins, originFunc, allowedMethods, allowedHeaders, exposedHeaders, maxAge,
             allowCredentials, allowPrivateNetwork, preflightStatus, allowsAllOrigins, allowsAllHeaders,
             exposedValue, preflightVary, maxAgeSeconds)
    }

    constructor (env: Platform, c: Config)
      ensures this.env == env && State() == c
    {
      this.env := env;
      allowedOrigins, originFunc, allowedMethods := c.allowedOrigins, c.originFunc, c.allowedMethods;
      allowedHeaders, exposedHeaders, maxAge := c.allowedHeaders, c.exposedHeaders, c.maxAge;
      allowCredentials, allowPrivateNetwork := c.allowCredentials, c.allowPrivateNetwork;
      preflightStatus, allowsAllOrigins, allowsAllHeaders := c.preflightStatus, c.allowsAllOrigins, c.allowsAllHeaders;
      exposedValue, preflightVary, maxAgeSeconds := c.exposedValue, c.preflightVary, c.maxAgeSeconds;
    }

    method Validate()
      modifies this
      ensures State() == Validated(env, old(State()))
    {
      NormalizeOrigins();
      NormalizeHeaders();
      CacheFields();
    }

    /** The origin part of `Validate`. */
    method NormalizeOrigins()
      modifies `allowedOrigins, `originFunc
      ensures allowedOrigins == OriginsOf(env, old(State()))
      ensures originFunc == OriginFuncOf(env, old(State()))
    {
      allowedOrigins := Mapped(allowedOrigins, Normalizers(env));
      if originFunc.Unset? {
        if |allowedOrigins| == 0 {
          allowedOrigins := ["*"];
        }
        originFunc := if "*" in allowedOrigins then AllowAll else MatchOrigins;
      }
    }

    /** The methods and header names. */
    method NormalizeHeaders()
      modifies `allowedMethods, `allowedHeaders, `exposedHeaders
      ensures allowedMethods == if |old(allowedMethods)| == 0 then DEFAULT_METHODS else old(allowedMethods)
      ensures allowedHeaders == HeadersOf(env, old(State()))
      ensures exposedHeaders == MapStrings(old(exposedHeaders), [env.canonical])
    {
      if |allowedMethods| == 0 {
        allowedMethods := DEFAULT_METHODS;
      }
      if |allowedHeaders| == 0 {
        allowedHeaders := DEFAULT_HEADERS;
      }
      allowedHeaders := Mapped(allowedHeaders, [env.canonical]);
      exposedHeaders := Mapped(exposedHeaders, [env.canonical]);
    }

    /** The cached fields. */
    method CacheFields()
      modifies `preflightStatus, `allowsAllOrigins, `allowsAllHeaders, `exposedValue, `preflightVary, `maxAgeSeconds
      ensures preflightStatus == if old(preflightStatus) == 0 then 204 else old(preflightStatus)
      ensures allowsAllOrigins == ("*" in allowedOrigins) && allowsAllHeaders == ("*" in allowedHeaders)
      ensures exposedValue == [JoinWith(exposedHeaders, ", ")]
      ensures preflightVary == [PreflightVary(allowPrivateNetwork)]
      ensures maxAgeSeconds == MaxAgeOf(env, maxAge, old(maxAgeSeconds))
    {
      if preflightStatus == 0 {
        preflightStatus := 204;
      }
      allowsAllOrigins := "*" in allowedOrigins;
      allowsAllHeaders := "*" in allowedHeaders;
      exposedValue := [JoinWith(exposedHeaders, ", ")];
      preflightVary := [PREFLIGHT_VARY];
      if allowPrivateNetwork {
        preflightVary := [preflightVary[0] + PRIVATE_VARY];
      }
      if maxAge > 0 {
        maxAgeSeconds := [env.itoa(maxAge / SECOND)];
      } else if maxAge < 0 {
        maxAgeSeconds := ["0"];
      }
    }

    method AllowOrigin(r: Req, origin: string) returns (vary: seq<string>, allowed: bool)
      ensures (vary, allowed) == OriginAnswer(State(), r, origin)
    {
      match originFunc
      case Custom(f) =>
        return f(r, origin).0, f(r, origin).1;
      case AllowAll =>
        return [], true;
      case _ =>
        for i := 0 to |allowedOrigins|
          invariant forall j :: 0 <= j < i ==> !Glob.Accepts(origin, allowedOrigins[j])
        {
          var v := allowedOrigins[i];
          StarTest(v);
          if Contains(v, "*") {
            var ok := Glob.Glob(origin, v);
            if ok {
              return [], true;
            }
          } else if origin == v {
            return [], true;
          }
        }
        return [], false;
    }

    method HandlePreflight(r: Req, headers: HeaderMap, origin: string)
      requires WellFormed(r) && |preflightVary| == 1
      modifies headers
      ensures headers.fields == PreflightFields(env, State(), r, origin, old(headers.fields))
    {
      assert preflightVary == [preflightVary[0]];
      headers.Add(Field.Vary, preflightVary[0]);
      var vary, allowed := AllowOrigin(r, origin);
      VaryOn(headers, vary);
      if origin == "" || !allowed {
        return;
      }
      var m := Get(r.header, Field.RequestMethod);
      if m == "OPTIONS" || m !in allowedMethods {
        return;
      }
      var split := Text.SplitM(Values(r.header, Field.RequestHeaders), ',');
      var asked := Mapped(split, [(s: string) => TrimSpace(s), env.canonical]);
      assert asked == RequestedHeaders(env, r);
      var permitted := PermitsHeaders(r, asked);
      if !permitted {
        return;
      }
      Grant(r, headers, asked);
    }

    /** The loop of `handlePreflight` over the header names asked for. */
    method PermitsHeaders(r: Req, asked: seq<string>) returns (ok: bool)
      requires asked == RequestedHeaders(env, r)
      ensures ok <==> HeadersAllowed(env, State(), r)
    {
      var hasRequestHeaders := Field.RequestHeaders in r.header;
      if hasRequestHeaders && !allowsAllHeaders {
        for i := 0 to |asked|
          invariant forall j :: 0 <= j < i ==> asked[j] in allowedHeaders
        {
          if asked[i] !in allowedHeaders {
            return false;
          }
        }
      }
      return true;
    }

    /** The tail of `handlePreflight`, once everything is allowed. */
    method Grant(r: Req, headers: HeaderMap, asked: seq<string>)
      requires WellFormed(r) && asked == RequestedHeaders(env, r)
      modifies headers
      ensures headers.fields == GrantFields(env, State(), r, old(headers.fields))
    {
      if allowsAllOrigins {
        headers.Set(Field.AllowOrigin, ["*"]);
      } else {
        headers.Set(Field.AllowOrigin, Values(r.header, Field.Origin));
      }
      headers.Set(Field.AllowMethods, Values(r.header, Field.RequestMethod));
      if Field.RequestHeaders in r.header {
        RequestedHeadersCount(env, r);
        if asked[0] != "" {
          headers.Set(Field.AllowHeaders, asked);
        }
      }
      if allowCredentials {
        headers.Set(Field.AllowCredentials, ["true"]);
      }
      if allowPrivateNetwork && Get(r.header, Field.RequestPrivateNetwork) == "true" {
        headers.Set(Field.AllowPrivateNetwork, ["true"]);
      }
      if |maxAgeSeconds| > 0 {
        headers.Set(Field.MaxAge, maxAgeSeconds);
      }
    }

    method HandleRequest(r: Req, headers: HeaderMap, origin: string)
      modifies headers
      ensures headers.fields == RequestFields(env, State(), r, origin, old(headers.fields))
    {
      headers.Add(Field.Vary, "Origin");
      var vary, allowed := AllowOrigin(r, origin);
      VaryOn(headers, vary);
      if origin == "" || !allowed {
        return;
      }
      if r.httpMethod != "OPTIONS" && r.httpMethod !in allowedMethods {
        return;
      }
      if allowsAllOrigins {
        headers.Set(Field.AllowOrigin, ["*"]);
      } else {
        headers.Set(Field.AllowOrigin, Values(r.header, Field.Origin));
      }
      if |exposedValue| > 0 {
        headers.Set(Field.ExposeHeaders, exposedValue);
      }
      if allowCredentials {
        headers.Set(Field.AllowCredentials, ["true"]);
      }
    }

    method VaryOn(headers: HeaderMap, vary: seq<string>)
      modifies headers
      ensures headers.fields == AddVary(env, old(headers.fields), vary)
    {
      if |vary| > 0 {
        var names := Mapped(vary, [env.canonical]);
        headers.Add(Field.Vary, JoinWith(names, ", "));
      }
    }
  }

  lemma StarTest(v: string)
    ensures Contains(v, "*") <==> '*' in v
  {
    if '*' in v {
      var i := |Cut(v, '*').0|;
      assert v[i..i + 1] == "*";
      assert OccursAt(v, "*", i);
    }
    if Contains(v, "*") {
      var i := Index(v, "*");
      assert v[i..i + 1][0] == '*';
    }
  }
}
