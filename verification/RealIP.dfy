/** The trusted-proxy configuration and the choice of the client address. */
module RealIP {
  import opened Basics
  import opened Strings
  import opened Cidr
  import opened Http
  import Text

  /** The shipped header parsers. */
  datatype Parser = XForwardedFor | XRealIP | TrueClientIP | CFConnectingIP

  /** The header field a parser reads. */
  function FieldOf(p: Parser): Field {
    match p
    case XForwardedFor => ForwardedFor
    case XRealIP => RealIp
    case TrueClientIP => TrueClientIp
    case CFConnectingIP => CfConnectingIp
  }

  // ---------------------------------------------------------------- parsing addresses

  function ParseAddr(env: Platform, s: string): Option<Addr> {
    match env.parseIP(TrimSpace(s))
    case None => None
    case Some(bytes) => Some(ToAddr(bytes))
  }

  /** `sanitizeIP`. */
  function Sanitize(env: Platform, s: string): string {
    match env.splitHost(TrimSpace(s))
    case Some(host) => if host == "" then s else host
    case None => s
  }

  predicate AllParse(env: Platform, items: seq<string>) {
    forall i :: 0 <= i < |items| ==> ParseAddr(env, items[i]).Some?
  }

  /** The addresses of the items, in the order written. */
  function Hops(env: Platform, items: seq<string>): (hops: seq<Addr>)
    requires AllParse(env, items)
    ensures |hops| == |items|
  {
    seq(|items|, i requires 0 <= i < |items| => ParseAddr(env, items[i]).value)
  }

  function Reverse(s: seq<Addr>): (r: seq<Addr>)
    ensures |r| == |s| && forall i :: 0 <= i < |s| ==> r[i] == s[|s| - 1 - i]
  {
    seq(|s|, i requires 0 <= i < |s| => s[|s| - 1 - i])
  }

  /** The parsed X-Forwarded-For value, nearest hop first; one bad item voids the whole value. */
  function ForwardedHops(env: Platform, value: string): seq<Addr> {
    var items := Split(value, ',');
    if AllParse(env, items) then Reverse(Hops(env, items)) else []
  }

  /** `RealIPXForwardedFor`. */
  method ParseForwardedFor(env: Platform, h: Header) returns (ips: seq<Addr>)
    ensures ips == ForwardedHops(env, Get(h, ForwardedFor))
  {
    var items := Split(Get(h, ForwardedFor), ',');
    ips := [];
    var i := |items| - 1;
    while i >= 0
      invariant -1 <= i < |items| && |ips| == |items| - 1 - i
      invariant forall j :: i < j < |items| ==>
        ParseAddr(env, items[j]).Some? && ips[|items| - 1 - j] == ParseAddr(env, items[j]).value
    {
      var ip := ParseAddr(env, items[i]);
      if ip.None? {
        return [];
      }
      ips := ips + [ip.value];
      i := i - 1;
    }
    assert ips == Reverse(Hops(env, items));
  }

  function Parsed(env: Platform, p: Parser, h: Header): seq<Addr> {
    if p.XForwardedFor? then ForwardedHops(env, Get(h, FieldOf(p)))
    else
      match ParseAddr(env, Get(h, FieldOf(p)))
      case Some(ip) => [ip]
      case None => []
  }

  method ParseHeader(env: Platform, p: Parser, h: Header) returns (ips: seq<Addr>)
    ensures ips == Parsed(env, p, h)
  {
    if p.XForwardedFor? {
      ips := ParseForwardedFor(env, h);
    } else {
      var ip := ParseAddr(env, Get(h, FieldOf(p)));
      ips := if ip.Some? then [ip.value] else [];
    }
  }

  /** The text, white space around it cut off, is this address. */
  predicate Reads(env: Platform, text: string, ip: Addr) {
    env.parseIP(TrimSpace(text)).Some? && ip == ToAddr(env.parseIP(TrimSpace(text)).value)
  }

  /** The parser's header holds these addresses, from left to right. */
  ghost predicate Holds(env: Platform, p: Parser, h: Header, hops: seq<Addr>) {
    match p
    case XForwardedFor =>
      var items := Split(Get(h, ForwardedFor), ',');
      |hops| == |items| && forall i :: 0 <= i < |items| ==> Reads(env, items[i], hops[i])
    case XRealIP => |hops| == 1 && Reads(env, Get(h, RealIp), hops[0])
    case TrueClientIP => |hops| == 1 && Reads(env, Get(h, TrueClientIp), hops[0])
    case CFConnectingIP => |hops| == 1 && Reads(env, Get(h, CfConnectingIp), hops[0])
  }

  ghost predicate HoldsNone(env: Platform, p: Parser, h: Header) {
    forall hops :: !Holds(env, p, h, hops)
  }

  /** A parser yields the addresses its header holds, from right to left, and nothing when one of the items
      is no address. */
  lemma {:induction false} ParserMeaning(env: Platform, p: Parser, h: Header)
    ensures Parsed(env, p, h) == [] <==> HoldsNone(env, p, h)
    ensures forall hops :: Holds(env, p, h, hops) ==> hops != [] && Parsed(env, p, h) == Reverse(hops)
  {
    if p.XForwardedFor? {
      ForwardedMeaning(env, h);
    } else {
      SingleMeaning(env, p, h);
    }
  }

  lemma ForwardedMeaning(env: Platform, h: Header)
    ensures Parsed(env, XForwardedFor, h) == [] <==> HoldsNone(env, XForwardedFor, h)
    ensures forall hops :: Holds(env, XForwardedFor, h, hops) ==>
              hops != [] && Parsed(env, XForwardedFor, h) == Reverse(hops)
  {
    var items := Split(Get(h, ForwardedFor), ',');
    if AllParse(env, items) {
      assert Holds(env, XForwardedFor, h, Hops(env, items));
    }
    forall hops | Holds(env, XForwardedFor, h, hops) ensures AllParse(env, items) && hops == Hops(env, items) {
      forall i | 0 <= i < |items| ensures ParseAddr(env, items[i]) == Some(hops[i]) {
        assert Reads(env, items[i], hops[i]);
      }
    }
  }

  lemma SingleMeaning(env: Platform, p: Parser, h: Header)
    requires !p.XForwardedFor?
    ensures Parsed(env, p, h) == [] <==> HoldsNone(env, p, h)
    ensures forall hops :: Holds(env, p, h, hops) ==> hops != [] && Parsed(env, p, h) == Reverse(hops)
  {
    var ips := Parsed(env, p, h);
    if ips != [] {
      assert Holds(env, p, h, ips);
    }
    forall hops | Holds(env, p, h, hops) ensures ips == Reverse(hops) {
      assert hops == [hops[0]];
    }
  }

  // ---------------------------------------------------------------- the trust list

  /** The configuration; `trustedParsed` is what `IsTrusted` searches. */
  datatype Config = Config(trusted: seq<string>, trustPrivate: bool, trustAny: bool, trustCloudflare: bool,
                           headers: seq<Parser>, trustedParsed: seq<Net>)

  datatype Verdict = Valid | InvalidEntry(entry: string) | NothingTrusted | NoParsers

  /** A configured entry: a range, or one address as its widest mask. */
  function ParseRange(env: Platform, entry: string): Option<Net> {
    match env.parseCIDR(entry)
    case Some(n) => Some(n)
    case None =>
      match env.parseIP(entry)
      case None => None
      case Some(bytes) =>
        match ToAddr(bytes)
        case V4(x) => Some(Net4(x, 32))
        case V6(y) => Some(Net6(y, 128))
  }

  /** The ranges of the entries before the first bad one. */
  function GoodRanges(env: Platform, entries: seq<string>): (r: seq<Net>)
    ensures |r| <= |entries|
  {
    if entries == [] then []
    else
      match ParseRange(env, entries[0])
      case None => []
      case Some(n) => [n] + GoodRanges(env, entries[1..])
  }

  lemma {:induction false} GoodRangesInOrder(env: Platform, entries: seq<string>)
    ensures var r := GoodRanges(env, entries);
      && (forall i :: 0 <= i < |r| ==> ParseRange(env, entries[i]) == Some(r[i]))
      && (|r| < |entries| ==> ParseRange(env, entries[|r|]) == None)
  {
    if entries != [] && ParseRange(env, entries[0]).Some? {
      var r, rest := GoodRanges(env, entries), entries[1..];
      GoodRangesInOrder(env, rest);
      forall i | 0 < i < |r| ensures ParseRange(env, entries[i]) == Some(r[i]) {
        assert entries[i] == rest[i - 1] && r[i] == GoodRanges(env, rest)[i - 1];
      }
    }
  }

  function TrustList(env: Platform, c: Config): seq<Net> {
    GoodRanges(env, c.trusted) + (if c.trustPrivate then PRIVATE else [])
    + (if c.trustAny then [NoMask] else []) + (if c.trustCloudflare then CLOUDFLARE else [])
  }

  /** The configuration `Validate` leaves behind, and its verdict. */
  function Validated(env: Platform, c: Config): (Config, Verdict) {
    var good := GoodRanges(env, c.trusted);
    if |good| < |c.trusted| then (c.(trustedParsed := good), InvalidEntry(c.trusted[|good|]))
    else
      var c' := c.(trustedParsed := TrustList(env, c),
                   headers := if c.trustCloudflare && c.headers == [] then [CFConnectingIP] else c.headers);
      (c', if c'.trustedParsed == [] then NothingTrusted else if c'.headers == [] then NoParsers else Valid)
  }

  /** `IsTrusted` of an address that is not nil. */
  ghost predicate Trusts(c: Config, ip: Addr) {
    c.trustAny || InTable(c.trustedParsed, ip)
  }

  /** What a configured entry covers: a range its addresses, an address written out itself. */
  predicate EntryCovers(env: Platform, entry: string, ip: Addr) {
    match env.parseCIDR(entry)
    case Some(range) => Cidr.Contains(range, ip)
    case None => env.parseIP(entry).Some? && ip == ToAddr(env.parseIP(entry).value)
  }

  predicate IsEntry(env: Platform, entry: string) {
    env.parseCIDR(entry).Some? || env.parseIP(entry).Some?
  }

  lemma RangeMeaning(env: Platform, entry: string)
    ensures ParseRange(env, entry).Some? <==> IsEntry(env, entry)
    ensures forall ip :: EntryCovers(env, entry, ip) <==>
              ParseRange(env, entry).Some? && Cidr.Contains(ParseRange(env, entry).value, ip)
  {
    forall ip
      ensures EntryCovers(env, entry, ip) <==>
              ParseRange(env, entry).Some? && Cidr.Contains(ParseRange(env, entry).value, ip)
    {
      if env.parseCIDR(entry).None? && env.parseIP(entry).Some? {
        WidestMask(env.parseIP(entry).value, ip);
      }
    }
  }

  /** The widest mask leaves one address. */
  lemma WidestMask(bytes: U128, ip: Addr)
    ensures match ToAddr(bytes)
            case V4(x) => Cidr.Contains(Net4(x, 32), ip) <==> ip == V4(x)
            case V6(y) => Cidr.Contains(Net6(y, 128), ip) <==> ip == V6(y)
  {
    assert Pow2(0) == 1;
  }

  /** After a successful `Validate` an address is trusted exactly when the configuration says so: any
      address, an entry that covers it, or a chosen table that does. */
  lemma TrustAgrees(env: Platform, c: Config, ip: Addr)
    requires Validated(env, c).1 == Valid
    ensures Trusts(Validated(env, c).0, ip) <==>
            || c.trustAny
            || (exists v :: v in c.trusted && EntryCovers(env, v, ip))
            || (c.trustPrivate && InTable(PRIVATE, ip))
            || (c.trustCloudflare && InTable(CLOUDFLARE, ip))
  {
    var good := GoodRanges(env, c.trusted);
    var a := if c.trustPrivate then PRIVATE else [];
    var b := if c.trustAny then [NoMask] else [];
    var d := if c.trustCloudflare then CLOUDFLARE else [];
    InTables(good + a + b, d, ip);
    InTables(good + a, b, ip);
    InTables(good, a, ip);
    EntriesCover(env, c.trusted, ip);
  }

  lemma EntriesCover(env: Platform, entries: seq<string>, ip: Addr)
    requires |GoodRanges(env, entries)| == |entries|
    ensures InTable(GoodRanges(env, entries), ip) <==> exists v :: v in entries && EntryCovers(env, v, ip)
  {
    var good := GoodRanges(env, entries);
    GoodRangesInOrder(env, entries);
    forall i | 0 <= i < |entries| ensures Cidr.Contains(good[i], ip) <==> EntryCovers(env, entries[i], ip) {
      RangeMeaning(env, entries[i]);
    }
    if InTable(good, ip) {
      var i :| 0 <= i < |good| && Cidr.Contains(good[i], ip);
      assert entries[i] in entries && EntryCovers(env, entries[i], ip);
    }
    forall i | 0 <= i < |entries| && EntryCovers(env, entries[i], ip) ensures InTable(good, ip) {
      assert Cidr.Contains(good[i], ip);
    }
  }

  /** Every configured entry is a range or an address. */
  ghost predicate AllGood(env: Platform, entries: seq<string>) {
    forall v :: v in entries ==> IsEntry(env, v)
  }

  /** `entries[i]` is the first that is neither a range nor an address. */
  ghost predicate FirstBad(env: Platform, entries: seq<string>, i: nat) {
    i < |entries| && !IsEntry(env, entries[i]) && forall j :: 0 <= j < i ==> IsEntry(env, entries[j])
  }

  lemma AllGoodRanges(env: Platform, entries: seq<string>)
    ensures |GoodRanges(env, entries)| == |entries| <==> AllGood(env, entries)
    ensures |GoodRanges(env, entries)| < |entries| ==> FirstBad(env, entries, |GoodRanges(env, entries)|)
  {
    GoodRangesInOrder(env, entries);
    var good := GoodRanges(env, entries);
    forall i | 0 <= i < |entries| ensures ParseRange(env, entries[i]).Some? <==> IsEntry(env, entries[i]) {
      RangeMeaning(env, entries[i]);
    }
    if |good| < |entries| {
      assert entries[|good|] in entries;
    }
  }

  /** What `Validate` finds: the first bad entry; otherwise a configuration that trusts nothing at all, or one
      without a header to read. */
  lemma {:induction false} VerdictMeaning(env: Platform, c: Config)
    ensures match Validated(env, c).1
            case InvalidEntry(entry) => exists i: nat :: FirstBad(env, c.trusted, i) && c.trusted[i] == entry
            case NothingTrusted =>
              AllGood(env, c.trusted) && c.trusted == [] && !c.trustPrivate && !c.trustAny && !c.trustCloudflare
            case NoParsers =>
              && AllGood(env, c.trusted) && (c.trusted != [] || c.trustPrivate || c.trustAny)
              && c.headers == [] && !c.trustCloudflare
            case Valid =>
              && AllGood(env, c.trusted) && (c.trusted != [] || c.trustPrivate || c.trustAny || c.trustCloudflare)
              && (c.headers != [] || c.trustCloudflare)
  {
    AllGoodRanges(env, c.trusted);
    var good := GoodRanges(env, c.trusted);
    if |good| < |c.trusted| {
      assert FirstBad(env, c.trusted, |good|);
    }
  }

  /** Validating again changes neither the trust list nor the parsers nor the verdict. */
  lemma ValidateTwice(env: Platform, c: Config)
    ensures Validated(env, Validated(env, c).0) == Validated(env, c)
  {
  }

  // ---------------------------------------------------------------- string options

  function Lowered(env: Platform, s: string): string {
    MapChars(env.lower, TrimSpace(s))
  }

  function NonEmpty(parts: seq<string>): seq<string> {
    if parts == [] then []
    else
      var before, last := NonEmpty(parts[..|parts| - 1]), parts[|parts| - 1];
      if last == "" then before else before + [last]
  }

  /** The tokens of one lowered option. */
  function TokensOf(option: string): seq<string> {
    NonEmpty(TrimEach(Split(option, ',')))
  }

  function Tokens(env: Platform, options: seq<string>): seq<string> {
    if options == [] then []
    else Tokens(env, options[..|options| - 1]) + TokensOf(Lowered(env, options[|options| - 1]))
  }

  /** What each option is documented to mean. */
  datatype Meaning = TrustsCloudflare | Parses(p: Parser) | TrustsAny | TrustsPrivate | Blank | Entry

  function MeaningOf(token: string): Meaning {
    if token in ["cloudflare", "cf-connecting-ip"] then TrustsCloudflare
    else if token == "x-forwarded-for" then Parses(XForwardedFor)
    else if token == "x-real-ip" then Parses(XRealIP)
    else if token == "true-client-ip" then Parses(TrueClientIP)
    else if token in ["*", "any", "all"] then TrustsAny
    else if token in ["local", "localhost", "bogon", "internal", "private"] then TrustsPrivate
    else if token == "" then Blank
    else Entry
  }

  function ApplyToken(c: Config, token: string): Config {
    match MeaningOf(token)
    case TrustsCloudflare => c.(trustCloudflare := true)
    case Parses(p) => c.(headers := c.headers + [p])
    case TrustsAny => c.(trustAny := true, headers := [XForwardedFor])
    case TrustsPrivate => c.(trustPrivate := true)
    case Blank => c
    case Entry => c.(trusted := c.trusted + [token])
  }

  function ApplyTokens(c: Config, tokens: seq<string>): Config {
    if tokens == [] then c
    else ApplyToken(ApplyTokens(c, tokens[..|tokens| - 1]), tokens[|tokens| - 1])
  }

  const EMPTY_CONFIG := Config([], false, false, false, [], [])
  const DEFAULT_CONFIG := Config([], true, false, false, [XForwardedFor], [])

  /** What `FromStringOpts` makes of a configuration. */
  function FromOptions(env: Platform, c: Config, options: seq<string>): (Config, Verdict) {
    if options == [] then (DEFAULT_CONFIG, Valid)
    else Validated(env, ApplyTokens(c, Tokens(env, options)))
  }

  /** Without options the default holds: once validated it trusts exactly the private ranges, and reads
      X-Forwarded-For; until then it trusts nobody. */
  lemma NoOptions(env: Platform, c: Config, ip: Addr)
    ensures var (d, verdict) := FromOptions(env, c, []);
      && verdict == Valid && Validated(env, d).1 == Valid
      && Validated(env, d).0.headers == [XForwardedFor]
      && (Trusts(Validated(env, d).0, ip) <==> InTable(PRIVATE, ip))
      && !Trusts(d, ip)
  {
    TrustAgrees(env, DEFAULT_CONFIG, ip);
  }

  lemma {:induction false} NonEmptyConcat(a: seq<string>, b: seq<string>)
    ensures NonEmpty(a + b) == NonEmpty(a) + NonEmpty(b)
  {
    if b == [] {
      assert a + b == a;
    } else {
      NonEmptyConcat(a, b[..|b| - 1]);
      assert (a + b)[..|a + b| - 1] == a + b[..|b| - 1];
    }
  }

  /** The tokens of an option are those of its comma-separated pieces, each trimmed and lowered. */
  lemma {:induction false} TokensByPiece(env: Platform, option: string)
    requires KeepsStructure(env.lower, ',')
    ensures TokensOf(Lowered(env, option)) == NonEmpty(MapEach(env.lower, TrimEach(Split(option, ','))))
  {
    var low, parts := MapChars(env.lower, option), Split(option, ',');
    MapTrim(env.lower, option, ',');
    TrimBeforeSplit(low, ',');
    MapSplit(env.lower, option, ',');
    forall i | 0 <= i < |parts|
      ensures TrimEach(MapEach(env.lower, parts))[i] == MapEach(env.lower, TrimEach(parts))[i]
    {
      MapTrim(env.lower, parts[i], ',');
    }
    assert TrimEach(MapEach(env.lower, parts)) == MapEach(env.lower, TrimEach(parts));
  }

  lemma {:induction false} TokensBySplit(env: Platform, options: seq<string>)
    requires KeepsStructure(env.lower, ',')
    ensures Tokens(env, options) == NonEmpty(MapEach(env.lower, TrimEach(Text.SplitAll(options, ','))))
  {
    if options == [] {
      assert MapEach(env.lower, TrimEach([])) == [];
    } else {
      var init, last := options[..|options| - 1], options[|options| - 1];
      TokensBySplit(env, init);
      TokensByPiece(env, last);
      PiecesConcat(env.lower, Text.SplitAll(init, ','), Split(last, ','));
    }
  }

  lemma PiecesConcat(f: char -> char, a: seq<string>, b: seq<string>)
    ensures NonEmpty(MapEach(f, TrimEach(a + b))) ==
            NonEmpty(MapEach(f, TrimEach(a))) + NonEmpty(MapEach(f, TrimEach(b)))
  {
    TrimEachConcat(a, b);
    MapEachConcat(f, TrimEach(a), TrimEach(b));
    NonEmptyConcat(MapEach(f, TrimEach(a)), MapEach(f, TrimEach(b)));
  }

  lemma MapEachConcat(f: char -> char, a: seq<string>, b: seq<string>)
    ensures MapEach(f, a + b) == MapEach(f, a) + MapEach(f, b)
  {
  }

  /** Options given separately configure the same as one option holding them joined by commas. */
  lemma {:induction false} CommaChunking(env: Platform, c: Config, options: seq<string>)
    requires options != [] && KeepsStructure(env.lower, ',')
    ensures FromOptions(env, c, options) == FromOptions(env, c, [Join(options, ',')])
  {
    TokensBySplit(env, options);
    TokensBySplit(env, [Join(options, ',')]);
    Text.SplitOfJoin(options, ',');
    Text.SplitOfJoin([Join(options, ',')], ',');
  }

  function EntriesIn(tokens: seq<string>): seq<string> {
    if tokens == [] then []
    else
      var before, last := EntriesIn(tokens[..|tokens| - 1]), tokens[|tokens| - 1];
      if MeaningOf(last).Entry? then before + [last] else before
  }

  function ParsersIn(tokens: seq<string>): seq<Parser> {
    if tokens == [] then []
    else
      var before, last := ParsersIn(tokens[..|tokens| - 1]), MeaningOf(tokens[|tokens| - 1]);
      if last.Parses? then before + [last.p] else before
  }

  /** The position after the last option that trusts any address, or 0. */
  function AfterLastAny(tokens: seq<string>): (n: nat)
    ensures n <= |tokens|
  {
    if tokens == [] then 0
    else if MeaningOf(tokens[|tokens| - 1]).TrustsAny? then |tokens| else AfterLastAny(tokens[..|tokens| - 1])
  }

  ghost predicate SomeMeans(tokens: seq<string>, m: Meaning) {
    exists i :: 0 <= i < |tokens| && MeaningOf(tokens[i]) == m
  }

  lemma {:induction false} EntriesMeaning(c: Config, tokens: seq<string>)
    ensures ApplyTokens(c, tokens).trusted == c.trusted + EntriesIn(tokens)
    ensures ApplyTokens(c, tokens).trustedParsed == c.trustedParsed
  {
    if tokens != [] {
      EntriesMeaning(c, tokens[..|tokens| - 1]);
    }
  }

  lemma {:induction false} FlagsMeaning(c: Config, tokens: seq<string>)
    ensures var r := ApplyTokens(c, tokens);
      && (r.trustAny <==> c.trustAny || SomeMeans(tokens, TrustsAny))
      && (r.trustPrivate <==> c.trustPrivate || SomeMeans(tokens, TrustsPrivate))
      && (r.trustCloudflare <==> c.trustCloudflare || SomeMeans(tokens, TrustsCloudflare))
  {
    if tokens != [] {
      var before, last := tokens[..|tokens| - 1], tokens[|tokens| - 1];
      FlagsMeaning(c, before);
      assert tokens == before + [last];
      forall m ensures SomeMeans(tokens, m) <==> SomeMeans(before, m) || MeaningOf(last) == m {
        SomeMeansSnoc(before, last, m);
      }
    }
  }

  lemma SomeMeansSnoc(before: seq<string>, last: string, m: Meaning)
    ensures SomeMeans(before + [last], m) <==> SomeMeans(before, m) || MeaningOf(last) == m
  {
    var all := before + [last];
    assert all[|before|] == last && forall i :: 0 <= i < |before| ==> all[i] == before[i];
  }

  lemma {:induction false} ParsersMeaning(c: Config, tokens: seq<string>)
    ensures var n := AfterLastAny(tokens);
      ApplyTokens(c, tokens).headers == (if n > 0 then [XForwardedFor] else c.headers) + ParsersIn(tokens[n..])
  {
    if tokens != [] {
      var before, last, n := tokens[..|tokens| - 1], tokens[|tokens| - 1], AfterLastAny(tokens);
      ParsersMeaning(c, before);
      if MeaningOf(last).TrustsAny? {
        assert tokens[n..] == [];
      } else {
        assert tokens[n..][..|tokens[n..]| - 1] == before[n..];
        assert tokens[n..][|tokens[n..]| - 1] == last;
      }
    }
  }

  /** Names with a meaning of their own. */
  predicate IsName(token: string) {
    token in ["cloudflare", "cf-connecting-ip", "x-forwarded-for", "x-real-ip", "true-client-ip",
              "*", "any", "all", "local", "localhost", "bogon", "internal", "private"]
  }

  /** Taken together, the options are taken one after the other; each is a name or an entry. */
  lemma {:induction false} OptionsInOrder(a: seq<string>, b: seq<string>)
    ensures EntriesIn(a + b) == EntriesIn(a) + EntriesIn(b)
    ensures ParsersIn(a + b) == ParsersIn(a) + ParsersIn(b)
  {
    if b == [] {
      assert a + b == a;
    } else {
      OptionsInOrder(a, b[..|b| - 1]);
      assert (a + b)[..|a + b| - 1] == a + b[..|b| - 1];
    }
  }

  lemma {:induction false} OneOption(token: string)
    ensures EntriesIn([token]) == if IsName(token) || token == "" then [] else [token]
    ensures ParsersIn([token]) ==
            if token == "x-forwarded-for" then [XForwardedFor]
            else if token == "x-real-ip" then [XRealIP]
            else if token == "true-client-ip" then [TrueClientIP]
            else []
  {
    assert [token][..0] == [];
  }

  ghost predicate SomeNamed(tokens: seq<string>, names: seq<string>) {
    exists i :: 0 <= i < |tokens| && tokens[i] in names
  }

  lemma CloudflareNames(token: string)
    ensures MeaningOf(token) == TrustsCloudflare <==> token in ["cloudflare", "cf-connecting-ip"]
  {
  }

  lemma AnyNames(token: string)
    ensures MeaningOf(token) == TrustsAny <==> token in ["*", "any", "all"]
  {
  }

  lemma PrivateNames(token: string)
    ensures MeaningOf(token) == TrustsPrivate <==> token in ["local", "localhost", "bogon", "internal", "private"]
  {
  }

  lemma {:induction false} MeansNamed(tokens: seq<string>, m: Meaning, names: seq<string>)
    requires forall i :: 0 <= i < |tokens| ==> (MeaningOf(tokens[i]) == m <==> tokens[i] in names)
    ensures SomeMeans(tokens, m) <==> SomeNamed(tokens, names)
  {
  }

  /** Which names set which flag. */
  lemma {:induction false} FlagNames(c: Config, tokens: seq<string>)
    ensures var r := ApplyTokens(c, tokens);
      && (r.trustCloudflare <==> c.trustCloudflare || SomeNamed(tokens, ["cloudflare", "cf-connecting-ip"]))
      && (r.trustAny <==> c.trustAny || SomeNamed(tokens, ["*", "any", "all"]))
      && (r.trustPrivate <==>
           c.trustPrivate || SomeNamed(tokens, ["local", "localhost", "bogon", "internal", "private"]))
  {
    FlagsMeaning(c, tokens);
    forall i | 0 <= i < |tokens| ensures MeaningOf(tokens[i]) == TrustsCloudflare <==>
                                         tokens[i] in ["cloudflare", "cf-connecting-ip"] {
      CloudflareNames(tokens[i]);
    }
    MeansNamed(tokens, TrustsCloudflare, ["cloudflare", "cf-connecting-ip"]);
    forall i | 0 <= i < |tokens| ensures MeaningOf(tokens[i]) == TrustsAny <==> tokens[i] in ["*", "any", "all"] {
      AnyNames(tokens[i]);
    }
    MeansNamed(tokens, TrustsAny, ["*", "any", "all"]);
    var private := ["local", "localhost", "bogon", "internal", "private"];
    forall i | 0 <= i < |tokens| ensures MeaningOf(tokens[i]) == TrustsPrivate <==> tokens[i] in private {
      PrivateNames(tokens[i]);
    }
    MeansNamed(tokens, TrustsPrivate, private);
  }

  /** The options together: unknown ones are the trusted entries, in order; a flag is set by any of its
      names; parsers add up in order, starting over at the last option that trusts any address. */
  lemma {:induction false} OptionsMeaning(c: Config, tokens: seq<string>)
    ensures var r, n := ApplyTokens(c, tokens), AfterLastAny(tokens);
      && r.trusted == c.trusted + EntriesIn(tokens)
      && (r.trustCloudflare <==> c.trustCloudflare || SomeNamed(tokens, ["cloudflare", "cf-connecting-ip"]))
      && (r.trustAny <==> c.trustAny || SomeNamed(tokens, ["*", "any", "all"]))
      && (r.trustPrivate <==>
           c.trustPrivate || SomeNamed(tokens, ["local", "localhost", "bogon", "internal", "private"]))
      && r.headers == (if n > 0 then [XForwardedFor] else c.headers) + ParsersIn(tokens[n..])
      && (n > 0 ==> tokens[n - 1] in ["*", "any", "all"])
      && (forall i :: n <= i < |tokens| ==> tokens[i] !in ["*", "any", "all"])
      && r.trustedParsed == c.trustedParsed
  {
    LastAny(tokens);
    EntriesMeaning(c, tokens);
    FlagNames(c, tokens);
    ParsersMeaning(c, tokens);
  }

  /** Some option names a header to read, other than Cf-Connecting-Ip. */
  ghost predicate SomeParses(tokens: seq<string>) {
    exists i :: 0 <= i < |tokens| && MeaningOf(tokens[i]).Parses?
  }

  lemma {:induction false} ParsersNamed(tokens: seq<string>)
    ensures CFConnectingIP !in ParsersIn(tokens)
    ensures ParsersIn(tokens) != [] <==> SomeParses(tokens)
  {
    if tokens != [] {
      var before, last := tokens[..|tokens| - 1], tokens[|tokens| - 1];
      ParsersNamed(before);
      assert forall i :: 0 <= i < |before| ==> before[i] == tokens[i];
      if SomeParses(before) {
        var i :| 0 <= i < |before| && MeaningOf(before[i]).Parses?;
        assert MeaningOf(tokens[i]).Parses?;
      }
    }
  }

  /** Cf-Connecting-Ip is read exactly when it already was and no option trusts any address, or when the
      Cloudflare ranges are trusted, all entries are good, and nothing else names a header: no option, and
      not the configuration before. */
  lemma CloudflareHeader(env: Platform, c: Config, options: seq<string>)
    requires options != []
    ensures var tokens := Tokens(env, options);
      CFConnectingIP in FromOptions(env, c, options).0.headers <==>
      && !SomeMeans(tokens, TrustsAny)
      && (|| CFConnectingIP in c.headers
          || (&& (c.trustCloudflare || SomeMeans(tokens, TrustsCloudflare))
              && AllGood(env, c.trusted + EntriesIn(tokens)) && c.headers == [] && !SomeParses(tokens)))
  {
    var tokens := Tokens(env, options);
    FlagsMeaning(c, tokens);
    EntriesMeaning(c, tokens);
    HeadersNamed(c, tokens);
    AllGoodRanges(env, ApplyTokens(c, tokens).trusted);
  }

  /** The option `cloudflare` beside another header: its ranges are trusted and its header is not read. */
  lemma {:induction false} CloudflareUnread(env: Platform, c: Config, options: seq<string>)
    requires options != [] && Tokens(env, options) == ["cloudflare", "x-real-ip"] && c.headers == []
    ensures var r := FromOptions(env, c, options).0;
      r.trustCloudflare && r.headers == [XRealIP]
  {
    var tokens := Tokens(env, options);
    TwoTokens(c, "cloudflare", "x-real-ip");
  }

  lemma TwoTokens(c: Config, first: string, second: string)
    ensures ApplyTokens(c, [first, second]) == ApplyToken(ApplyToken(c, first), second)
  {
    var tokens := [first, second];
    assert tokens[..1] == [first] && [first][..0] == [];
    assert ApplyTokens(c, [first]) == ApplyToken(ApplyTokens(c, []), first);
    assert ApplyTokens(c, tokens) == ApplyToken(ApplyTokens(c, tokens[..1]), tokens[1]);
  }

  lemma HeadersNamed(c: Config, tokens: seq<string>)
    ensures var headers := ApplyTokens(c, tokens).headers;
      && (CFConnectingIP in headers <==> !SomeMeans(tokens, TrustsAny) && CFConnectingIP in c.headers)
      && (headers == [] <==> !SomeMeans(tokens, TrustsAny) && c.headers == [] && !SomeParses(tokens))
  {
    ParsersMeaning(c, tokens);
    NoAny(tokens);
    ParsersNamed(tokens[AfterLastAny(tokens)..]);
    assert AfterLastAny(tokens) == 0 ==> tokens[0..] == tokens;
  }

  lemma {:induction false} LastAny(tokens: seq<string>)
    ensures var n := AfterLastAny(tokens);
      && (n > 0 ==> tokens[n - 1] in ["*", "any", "all"])
      && forall i :: n <= i < |tokens| ==> tokens[i] !in ["*", "any", "all"]
  {
    if tokens != [] {
      AnyNames(tokens[|tokens| - 1]);
      LastAny(tokens[..|tokens| - 1]);
    }
  }

  lemma {:induction false} NoAny(tokens: seq<string>)
    ensures AfterLastAny(tokens) == 0 <==> !SomeMeans(tokens, TrustsAny)
  {
    if tokens != [] {
      var before, last := tokens[..|tokens| - 1], tokens[|tokens| - 1];
      NoAny(before);
      assert tokens == before + [last];
      SomeMeansSnoc(before, last, TrustsAny);
    }
  }

  // ---------------------------------------------------------------- the choice

  /** The first address that is not trusted, or the last one when all are. */
  ghost function Pick(c: Config, ips: seq<Addr>): Addr
    requires ips != []
  {
    if !Trusts(c, ips[0]) || |ips| == 1 then ips[0] else Pick(c, ips[1..])
  }

  /** The first parser that yields anything decides; the peer stays when none does. */
  ghost function Chosen(env: Platform, c: Config, parsers: seq<Parser>, h: Header, peer: Addr): Addr {
    if parsers == [] then peer
    else
      var ips := Parsed(env, parsers[0], h);
      if ips == [] then Chosen(env, c, parsers[1..], h, peer) else Pick(c, ips)
  }

  /** The address written back to the request. */
  ghost function NewRemoteAddr(env: Platform, c: Config, h: Header, remoteAddr: string): string {
    match ParseAddr(env, Sanitize(env, remoteAddr))
    case None => remoteAddr
    case Some(peer) => env.format(if Trusts(c, peer) then Chosen(env, c, c.headers, h, peer) else peer)
  }

  /** `hops[i]` is the rightmost untrusted hop, or the leftmost hop and all are trusted. */
  ghost predicate IsClientHop(c: Config, hops: seq<Addr>, i: nat) {
    && i < |hops|
    && (forall j :: i < j < |hops| ==> Trusts(c, hops[j]))
    && (!Trusts(c, hops[i]) || i == 0)
  }

  lemma {:induction false} PickFirst(c: Config, ips: seq<Addr>) returns (k: nat)
    requires ips != []
    ensures k < |ips| && Pick(c, ips) == ips[k]
    ensures forall j :: 0 <= j < k ==> Trusts(c, ips[j])
    ensures !Trusts(c, ips[k]) || k == |ips| - 1
    decreases |ips|
  {
    if !Trusts(c, ips[0]) || |ips| == 1 {
      k := 0;
    } else {
      k := PickFirst(c, ips[1..]);
      assert forall j :: 0 < j <= k ==> ips[j] == ips[1..][j - 1];
      k := k + 1;
    }
  }

  lemma PickReversed(c: Config, hops: seq<Addr>) returns (i: nat)
    requires hops != []
    ensures IsClientHop(c, hops, i) && Pick(c, Reverse(hops)) == hops[i]
  {
    var r := Reverse(hops);
    var k := PickFirst(c, r);
    i := |hops| - 1 - k;
    forall j | i < j < |hops| ensures Trusts(c, hops[j]) {
      assert r[|hops| - 1 - j] == hops[j];
    }
  }

  /** Read as written, the X-Forwarded-For value gives its client hop. */
  lemma ForwardedChoice(env: Platform, c: Config, value: string) returns (i: nat)
    requires AllParse(env, Split(value, ','))
    ensures ForwardedHops(env, value) != []
    ensures IsClientHop(c, Hops(env, Split(value, ',')), i)
    ensures Pick(c, ForwardedHops(env, value)) == Hops(env, Split(value, ','))[i]
  {
    i := PickReversed(c, Hops(env, Split(value, ',')));
  }

  /** Which parser decides: the first that yields anything. */
  ghost predicate Decides(env: Platform, parsers: seq<Parser>, h: Header, d: nat) {
    && d < |parsers| && Parsed(env, parsers[d], h) != []
    && forall i :: 0 <= i < d ==> Parsed(env, parsers[i], h) == []
  }

  lemma {:induction false} DecidedBy(env: Platform, c: Config, parsers: seq<Parser>, h: Header, peer: Addr, d: nat)
    requires Decides(env, parsers, h, d)
    ensures Chosen(env, c, parsers, h, peer) == Pick(c, Parsed(env, parsers[d], h))
    decreases d
  {
    if d > 0 {
      DecidesLater(env, parsers, h, d);
      DecidedBy(env, c, parsers[1..], h, peer, d - 1);
    }
  }

  lemma DecidesLater(env: Platform, parsers: seq<Parser>, h: Header, d: nat)
    requires Decides(env, parsers, h, d) && d > 0
    ensures Parsed(env, parsers[0], h) == [] && Decides(env, parsers[1..], h, d - 1)
  {
    forall i | 0 <= i < d - 1 ensures Parsed(env, parsers[1..][i], h) == [] {
      assert parsers[1..][i] == parsers[i + 1];
    }
  }

  lemma {:induction false} NoneDecides(env: Platform, c: Config, parsers: seq<Parser>, h: Header, peer: Addr)
    requires forall i :: 0 <= i < |parsers| ==> Parsed(env, parsers[i], h) == []
    ensures Chosen(env, c, parsers, h, peer) == peer
  {
    if parsers != [] {
      forall i | 0 <= i < |parsers[1..]| ensures Parsed(env, parsers[1..][i], h) == [] {
        assert parsers[1..][i] == parsers[i + 1];
      }
      NoneDecides(env, c, parsers[1..], h, peer);
    }
  }

  /** One header decides alone, by its client hop; without one the peer is kept. */
  lemma {:induction false} ChoiceByOneHeader(env: Platform, c: Config, parsers: seq<Parser>, h: Header, peer: Addr)
    ensures (forall i :: 0 <= i < |parsers| ==> Parsed(env, parsers[i], h) == []) ==>
              Chosen(env, c, parsers, h, peer) == peer
    ensures forall d: nat :: Decides(env, parsers, h, d) ==>
              Chosen(env, c, parsers, h, peer) == Pick(c, Parsed(env, parsers[d], h))
  {
    if forall i :: 0 <= i < |parsers| ==> Parsed(env, parsers[i], h) == [] {
      NoneDecides(env, c, parsers, h, peer);
    }
    forall d: nat | Decides(env, parsers, h, d)
      ensures Chosen(env, c, parsers, h, peer) == Pick(c, Parsed(env, parsers[d], h))
    {
      DecidedBy(env, c, parsers, h, peer, d);
    }
  }

  // ---------------------------------------------------------------- who is believed

  /** The text that names the peer: the host without its port, or the whole when there is no host. */
  predicate NamesPeer(env: Platform, remoteAddr: string, text: string) {
    match env.splitHost(TrimSpace(remoteAddr))
    case Some(host) => if host == "" then text == remoteAddr else text == host
    case None => text == remoteAddr
  }

  /** Parser `d` is the first whose header holds addresses, and it holds `hops`. */
  ghost predicate FirstHolding(env: Platform, parsers: seq<Parser>, h: Header, d: nat, hops: seq<Addr>) {
    && d < |parsers| && Holds(env, parsers[d], h, hops)
    && forall i :: 0 <= i < d ==> HoldsNone(env, parsers[i], h)
  }

  /** What the handler writes back. A remote address that is none is kept. A peer that is not trusted is
      written back itself, whatever the headers hold, and so is a trusted one when they hold nothing.
      Otherwise it is the client hop of the first header that holds addresses. */
  lemma {:induction false} WhoIsBelieved(env: Platform, c: Config, h: Header, remoteAddr: string, text: string)
    requires NamesPeer(env, remoteAddr, text)
    ensures var out := NewRemoteAddr(env, c, h, remoteAddr);
      && (env.parseIP(TrimSpace(text)) == None ==> out == remoteAddr)
      && (forall peer :: Reads(env, text, peer) && !Trusts(c, peer) ==> out == env.format(peer))
      && (forall peer ::
            Reads(env, text, peer) && (forall i :: 0 <= i < |c.headers| ==> HoldsNone(env, c.headers[i], h)) ==>
              out == env.format(peer))
      && (forall peer, d: nat, hops ::
            Reads(env, text, peer) && Trusts(c, peer) && FirstHolding(env, c.headers, h, d, hops) ==>
              exists i: nat :: IsClientHop(c, hops, i) && out == env.format(hops[i]))
  {
    if env.parseIP(TrimSpace(text)).Some? {
      var peer := ToAddr(env.parseIP(TrimSpace(text)).value);
      assert ParseAddr(env, Sanitize(env, remoteAddr)) == Some(peer);
      if forall i :: 0 <= i < |c.headers| ==> HoldsNone(env, c.headers[i], h) {
        NothingHeld(env, c, h, peer);
      }
      forall d: nat, hops | FirstHolding(env, c.headers, h, d, hops)
        ensures exists i: nat :: IsClientHop(c, hops, i) && Chosen(env, c, c.headers, h, peer) == hops[i]
      {
        var i := HeldChoice(env, c, h, peer, d, hops);
      }
    }
  }

  lemma NothingHeld(env: Platform, c: Config, h: Header, peer: Addr)
    requires forall i :: 0 <= i < |c.headers| ==> HoldsNone(env, c.headers[i], h)
    ensures Chosen(env, c, c.headers, h, peer) == peer
  {
    forall i | 0 <= i < |c.headers| ensures Parsed(env, c.headers[i], h) == [] {
      ParserMeaning(env, c.headers[i], h);
    }
    NoneDecides(env, c, c.headers, h, peer);
  }

  lemma HeldChoice(env: Platform, c: Config, h: Header, peer: Addr, d: nat, hops: seq<Addr>) returns (i: nat)
    requires FirstHolding(env, c.headers, h, d, hops)
    ensures IsClientHop(c, hops, i) && Chosen(env, c, c.headers, h, peer) == hops[i]
  {
    ParserMeaning(env, c.headers[d], h);
    forall j | 0 <= j < d ensures Parsed(env, c.headers[j], h) == [] {
      ParserMeaning(env, c.headers[j], h);
    }
    DecidedBy(env, c, c.headers, h, peer, d);
    i := PickReversed(c, hops);
  }

  // ---------------------------------------------------------------- extending the header to the left

  lemma {:induction false} PickConcat(c: Config, near: seq<Addr>, far: seq<Addr>)
    requires near != [] && far != []
    ensures Pick(c, near + far) ==
            if exists a :: a in near && !Trusts(c, a) then Pick(c, near) else Pick(c, far)
    decreases |near|
  {
    assert (near + far)[1..] == near[1..] + far;
    assert forall a :: a in near <==> a == near[0] || a in near[1..];
    if |near| == 1 {
      assert near[1..] + far == far;
    } else if Trusts(c, near[0]) {
      PickConcat(c, near[1..], far);
    }
  }

  lemma ExtendedHops(env: Platform, before: string, value: string)
    requires AllParse(env, Split(before, ','))
    ensures ForwardedHops(env, before) != []
    ensures ForwardedHops(env, value) != [] ==>
              ForwardedHops(env, before + "," + value) == ForwardedHops(env, value) + ForwardedHops(env, before)
  {
    SplitConcat(before, value, ',');
    if AllParse(env, Split(value, ',')) {
      HopsConcat(env, Split(before, ','), Split(value, ','));
    }
  }

  lemma HopsConcat(env: Platform, a: seq<string>, b: seq<string>)
    requires AllParse(env, a) && AllParse(env, b)
    ensures AllParse(env, a + b)
    ensures Reverse(Hops(env, a + b)) == Reverse(Hops(env, b)) + Reverse(Hops(env, a))
  {
    forall i | 0 <= i < |a + b| ensures ParseAddr(env, (a + b)[i]).Some? {
      assert (a + b)[i] == if i < |a| then a[i] else b[i - |a|];
    }
    assert Hops(env, a + b) == Hops(env, a) + Hops(env, b);
    ReverseConcat(Hops(env, a), Hops(env, b));
  }

  lemma ReverseConcat(a: seq<Addr>, b: seq<Addr>)
    ensures Reverse(a + b) == Reverse(b) + Reverse(a)
  {
  }

  /** Addresses put in front of the deciding X-Forwarded-For line, its first, change nothing while it holds an
      untrusted hop; when all its hops are trusted, the addresses in front decide. */
  lemma {:induction false} LeftExtension(env: Platform, c: Config, h: Header, before: string, lines: seq<string>,
                                         peer: Addr, d: nat)
    requires Decides(env, c.headers, h, d) && c.headers[d] == XForwardedFor
    requires AllParse(env, Split(before, ','))
    ensures var value := Get(h, ForwardedFor);
      var near := ForwardedHops(env, value);
      Chosen(env, c, c.headers, h[ForwardedFor := [before + "," + value] + lines], peer) ==
      if exists a :: a in near && !Trusts(c, a) then Chosen(env, c, c.headers, h, peer)
      else Pick(c, ForwardedHops(env, before))
  {
    var value := Get(h, ForwardedFor);
    var h' := h[ForwardedFor := [before + "," + value] + lines];
    ExtendedHops(env, before, value);
    assert Get(h', ForwardedFor) == before + "," + value;
    StillDecides(env, c.headers, h, h', d);
    DecidedBy(env, c, c.headers, h, peer, d);
    DecidedBy(env, c, c.headers, h', peer, d);
    PickConcat(c, ForwardedHops(env, value), ForwardedHops(env, before));
  }

  /** A change to X-Forwarded-For alone is not seen by the parsers of other headers. */
  lemma {:induction false} StillDecides(env: Platform, parsers: seq<Parser>, h: Header, h': Header, d: nat)
    requires Decides(env, parsers, h, d) && parsers[d] == XForwardedFor
    requires Parsed(env, XForwardedFor, h') != []
    requires forall key :: key != ForwardedFor ==> Get(h', key) == Get(h, key)
    ensures Decides(env, parsers, h', d)
  {
    assert forall i :: 0 <= i < d ==> Parsed(env, parsers[i], h) == [] && parsers[i] != XForwardedFor;
    forall i | 0 <= i < d ensures Parsed(env, parsers[i], h') == [] {
      OtherHeader(env, parsers[i], h, h');
    }
  }

  lemma OtherHeader(env: Platform, p: Parser, h: Header, h': Header)
    requires forall key :: key != ForwardedFor ==> Get(h', key) == Get(h, key)
    ensures p != XForwardedFor ==> Parsed(env, p, h') == Parsed(env, p, h)
  {
  }

  // ---------------------------------------------------------------- the objects

  class HttpRequest {
    const header: Header
    var remoteAddr: string

    constructor (header: Header, remoteAddr: string)
      ensures this.header == header && this.remoteAddr == remoteAddr
    {
      this.header, this.remoteAddr := header, remoteAddr;
    }
  }

  class RealIPConfig {
    const env: Platform
    var trusted: seq<string>
    var trustPrivate: bool
    var trustAny: bool
    var trustCloudflare: bool
    var headers: seq<Parser>
    var trustedParsed: seq<Net>

    ghost function State(): Config
      reads this
    {
      Config(trusted, trustPrivate, trustAny, trustCloudflare, headers, trustedParsed)
    }

    constructor (env: Platform)
      ensures this.env == env && State() == EMPTY_CONFIG
    {
      this.env := env;
      trusted, trustPrivate, trustAny, trustCloudflare, headers, trustedParsed := [], false, false, false, [], [];
    }

    method IsTrusted(ip: Option<Addr>) returns (ok: bool)
      ensures ok <==> ip.Some? && Trusts(State(), ip.value)
    {
      if ip.None? {
        return false;
      }
      if trustAny {
        return true;
      }
      for i := 0 to |trustedParsed|
        invariant forall j :: 0 <= j < i ==> !Cidr.Contains(trustedParsed[j], ip.value)
      {
        if Cidr.Contains(trustedParsed[i], ip.value) {
          return true;
        }
      }
      return false;
    }

    /** The first loop of `Validate`. */
    method ParseEntries() returns (verdict: Verdict)
      modifies `trustedParsed
      ensures trustedParsed == GoodRanges(env, trusted)
      ensures verdict == if |trustedParsed| < |trusted| then InvalidEntry(trusted[|trustedParsed|]) else Valid
    {
      trustedParsed := [];
      for i := 0 to |trusted|
        invariant |trustedParsed| == i
        invariant GoodRanges(env, trusted) == trustedParsed + GoodRanges(env, trusted[i..])
      {
        assert trusted[i..][1..] == trusted[i + 1..];
        var range := ParseEntry(trusted[i]);
        if range.None? {
          return InvalidEntry(trusted[i]);
        }
        trustedParsed := trustedParsed + [range.value];
      }
      return Valid;
    }

    method ParseEntry(entry: string) returns (range: Option<Net>)
      ensures range == ParseRange(env, entry)
    {
      var cidr := env.parseCIDR(entry);
      if cidr.Some? {
        return cidr;
      }
      var ip := env.parseIP(entry);
      if ip.None? {
        return None;
      }
      var addr := ToAddr(ip.value);
      if addr.V4? {
        return Some(Net4(addr.x, 32));
      }
      return Some(Net6(ip.value, 128));
    }

    method AppendIf(on: bool, table: seq<Net>)
      modifies `trustedParsed
      ensures trustedParsed == old(trustedParsed) + if on then table else []
    {
      if on {
        trustedParsed := trustedParsed + table;
      }
    }

    method Validate() returns (verdict: Verdict)
      modifies this
      ensures (State(), verdict) == Validated(env, old(State()))
    {
      ghost var before := State();
      verdict := ParseEntries();
      if verdict != Valid {
        return;
      }
      AppendIf(trustPrivate, PRIVATE);
      AppendIf(trustAny, [NoMask]);
      AppendIf(trustCloudflare, CLOUDFLARE);
      if trustCloudflare && |headers| == 0 {
        headers := [CFConnectingIP];
      }
      if |trustedParsed| == 0 {
        return NothingTrusted;
      }
      if |headers| == 0 {
        return NoParsers;
      }
      return Valid;
    }

    /** The options are also trimmed and lowered in place, in the caller's slice. */
    method FromStringOpts(options: array<string>) returns (verdict: Verdict)
      modifies this, options
      ensures (State(), verdict) == FromOptions(env, old(State()), old(options[..]))
      ensures forall i :: 0 <= i < options.Length ==> options[i] == Lowered(env, old(options[i]))
    {
      if options.Length == 0 {
        trusted, trustPrivate, trustAny, trustCloudflare, headers, trustedParsed :=
          [], true, false, false, [XForwardedFor], [];
        return Valid;
      }
      ghost var before, given := State(), options[..];
      LowerAll(options);
      var expanded := Expand(options, given);
      for i := 0 to |expanded|
        invariant State() == ApplyTokens(before, expanded[..i])
        invariant forall j :: 0 <= j < options.Length ==> options[j] == Lowered(env, given[j])
      {
        assert expanded[..i + 1][..i] == expanded[..i];
        ApplyOption(expanded[i]);
      }
      assert expanded[..|expanded|] == expanded;
      verdict := Validate();
    }

    method LowerAll(options: array<string>)
      modifies options
      ensures forall i :: 0 <= i < options.Length ==> options[i] == Lowered(env, old(options[i]))
    {
      ghost var given := options[..];
      var lower := env.lower;
      var trim, low := (s: string) => TrimSpace(s), (s: string) => MapChars(lower, s);
      Text.Map(options, [trim, low]);
      forall i | 0 <= i < options.Length ensures options[i] == Lowered(env, given[i]) {
        assert [trim, low][..1] == [trim] && [trim][..0] == [];
        assert Text.ApplyAll([trim, low], given[i]) == low(Text.ApplyAll([trim], given[i]));
      }
    }

    method Expand(options: array<string>, ghost given: seq<string>) returns (expanded: seq<string>)
      requires |given| == options.Length
      requires forall i :: 0 <= i < options.Length ==> options[i] == Lowered(env, given[i])
      ensures expanded == Tokens(env, given)
    {
      expanded := [];
      for i := 0 to options.Length
        invariant expanded == Tokens(env, given[..i])
      {
        assert given[..i + 1][..i] == given[..i];
        var tokens := ExpandOne(options[i]);
        expanded := expanded + tokens;
      }
      assert given[..options.Length] == given;
    }

    method ExpandOne(option: string) returns (tokens: seq<string>)
      ensures tokens == TokensOf(option)
    {
      var parts := Split(option, ',');
      ghost var trimmed := TrimEach(parts);
      tokens := [];
      for j := 0 to |parts|
        invariant tokens == NonEmpty(trimmed[..j])
      {
        assert trimmed[..j + 1][..j] == trimmed[..j];
        var part := TrimSpace(parts[j]);
        if part != "" {
          tokens := tokens + [part];
        }
      }
      assert trimmed[..|parts|] == trimmed;
    }

    method ApplyOption(option: string)
      modifies this
      ensures State() == ApplyToken(old(State()), option)
    {
      if option == "cloudflare" || option == "cf-connecting-ip" {
        trustCloudflare := true;
      } else if option == "x-forwarded-for" {
        headers := headers + [XForwardedFor];
      } else if option == "x-real-ip" {
        headers := headers + [XRealIP];
      } else if option == "true-client-ip" {
        headers := headers + [TrueClientIP];
      } else if option == "*" || option == "any" || option == "all" {
        trustAny := true;
        headers := [XForwardedFor];
      } else if option in ["local", "localhost", "bogon", "internal", "private"] {
        trustPrivate := true;
      } else if option == "" {
      } else {
        trusted := trusted + [option];
      }
    }

    /** The handler of `UseRealIP`, before it calls the next one. */
    method Handle(r: HttpRequest)
      modifies r
      ensures r.remoteAddr == NewRemoteAddr(env, State(), r.header, old(r.remoteAddr))
    {
      var ip := ParseAddr(env, Sanitize(env, r.remoteAddr));
      var trusted := IsTrusted(ip);
      if ip.Some? && trusted {
        var chosen := Select(r.header, ip.value);
        ip := Some(chosen);
      }
      if ip.Some? {
        r.remoteAddr := env.format(ip.value);
      }
    }

    /** Its loops over the parsers and over the addresses each yields. */
    method Select(h: Header, peer: Addr) returns (ip: Addr)
      ensures ip == Chosen(env, State(), headers, h, peer)
    {
      ip := peer;
      for i := 0 to |headers|
        invariant ip == peer
        invariant Chosen(env, State(), headers, h, peer) == Chosen(env, State(), headers[i..], h, peer)
      {
        assert headers[i..][1..] == headers[i + 1..];
        var ips := ParseHeader(env, headers[i], h);
        var allTrusted;
        ip, allTrusted := Scan(ips, ip);
        if |ips| > 0 && allTrusted {
          ip := ips[|ips| - 1];
          return;
        }
        if !allTrusted {
          return;
        }
      }
    }

    /** The loop over one parser's addresses, up to the first that is not trusted. */
    method Scan(ips: seq<Addr>, peer: Addr) returns (ip: Addr, allTrusted: bool)
      ensures allTrusted ==> ip == peer && (ips != [] ==> Pick(State(), ips) == ips[|ips| - 1])
      ensures !allTrusted ==> ips != [] && ip == Pick(State(), ips)
    {
      ip, allTrusted := peer, true;
      for k := 0 to |ips|
        invariant allTrusted && ip == peer
        invariant k < |ips| ==> Pick(State(), ips) == Pick(State(), ips[k..])
        invariant k > 0 && k == |ips| ==> Pick(State(), ips) == ips[k - 1]
      {
        assert ips[k..][1..] == ips[k + 1..];
        var ok := IsTrusted(Some(ips[k]));
        if !ok {
          ip := ips[k];
          allTrusted := false;
          break;
        }
      }
    }
  }

  /** `UseRealIPStringOpts` up to the handler; it panics unless the verdict is `Valid`. That `UseRealIP`
      validates once more only matters without options. */
  method UseRealIPStringOpts(env: Platform, options: array<string>) returns (c: RealIPConfig, verdict: Verdict)
    modifies options
    ensures fresh(c) && c.env == env
    ensures (c.State(), verdict) ==
            if options.Length == 0 then Validated(env, DEFAULT_CONFIG)
            else FromOptions(env, EMPTY_CONFIG, old(options[..]))
  {
    c := new RealIPConfig(env);
    verdict := c.FromStringOpts(options);
    if verdict != Valid {
      return;
    }
    verdict := c.Validate();
    if options.Length > 0 {
      ValidateTwice(env, ApplyTokens(EMPTY_CONFIG, Tokens(env, old(options[..]))));
    }
  }
}
