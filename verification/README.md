# Verified model of chix

chix is HTTP middleware for Go. This project models the parts of it that hold real algorithms or
state, and proves what they promise for every input and every run:

- `Glob.dfy`: the wildcard matcher, compared with the language its patterns denote. Which patterns
  are decided exactly is characterised by a condition on the pattern.
- `Attrs.dfy`: grouping log attributes with keys like `a>b>c` into a tree: lookup, what is kept and
  what is lost, canonical form, independence of input order, regrouping.
- `BodyLimit.dfy`: limiting readers stacked on one request body, as classes refining a functional
  model, and what is delivered and reported over every interleaving of limits and reads.
- `Errors.dfy`, `Bind.dfy`: the depth-first search of error trees, the resolution of the errors given
  to one `Error` call, and the way of a body overflow out of `Bind` to a public 413.
- `Cidr.dfy`, `RealIP.dfy`: address ranges and their tables, the trust configuration and its string
  options, and the choice of the client address.
- `LimitedBuffer.dfy`: the truncating log buffer over all runs of writes.
- `Cors.dfy`: the CORS configuration, validated any number of times, and its two handlers, which must
  agree.
- `Strings.dfy`, `Text.dfy`, `Http.dfy`, `Basics.dfy`: what they share.

Code that changes objects, maps or slices is modelled as classes and methods, each proved against a
function of the old state; the promises are lemmas about those functions.

A Go string is modelled as its sequence of code points (valid UTF-8); `TrimSpace` is concrete. A log
value is a group without members, or anything else, which is carried along. What the middleware takes
from the standard library and cannot be seen here is a parameter, and every result holds for all its
values: lower-casing of one character, `net.ParseIP`, `net.ParseCIDR`, `net.SplitHostPort`, `IP.String`,
`http.CanonicalHeaderKey`, `strconv.Itoa`, the answers of the form and JSON parsers and of the
validator, appended error resolvers, and how the transport answers each read. Two results assume what
they need of them: that lower-casing neither makes nor destroys commas or white space
(`RealIP.CommaChunking`), and that it leaves `*`, and like `http.CanonicalHeaderKey` changes nothing
when applied again (`Cors.ValidateTwice`).

## Where the code and its documentation differ

The model follows the code.

- Attributes with a delimiter in their key are documented to end up nested (logger_schema.go:139,
  internal/logging/attrs.go:15). `slog.GroupValue` drops members that are empty groups
  (internal/logging/attrs.go:81), so one logged under `req>headers`, as for a request without any of the
  listed headers (logger.go:468), is lost: `Attrs.EmptyGroupIsLost`. `Attrs.NothingLost` says exactly
  when nothing is.
- `Glob` tests the text before the first `*` but does not cut it off, so `a*a` accepts `a`
  (internal/text/glob.go:35). `Glob.ExactPatterns` says exactly which patterns are unaffected.
- `Bind` is documented to return an error labelled 413 on overflow (bind.go:163). An overflow met by
  `ParseForm` leaves it labelled 400 and becomes 413 only in `Error` (`Bind.FormOverflow`,
  `Bind.OverflowLeavesBind`).
- Of two limits on a body the stricter is documented to apply (bodylimit.go:31). Put over a reader that
  has no more bytes left than the new limit, it is not the one reported: `BodyLimit.InnerOverflow`.
  `BodyLimit.InstalledOver` says exactly when it is.
- The range that `Validate` appends for `TrustAny` has a nil mask and matches no address
  (realip.go:166); `IsTrusted` answers before it is consulted.
- The default resolver does not see an overflow that a resolved error holds only in its list when
  several errors are passed (errors.go:217): `Errors.ListedOverflowUnseen`.
- `cloudflare` is documented to use the Cf-Connecting-Ip header (realip.go:240). It is used only when
  nothing else names a header (realip.go:171): `RealIP.CloudflareUnread`, `RealIP.CloudflareHeader`.
- A CORS configuration whose origins are replaced after `Validate` keeps the function installed by the
  first call (security.go:401), which may allow every origin: `Cors.StaleOrigins`, `Cors.OriginsReplaced`.
- The private table has 6to4 and Teredo forms of every IPv4 entry except 100.64.0.0/10
  (realip.go:400): `Cidr.EmbeddedFormsAgree`.

## Model

| member | source | states |
|---|---|---|
| `Glob.Glob` | internal/text/glob.go:13-53 | the loop decides `Accepts`: equality without a star, otherwise the leading literal as a prefix and the rest of the pattern, from its first star on, in the wildcard language |
| `Glob.GreedyStep` | internal/text/glob.go:40-49 | a middle part followed by a star can be matched if and only if it can be matched at its leftmost occurrence |
| `Glob.Complete` | internal/text/glob.go:11-13 | every text of the pattern's language is accepted |
| `Glob.ExactWithoutLeadingLiteral` | internal/text/glob.go:24-53 | star-free patterns and patterns with a leading star are decided exactly |
| `Glob.LeadingLiteral` | internal/text/glob.go:35-37 | for `lit*rest` the decision is prefix and `*rest` on the whole input, while the language wants `*rest` after the literal |
| `Glob.SingleStar` | internal/text/glob.go:31-52 | `a*b` is a prefix and a suffix test, exact if and only if the input is long enough for both |
| `Glob.AcceptsTooMuch` | internal/text/glob.go:35-52 | a text accepted outside the language |
| `Glob.DoubleStar` | internal/text/glob.go:24-52 | writing a star twice anywhere never changes the decision |
| `Glob.ExactPatterns` | internal/text/glob.go:24-53 | a pattern is decided exactly on all inputs if and only if its leading literal and the next literal cannot overlap |
| `Glob.OverlapWitness` | internal/text/glob.go:35-52 | builds, for every other pattern, a text accepted outside its language |
| `Text.Map` | internal/text/util.go:9-20 | in place, every element becomes the whole chain of functions applied to it, though the functions are the outer loop |
| `Text.SplitM` | internal/text/util.go:22-32 | the parts of all elements in order, which for a non-empty input are the parts of its join |
| `Text.SplitOfJoin` | internal/text/util.go:22-32 | splitting line by line is splitting the lines joined by the separator |
| `Strings.SplitJoin` | internal/text/util.go:22-32 | separator-free parts are recovered from their join |
| `Strings.JoinSplit` | internal/text/util.go:22-32 | splitting loses nothing and leaves no separator in a part |
| `Strings.TrimMeaning` | realip.go:317-317 | whatever stands between white space and neither begins nor ends with some is what trimming leaves |
| `Attrs.GroupAttrsRecursive` | internal/logging/attrs.go:23-85 | map, sort and recursion produce `Grouped`, whatever order the map yields its keys in; each group drops its members that are empty groups |
| `Attrs.Separate` | internal/logging/attrs.go:28-45 | the first pass: exactly the keys with members are in the map, each with its members in order |
| `Attrs.UnderShrinks` | internal/logging/attrs.go:69-78 | the recursion ends: cutting off a group's name shortens the total key length by at least one a member |
| `Attrs.LessMeaning` | internal/logging/attrs.go:63-63 | the order of group names is decided by the first differing character, a proper prefix coming first |
| `Attrs.SortedKeysAreRoots` | internal/logging/attrs.go:57-63 | any listing of the map's keys sorts to the one list of roots |
| `Attrs.LookupAgrees` | internal/logging/attrs.go:23-85 | for every key the values at its path are exactly the surviving values logged under it, in order: none if the key is empty or ends in the delimiter, and below a group no empty groups |
| `Attrs.Conservation` | internal/logging/attrs.go:33-82 | flattening gives back, as a multiset and in order for each key, exactly the inputs whose key is not empty and does not end in the delimiter and which are not an empty group below another group |
| `Attrs.NothingLost` | internal/logging/attrs.go:65-82 | every input with a proper key comes back if and only if none of them is an empty group below another group |
| `Attrs.EmptyGroupIsLost` | internal/logging/attrs.go:81-81 | an empty group logged under `req>headers` leaves only the empty group `req` |
| `Attrs.FlattenLookup` | internal/logging/attrs.go:65-82 | in a canonical tree flattening and looking up agree on every key |
| `Attrs.GroupedCanonical` | internal/logging/attrs.go:51-84 | at every depth leaves precede groups, group names are distinct and sorted, no name holds the delimiter and no leaf is nameless; no group below the top holds an empty group |
| `Attrs.OrderWithinGroups` | internal/logging/attrs.go:33-82 | only the order of the inputs within each group matters: inputs that agree on it for every path give the same tree |
| `Attrs.SwapAdjacent` | internal/logging/attrs.go:33-82 | in particular, swapping adjacent inputs of different groups leaves the whole tree unchanged |
| `Attrs.RegroupFixpoint` | internal/logging/attrs.go:33-49 | grouping the result again changes nothing if and only if no input key begins with the delimiter |
| `BodyLimit.Request.LimitBody` | bodylimit.go:34-65 | refines `Limit` on the stack of readers and the marker; a rejection changes nothing and is returned as a public 413, or answered at once when there is a writer |
| `BodyLimit.MaxBytesReader.Read` | bodylimit.go:53-53 | a linked reader refines `ReadBody` on the stack: one byte more asked than may pass, the cut at the limit, the sticky error |
| `BodyLimit.MaxBytesReader.constructor` | bodylimit.go:53-53 | a new reader goes outermost and has counted nothing |
| `BodyLimit.Request.Read` | bodylimit.go:53-54 | reading a request's body is reading its outermost reader |
| `BodyLimit.ReadLaw` | bodylimit.go:48-55 | one read through any stack passes the next bytes of the body, every reader pays for them, a failed stack passes none |
| `BodyLimit.EveryRunSound` | bodylimit.go:34-56 | for every interleaving of limits and reads the marker is the least accepted limit and the first accepted is not below the declared length, reader limits strictly decrease outwards to it, the bytes delivered are a prefix of the body, and no reader passes more than its limit since it was installed |
| `BodyLimit.FirstErrorIsFinal` | bodylimit.go:48-55 | the first error told to a reader of a limited body is the last news of it: whatever limits and reads follow, nothing more is delivered and every read that asks for bytes is told it again |
| `BodyLimit.OverflowLimit` | bodylimit.go:48-55 | known before the read: it overflows if and only if the transport has more for it than some reader has left, delivers the fewest bytes left, and carries the limit of the innermost reader with so few; that is the outermost one's if and only if all below it have more left |
| `BodyLimit.OverflowOrigin` | bodylimit.go:39-56 | for every interleaving, a reported overflow was first told by a read of a stack on which nothing had failed; it carries an accepted limit, and the limit then in force if and only if every reader below the outermost had more bytes left than it |
| `BodyLimit.InstalledOver` | bodylimit.go:39-54 | an overflow met by reads after a stricter limit was installed carries that limit if and only if every reader below had more bytes left at the installation |
| `BodyLimit.InnerOverflow` | bodylimit.go:39-56 | a run in which the limit reported is not the limit in force |
| `BodyLimit.ReadInStep` | bodylimit.go:39-55 | while nothing has failed the outermost reader alone decides |
| `BodyLimit.BodyLimitHolds` | bodylimit.go:29-56 | limits first, then any reads: end-of-file means the whole body fits and came through, an overflow carries the least limit and means exactly its first bytes came through, and the first error is repeated |
| `BodyLimit.ReadToEnd` | bodylimit.go:29-56 | a consumer that keeps reading from a transport that reports end-of-file with the last byte or after it holds the body cut at the least limit and is told which end it met, after at most one read more than the bytes it may have |
| `Errors.AsFindsTree` | errors.go:150-156 | the depth-first search misses no error of the wanted type in the unwrap tree and finds nothing outside it |
| `Errors.BodyLimitErrorResolver` | bodylimit.go:94-104 | answers by the first overflow in the error and then the list |
| `Errors.CompactErrors` | errors.go:194-200 | cutting nil errors out of the caller's slice one at a time leaves the others in front, in order, and behind them only copies of the last element |
| `Errors.CollectErrors` | errors.go:214-226 | collects what each error contributes and the highest status |
| `Errors.TopStatus` | errors.go:214-226 | the highest status code among the resolved errors, at least 0 |
| `Errors.Error` | errors.go:193-245 | what reaches the handler and how many resolvers were asked, a panic if and only if no error is left, and what the caller's slice then holds |
| `Errors.FirstAnswer` | errors.go:236-241 | the first resolver that answers decides and is the last one asked; without an answer all are asked and the error stays |
| `Errors.PlainUnanswered` | errors.go:206-241 | one plain error that no resolver answers reaches the handler unchanged, as a 500 |
| `Errors.OneResolved` | errors.go:206-234 | one resolved error that no resolver answers reaches the handler as labelled, with 500 for a status of 0 and its list joined when it has no error of its own |
| `Errors.SeveralErrors` | errors.go:214-241 | several errors that no resolver answers reach the handler as one of unknown visibility, with each one's contribution in order, joined, under the highest status among them, or 500 if none is positive |
| `Errors.ErrorWithCode` | errors.go:280-289 | no error, one, or several become one resolved error with that status, which is handled |
| `Errors.CodeAnswer` | errors.go:280-289 | an overflow in any of the errors given with a code is answered by a public 413; otherwise, without further resolvers, the code stands, or 500 for 0, around the one error, the list joined, or the code's standard text |
| `Errors.OverflowResolution` | errors.go:193-241 | with the default resolver in front, a public 413 around a `MaxBytesError` passed, no appended resolver asked, if and only if the overflow is where the resolver looks |
| `Errors.AggregateSees` | errors.go:206-234 | aggregating and filling in defaults neither hides an overflow nor makes one up |
| `Errors.PlainOrDirectIsSeen` | errors.go:208-226 | a plain error carrying an overflow, or a resolved error carrying it under its error, is always seen |
| `Errors.ListedOverflowUnseen` | errors.go:214-226 | an overflow only in the list of a resolved error is seen alone but not among several errors |
| `Errors.EarlyRejection` | bodylimit.go:58-65 | the early rejection is answered as a public 413 |
| `Bind.Bind` | bind.go:198-229 | the body is limited once, and the error is that of the first step that fails, mapped |
| `Bind.DecodeRequest` | bind.go:26-68 | the first failing parser's error, or the JSON decoder's own rejection, labelled 500 or public 400; only the JSON path limits the body |
| `Bind.BindAnswer` | bind.go:26-245 | the error of every call, by status and visibility: 413 when rejected; the validator's answer when no parser asked for the method and content type fails; otherwise by the first that does |
| `Bind.LabelledOverflow` | bind.go:231-245 | a labelled overflow is mapped to a public 413 of its own, any other error is returned as labelled |
| `Bind.OverflowLeavesBind` | bind.go:198-245 | an overflow leaves as a resolved error carrying it, labelled 413 exactly when `ParseForm` did not meet it, and passed to `Error` with any others it answers a public 413 |
| `Bind.FormOverflow` | bind.go:203-211 | an overflow met by `ParseForm` leaves labelled 400 and becomes 413 in `Error` |
| `Bind.LongBodyAnswered` | bind.go:198-245 | end to end: a body longer than the least limit, read past it by a parser that returns the last read's error, is answered by a public 413 around that limit, whatever is passed with it |
| `Bind.NoFalseOverflow` | bind.go:198-245 | an error that carries an overflow comes from one, or from the validator |
| `Cidr.ContainsBits` | realip.go:129-133 | a range contains exactly the addresses of its family that agree with it on its leading bits, bit by bit; without a mask none |
| `Cidr.EmbedCovers` | realip.go:426-453 | an embedded address is in the embedded range if and only if the IPv4 address is in the IPv4 range |
| `Cidr.SixToFourTable` | realip.go:428-440 | the 6to4 entries are the IPv4 entries, except carrier-grade NAT, one by one |
| `Cidr.TeredoTable` | realip.go:441-453 | the same for the Teredo entries |
| `Cidr.SixToFourPrivate` | realip.go:397-453 | a 6to4 address is private if and only if its IPv4 address is in an IPv4 entry other than carrier-grade NAT, whatever its low bits |
| `Cidr.TeredoPrivate` | realip.go:397-453 | the same for a Teredo address |
| `Cidr.EmbeddedFormsAgree` | realip.go:397-453 | an IPv4 address and its embedded forms are equally private if and only if it is not in 100.64.0.0/10 |
| `RealIP.ParseForwardedFor` | realip.go:27-48 | the addresses nearest hop first; one bad item voids the value |
| `RealIP.ParserMeaning` | realip.go:27-84 | each shipped parser yields the addresses its own header holds, white space around each item cut off, from right to left, and nothing if one is no address |
| `RealIP.ForwardedChoice` | realip.go:281-303 | the address picked is the rightmost untrusted hop as written, or the leftmost when all are trusted, and every hop to its right is trusted |
| `RealIP.ChoiceByOneHeader` | realip.go:281-303 | the first parser that yields anything decides alone; the peer stays when none does |
| `RealIP.LeftExtension` | realip.go:27-47 | addresses put in front of the deciding X-Forwarded-For line change nothing while it has an untrusted hop; otherwise they decide |
| `RealIP.RealIPConfig.Handle` | realip.go:272-310 | an unparseable remote address is kept, an untrusted peer's own address is written back, a trusted peer's request gets the chosen address |
| `RealIP.WhoIsBelieved` | realip.go:272-335 | an untrusted peer is written back itself, without its port, whatever the headers hold; a trusted one gives way to the client hop of the first header that holds addresses, and stays if none does; a remote address that is none is kept |
| `RealIP.RealIPConfig.Select` | realip.go:281-303 | the nested loops compute the choice |
| `RealIP.RealIPConfig.IsTrusted` | realip.go:122-135 | no address is not trusted; others are if any is, or if a range of the list holds them |
| `RealIP.RealIPConfig.Validate` | realip.go:139-185 | the whole new configuration and the verdict, also when an entry is bad |
| `RealIP.GoodRangesInOrder` | realip.go:142-159 | entry by entry the ranges up to the first entry that is neither a range nor an address |
| `RealIP.TrustAgrees` | realip.go:94-185 | after a successful validation an address is trusted if and only if any is, a configured range contains it, it is a configured address, or a chosen table contains it |
| `RealIP.VerdictMeaning` | realip.go:139-185 | the verdict: the first entry that is neither a range nor an address; nothing configured to trust; no header to read; or none of these |
| `RealIP.RealIPConfig.FromStringOpts` | realip.go:190-232 | the resulting configuration and verdict, and the caller's options trimmed and lowered in place |
| `RealIP.OptionsMeaning` | realip.go:234-250 | all options together: entries in order, flags set by any of their names, parsers in order, starting over at the last option that trusts any address |
| `RealIP.OptionsInOrder` | realip.go:208-229 | entries and parsers come in the order of the options |
| `RealIP.OneOption` | realip.go:208-229 | what each documented name stands for; any other option is an entry |
| `RealIP.CloudflareHeader` | realip.go:169-175 | after options Cf-Connecting-Ip is read if and only if no option trusts any address and it was read before, or the Cloudflare ranges are trusted, every entry is a range or an address, and neither an option nor the configuration names another header |
| `RealIP.CloudflareUnread` | realip.go:169-175 | the options `cloudflare` and `x-real-ip` trust the ranges and read X-Real-Ip alone |
| `RealIP.UseRealIPStringOpts` | realip.go:251-269 | the configuration and verdict the middleware starts with: with options those of `FromStringOpts`, unchanged by the second validation; without, the default validated |
| `RealIP.NoOptions` | realip.go:190-194 | without options, once validated, exactly the private ranges are trusted and X-Forwarded-For is read; until then nobody is trusted |
| `RealIP.CommaChunking` | realip.go:187-207 | separate options configure the same as one option holding them joined by commas |
| `RealIP.TokensBySplit` | realip.go:196-206 | the tokens are the comma-separated pieces of all options, trimmed and lowered, without the empty ones |
| `LimitedBuffer.LimitedBuffer.constructor` | internal/logging/limitedbuffer.go:29-35 | a new buffer is an empty run |
| `LimitedBuffer.LimitedBuffer.Write` | internal/logging/limitedbuffer.go:48-69 | extends the run by one write; the count and end-of-file returned are those accounted |
| `LimitedBuffer.LimitedBuffer.Contents` | internal/logging/limitedbuffer.go:48-69 | at any time the fields are what the offered bytes and the first write that does not fit determine |
| `LimitedBuffer.LimitedBuffer.Reset` | internal/logging/limitedbuffer.go:37-43 | after any run the buffer is as constructed, so every later run behaves as on a new one |
| `LimitedBuffer.RunContent` | internal/logging/limitedbuffer.go:48-69 | the contents over every run: all bytes, the first M, or a prefix of exactly determined length and the marker |
| `LimitedBuffer.RunBound` | internal/logging/limitedbuffer.go:22-69 | never more than M+13 bytes; the counts add up to the bytes offered plus 14 exactly when the cut was marked; end-of-file at most once |
| `LimitedBuffer.Frozen` | internal/logging/limitedbuffer.go:55-57 | once nothing remains no write changes the contents or reports end-of-file |
| `Cors.CORSConfig.Validate` | security.go:398-458 | the whole new configuration with its cached fields |
| `Cors.CORSConfig.AllowOrigin` | security.go:406-422 | the installed function answers whether some pattern accepts the origin |
| `Cors.CORSConfig.HandlePreflight` | security.go:498-550 | the response header after a preflight, granted or refused |
| `Cors.CORSConfig.HandleRequest` | security.go:552-586 | the response header after an actual request |
| `Cors.OriginsNormalized` | security.go:399-404 | configured patterns count lowered and trimmed; none at all, while no function is set, means every origin |
| `Cors.ValidateTwice` | security.go:395-458 | validating again, as installing the handler does, changes no field |
| `Cors.OriginDecision` | security.go:398-423 | after validation with a built-in function, installed now or by an earlier call, an origin is allowed if and only if some configured pattern accepts it or the function that allows all was installed before |
| `Cors.OriginsReplaced` | security.go:398-442 | origins replaced between two validations decide only if the first did not allow all, which it otherwise keeps doing, each origin then named on its own |
| `Cors.StaleOrigins` | security.go:401-422 | no origins at first and `*a` afterwards: the origin `b` stays allowed |
| `Cors.OriginLanguage` | security.go:410-422 | when no pattern's literals can overlap, the allowed origins are exactly those of the patterns' languages, or all if all were allowed before |
| `Cors.PreflightDecision` | security.go:498-535 | a preflight is answered with an allowed origin if and only if, by the configuration as written, its origin is not empty and accepted by a pattern (or all are allowed), its method is listed and not OPTIONS, and every header name it asks for is listed in canonical form, or `*` is |
| `Cors.PreflightResponse` | security.go:498-550 | the whole response: refused, Vary alone changes; granted, the origin or `*`, the method asked for, the header names asked for, and credentials, private network and maximal age as configured |
| `Cors.RequestDecision` | security.go:559-571 | an actual request is answered with an allowed origin if and only if its origin is not empty and allowed by the configuration, and its method is listed or OPTIONS |
| `Cors.RequestResponse` | security.go:552-586 | the whole response: refused, Vary alone changes; granted, the origin or `*`, one line of exposed headers, and credentials as configured |
| `Cors.CustomRequest` | security.go:559-571 | with the user's own origin function its answer decides in place of the patterns, and what it varies on is added in one line |
| `Cors.CustomPreflight` | security.go:505-512 | the same for a preflight |
| `Cors.PreflightAndRequestAgree` | security.go:498-586 | a granted preflight and the request it announces get the same allowed origin and the same credentials header |
| `Cors.FieldLinesIrrelevant` | security.go:518-537 | preflights whose requested header names are the same once split at commas and trimmed get the same decision and response |
| `Cors.CombinedFieldLines` | security.go:518-537 | several field lines and one combining them by a comma with any white space around it are answered alike |

## Left out

- Error: resolved errors are values, so filling in defaults does not show in a `*ResolvedError` the caller still holds, and a resolver that changes its argument is modelled by its answer alone.
- Bind: the parsers and the validator are their answers; how they read the limited body is not modelled inside `Bind`; `Bind.LongBodyAnswered` joins the two for parsers that return the error of their last read. A custom or absent decoder or validator is not.
- Validate: of the CORS and real-IP configurations, slices are values, so the in-place change of slices the caller shares (security.go:399) is not seen; `FromStringOpts` does model it.
- AllowOrigin: the installed function reads the origins of the configuration it was installed in; a copy of the configuration that goes on consulting the original is not modelled.
- HandlePreflight: a header that is present is taken to have a line, as the HTTP server guarantees; the code would index an empty slice otherwise.
- Max-Age is computed on whole nanoseconds, not through the floating point value of `Duration.Seconds`.
- Custom header parsers of the real-IP configuration; the shipped ones are modelled.
- `http.MaxBytesReader` telling the server to close the connection after an overflow.
- Which errors are masked or exposed, and the response body the error handler renders.
- The cross-origin protection rules, session and authentication code, redirects, static files, rendering, metrics, request IDs and the logger around the attribute and buffer code: input and output, or single-branch logic that would only add easy members.
- `UsePrivateIP`, `UseContextIP` and the dispatch of preflight requests: one call each to what is modelled.
