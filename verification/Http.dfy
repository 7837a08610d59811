/** Header maps, and what the model takes over from the standard library. */
module Http {
  import opened Basics
  import Cidr

  /** Lower-casing of one character, `http.CanonicalHeaderKey`, `strconv.Itoa`, `net.ParseIP` (16
      bytes), `net.ParseCIDR`, the host of `net.SplitHostPort`, and `IP.String`. */
  datatype Platform = Platform(
    lower: char -> char,
    canonical: string -> string,
    itoa: int -> string,
    parseIP: string -> Option<Cidr.U128>,
    parseCIDR: string -> Option<Cidr.Net>,
    splitHost: string -> Option<string>,
    format: Cidr.Addr -> string)

  /** Header field names, as canonicalised: those the handlers use, and all others. */
  datatype Field =
    | Origin | Vary | RequestMethod | RequestHeaders | RequestPrivateNetwork
    | AllowOrigin | AllowMethods | AllowHeaders | AllowCredentials | AllowPrivateNetwork
    | ExposeHeaders | MaxAge
    | ForwardedFor | RealIp | TrueClientIp | CfConnectingIp
    | OtherField(name: string)

  type Header = map<Field, seq<string>>

  /** `Header.Get`. */
  function Get(h: Header, key: Field): string {
    if key in h && h[key] != [] then h[key][0] else ""
  }

  /** `Header.Values`. */
  function Values(h: Header, key: Field): seq<string> {
    if key in h then h[key] else []
  }
}
