/** Double-submit CSRF protection, after `src/auth/csrf.rs`. */
module Csrf {
  import opened Wrappers
  import Hex
  import Text

  // ---------- configuration ----------

  datatype SameSite = Strict | Lax

  datatype CsrfConfig = CsrfConfig(cookieName: string, headerName: string, secure: bool, sameSite: SameSite)

  const HOST_PREFIX := "__Host-"

  const PRODUCTION := CsrfConfig("__Host-csrf", "x-csrf-token", true, Strict)
  const DEVELOPMENT := CsrfConfig("arcature-csrf", "x-csrf-token", false, Strict)
  const INERTIA := CsrfConfig("XSRF-TOKEN", "x-xsrf-token", true, Lax)

  datatype ConfigCall = WithCookieName(name: string) | WithHeaderName(name: string) | WithSameSite(site: SameSite)
                      | WithSecure(secure: bool)

  /** One builder call; switching `Secure` off under a `__Host-` name is refused. */
  function Configure(c: CsrfConfig, call: ConfigCall): Option<CsrfConfig> {
    match call
    case WithCookieName(name) => Some(c.(cookieName := name, secure := c.secure || HOST_PREFIX <= name))
    case WithHeaderName(name) => Some(c.(headerName := name))
    case WithSameSite(site) => Some(c.(sameSite := site))
    case WithSecure(secure) => if !secure && HOST_PREFIX <= c.cookieName then None else Some(c.(secure := secure))
  }

  function ConfigureAll(c: CsrfConfig, calls: seq<ConfigCall>): Option<CsrfConfig> {
    if calls == [] then Some(c)
    else
      match ConfigureAll(c, calls[..|calls| - 1])
      case None => None
      case Some(d) => Configure(d, calls[|calls| - 1])
  }

  /** Section 4.1.3.2 of RFC 6265bis: a `__Host-` cookie is `Secure` (its path is always `/`, without a domain). */
  predicate HostRule(c: CsrfConfig) { HOST_PREFIX <= c.cookieName ==> c.secure }

  /** No chain of builder calls on a preset reaches a `__Host-` name with `Secure` off. */
  lemma {:induction false} ChainsKeepHostRule(preset: CsrfConfig, calls: seq<ConfigCall>)
    requires preset == PRODUCTION || preset == DEVELOPMENT || preset == INERTIA
    ensures ConfigureAll(preset, calls).Some? ==> HostRule(ConfigureAll(preset, calls).value)
  {
    if calls == [] {
      assert DEVELOPMENT.cookieName[0] == 'a';
    } else {
      ChainsKeepHostRule(preset, calls[..|calls| - 1]);
    }
  }

  /** The last value that a call of the chain picks, or the preset's. */
  function Last<T>(calls: seq<ConfigCall>, pick: ConfigCall -> Option<T>, preset: T): T {
    if calls == [] then preset
    else
      var n := |calls| - 1;
      if pick(calls[n]).Some? then pick(calls[n]).value else Last(calls[..n], pick, preset)
  }

  function PicksCookie(call: ConfigCall): Option<string> { if call.WithCookieName? then Some(call.name) else None }

  function PicksHeader(call: ConfigCall): Option<string> { if call.WithHeaderName? then Some(call.name) else None }

  function PicksSite(call: ConfigCall): Option<SameSite> { if call.WithSameSite? then Some(call.site) else None }

  /** A `__Host-` name switches `Secure` on. */
  function PicksSecure(call: ConfigCall): Option<bool> {
    match call
    case WithSecure(secure) => Some(secure)
    case WithCookieName(name) => if "__Host-" <= name then Some(true) else None
    case _ => None
  }

  /** The chain switches `Secure` off under a `__Host-` name. */
  predicate Insecure(preset: CsrfConfig, calls: seq<ConfigCall>) {
    exists i :: 0 <= i < |calls| && calls[i] == WithSecure(false)
                && "__Host-" <= Last(calls[..i], PicksCookie, preset.cookieName)
  }

  /** Each setting is its last pick, as long as the chain is not refused. */
  ghost predicate HoldsLast(preset: CsrfConfig, calls: seq<ConfigCall>, cfg: CsrfConfig) {
    && cfg.cookieName == Last(calls, PicksCookie, preset.cookieName)
    && cfg.headerName == Last(calls, PicksHeader, preset.headerName)
    && cfg.secure == Last(calls, PicksSecure, preset.secure)
    && cfg.sameSite == Last(calls, PicksSite, preset.sameSite)
  }

  lemma ConfigureHoldsLast(preset: CsrfConfig, calls: seq<ConfigCall>, cfg: CsrfConfig, call: ConfigCall)
    requires HoldsLast(preset, calls, cfg)
    ensures Configure(cfg, call).Some? ==> HoldsLast(preset, calls + [call], Configure(cfg, call).value)
  {
    assert (calls + [call])[..|calls|] == calls;
  }

  lemma InsecureSnoc(preset: CsrfConfig, calls: seq<ConfigCall>, call: ConfigCall)
    ensures Insecure(preset, calls + [call]) <==>
      Insecure(preset, calls) || (call == WithSecure(false) && "__Host-" <= Last(calls, PicksCookie, preset.cookieName))
  {
    var all := calls + [call];
    assert forall i :: 0 <= i <= |calls| ==> all[..i] == calls[..i];
    assert calls[..|calls|] == calls && all[|calls|] == call;
    assert forall i :: 0 <= i < |calls| ==> all[i] == calls[i];
  }

  /** A chain leaves the last of each setting, and is refused exactly if it asks for an insecure `__Host-` cookie. */
  lemma {:induction false} ChainExactly(preset: CsrfConfig, calls: seq<ConfigCall>)
    ensures ConfigureAll(preset, calls).None? <==> Insecure(preset, calls)
    ensures ConfigureAll(preset, calls).Some? ==> HoldsLast(preset, calls, ConfigureAll(preset, calls).value)
  {
    if calls != [] {
      var front, call := calls[..|calls| - 1], calls[|calls| - 1];
      assert calls == front + [call];
      ChainExactly(preset, front);
      InsecureSnoc(preset, front, call);
      if ConfigureAll(preset, front).Some? {
        ConfigureHoldsLast(preset, front, ConfigureAll(preset, front).value, call);
      }
    }
  }

  // ---------- tokens ----------

  const TOKEN_BYTES := 32

  /** `CsrfToken::parse` accepts exactly 64 hexadecimal characters. */
  predicate IsToken(s: string) { |s| == 2 * TOKEN_BYTES && Hex.AllHex(s) }

  /** The token spelled from the random bytes the operating system gave. */
  function Generated(random: seq<Hex.Byte>): (token: string)
    requires |random| == TOKEN_BYTES
    ensures IsToken(token)
  {
    Hex.HexEncode(random)
  }

  /** A token is the hexadecimal of 32 bytes, in capitals or not. */
  lemma TokenExactly(s: string)
    ensures IsToken(s) <==> exists random: seq<Hex.Byte> :: |random| == 32 && Hex.HexEncode(random) == Text.LowerAll(s)
  {
    if IsToken(s) {
      Hex.EncodeDecode(s);
      assert |Hex.DecodePairs(Hex.Codes(s)).value| == 32;
    }
    if random: seq<Hex.Byte> :| |random| == 32 && Hex.HexEncode(random) == Text.LowerAll(s) {
      forall c | c in s ensures Hex.IsHex(c) {
        var i :| 0 <= i < |s| && s[i] == c;
        assert Hex.HexEncode(random)[i] == Text.Lower(c) && Hex.HexEncode(random)[i] in Hex.HexEncode(random);
      }
    }
  }

  // ---------- reading the request ----------

  /** Header values by lowercase name; of a repeated header the first value. */
  datatype Request = Request(verb: string, headers: map<string, string>)

  /** The value under a lowercase name. */
  function Field(r: Request, name: string): Option<string> {
    if name in r.headers then Some(r.headers[name]) else None
  }

  /** The characters of an HTTP field name, and how long one may be. */
  predicate IsFieldChar(c: char) {
    'a' <= c <= 'z' || 'A' <= c <= 'Z' || '0' <= c <= '9' || c in "!#$%&'*+-.^_`|~"
  }

  predicate FieldName(name: string) { 0 < |name| <= 0xFFFF && forall c <- name :: IsFieldChar(c) }

  /** `HeaderMap::get` with a text: one that is no field name finds nothing, whatever the request carries. */
  function Header(r: Request, name: string): Option<string> {
    if FieldName(name) then Field(r, Text.LowerAll(name)) else None
  }

  predicate SafeVerb(verb: string) { verb in {"GET", "HEAD", "OPTIONS", "TRACE"} }

  predicate IsSafe(r: Request) { SafeVerb(r.verb) }

  predicate IsAsciiSpace(c: char) { c == ' ' || c == '\t' || c == '\n' || c == '\r' || c as int == 0x0C }

  function FirstWord(s: string): string {
    if s == [] || IsAsciiSpace(s[0]) then [] else [s[0]] + FirstWord(s[1..])
  }

  predicate BearerScheme(v: Option<string>) { v.Some? && Text.LowerAll(FirstWord(v.value)) == "bearer" }

  predicate IsBearer(r: Request) { BearerScheme(Field(r, "authorization")) }

  /** A bearer request is one whose `Authorization` is `bearer` in any case, alone or before whitespace. */
  lemma BearerExactly(r: Request)
    ensures IsBearer(r) <==>
      exists scheme, rest :: Field(r, "authorization") == Some(scheme + rest) && Text.LowerAll(scheme) == "bearer"
                             && (rest == [] || IsAsciiSpace(rest[0]))
  {
    var v := Field(r, "authorization");
    if v.Some? {
      FirstWordIs(v.value);
      var word := FirstWord(v.value);
      assert v.value == word + v.value[|word|..];
    }
    forall scheme, rest | v == Some(scheme + rest) && Text.LowerAll(scheme) == "bearer"
                          && (rest == [] || IsAsciiSpace(rest[0]))
      ensures IsBearer(r)
    {
      forall i | 0 <= i < |scheme| ensures !IsAsciiSpace(scheme[i]) {
        assert Text.LowerAll(scheme)[i] == "bearer"[i];
      }
      FirstWordOf(scheme, rest);
    }
  }

  lemma {:induction false} FirstWordIs(s: string)
    ensures FirstWord(s) <= s && (|FirstWord(s)| < |s| ==> IsAsciiSpace(s[|FirstWord(s)|]))
  {
    if s != [] && !IsAsciiSpace(s[0]) {
      FirstWordIs(s[1..]);
    }
  }

  lemma {:induction false} FirstWordOf(word: string, rest: string)
    requires (forall i :: 0 <= i < |word| ==> !IsAsciiSpace(word[i])) && (rest == [] || IsAsciiSpace(rest[0]))
    ensures FirstWord(word + rest) == word
  {
    if word == [] {
      assert word + rest == rest;
    } else {
      assert (word + rest)[0] == word[0] && (word + rest)[1..] == word[1..] + rest;
      FirstWordOf(word[1..], rest);
    }
  }

  /** `HeaderValue::to_str` reads a value as text only if it is visible ASCII and tabs. */
  predicate Visible(raw: string) { forall c <- raw :: c == '\t' || 0x20 <= c as int < 0x7F }

  /** The pieces of a header value between semicolons. */
  function Split(s: string): (r: seq<string>)
    ensures r != []
  {
    if s == [] then [[]]
    else if s[0] == ';' then [[]] + Split(s[1..])
    else Lead(s[0], Split(s[1..]))
  }

  /** One character more at the start of the first piece. */
  function Lead(c: char, pieces: seq<string>): (r: seq<string>)
    requires pieces != []
    ensures |r| == |pieces|
  {
    [[c] + pieces[0]] + pieces[1..]
  }

  /** The cookie parser of the cookie library: a piece is a name and a value, or malformed. */
  type CookieParser = string -> Option<(string, string)>

  function TokenOf(value: string): Option<string> { if IsToken(value) then Some(value) else None }

  /** Walk the pieces: skip empty ones, stop at a malformed one, answer at the first of this name. */
  function FindCookie(parse: CookieParser, pieces: seq<string>, name: string): Option<string> {
    if pieces == [] then None
    else
      var piece := Text.Trim(pieces[0]);
      if piece == [] then FindCookie(parse, pieces[1..], name)
      else
        match parse(piece)
        case None => None
        case Some((n, value)) => if n == name then TokenOf(value) else FindCookie(parse, pieces[1..], name)
  }

  function CookieToken(parse: CookieParser, r: Request, name: string): Option<string> {
    match Field(r, "cookie")
    case None => None
    case Some(raw) => if Visible(raw) then FindCookie(parse, Split(raw), name) else None
  }

  function HeaderToken(r: Request, name: string): Option<string> {
    match Header(r, name) case None => None case Some(raw) => if Visible(raw) then TokenOf(raw) else None
  }

  /** `extract_csrf_cookie`, as its loop. */
  method ExtractCookie(parse: CookieParser, r: Request, name: string) returns (token: Option<string>)
    ensures token == CookieToken(parse, r, name)
  {
    var raw := Field(r, "cookie");
    if raw.None? || !Visible(raw.value) {
      return None;
    }
    var pieces := Split(raw.value);
    for i := 0 to |pieces|
      invariant FindCookie(parse, Split(raw.value), name) == FindCookie(parse, pieces[i..], name)
    {
      var piece := Text.Trim(pieces[i]);
      assert pieces[i..][1..] == pieces[i + 1..];
      if piece != [] {
        var cookie := parse(piece);
        if cookie.None? {
          return None;
        }
        if cookie.value.0 == name {
          return TokenOf(cookie.value.1);
        }
      }
    }
    token := None;
  }

  /** The search goes on past a piece that is empty or parses to a cookie of another name. */
  predicate Skips(parse: CookieParser, piece: string, name: string) {
    var trimmed := Text.Trim(piece);
    trimmed == [] || (parse(trimmed).Some? && parse(trimmed).value.0 != name)
  }

  ghost predicate SkippedBefore(parse: CookieParser, pieces: seq<string>, i: nat, name: string)
    requires i <= |pieces|
  {
    forall j :: 0 <= j < i ==> Skips(parse, pieces[j], name)
  }

  ghost predicate FoundAt(parse: CookieParser, pieces: seq<string>, i: nat, name: string, token: string) {
    && i < |pieces| && SkippedBefore(parse, pieces, i, name)
    && Text.Trim(pieces[i]) != [] && parse(Text.Trim(pieces[i])) == Some((name, token)) && IsToken(token)
  }

  /** The cookie token is readable exactly when every piece before the cookie is empty or well-formed. */
  lemma {:induction false} FindCookieExactly(parse: CookieParser, pieces: seq<string>, name: string, token: string)
    ensures FindCookie(parse, pieces, name) == Some(token) <==> exists i: nat :: FoundAt(parse, pieces, i, name, token)
  {
    if pieces != [] {
      var piece, rest := Text.Trim(pieces[0]), pieces[1..];
      FindCookieExactly(parse, rest, name, token);
      if Skips(parse, pieces[0], name) {
        forall i: nat | FoundAt(parse, rest, i, name, token) ensures FoundAt(parse, pieces, i + 1, name, token) {
          assert forall j :: 1 <= j < i + 1 ==> pieces[j] == rest[j - 1];
        }
        forall i: nat | FoundAt(parse, pieces, i, name, token) && i > 0 ensures FoundAt(parse, rest, i - 1, name, token) {
          assert forall j :: 0 <= j < i - 1 ==> rest[j] == pieces[j + 1];
        }
        assert !FoundAt(parse, pieces, 0, name, token);
      } else {
        if FindCookie(parse, pieces, name) == Some(token) {
          assert FoundAt(parse, pieces, 0, name, token);
        }
      }
    }
  }

  // ---------- the middleware ----------

  datatype CsrfError = MissingCookie | MissingHeader | TokenMismatch

  /** Refuse with 403, or hand the request on; `inject` asks for a fresh cookie on the response. */
  datatype Decision = Reject(error: CsrfError) | Forward(inject: bool)

  /** `CsrfMiddleware::call` up to the inner service. */
  function Decide(parse: CookieParser, cfg: CsrfConfig, r: Request): Decision {
    var cookie := CookieToken(parse, r, cfg.cookieName);
    var inject := cookie.None? && !IsBearer(r);
    if IsSafe(r) || IsBearer(r) then Forward(inject)
    else if cookie.None? then Reject(MissingCookie)
    else
      match HeaderToken(r, cfg.headerName)
      case None => Reject(MissingHeader)
      case Some(token) => if cookie.value != token then Reject(TokenMismatch) else Forward(inject)
  }

  /** The methods that are let through without a token. */
  ghost predicate ReadsOnly(r: Request) {
    r.verb == "GET" || r.verb == "HEAD" || r.verb == "OPTIONS" || r.verb == "TRACE"
  }

  /**
   * A request of any other method, without a bearer token, reaches the service exactly with two equal
   * well-formed tokens; each refusal has its cause.
   */
  lemma DoubleSubmit(parse: CookieParser, cfg: CsrfConfig, r: Request)
    requires !ReadsOnly(r) && !IsBearer(r)
    ensures Decide(parse, cfg, r).Forward? <==>
      exists token :: IsToken(token) && Header(r, cfg.headerName) == Some(token)
                      && CookieToken(parse, r, cfg.cookieName) == Some(token)
    ensures Decide(parse, cfg, r).Forward? ==> !Decide(parse, cfg, r).inject
    ensures var cookie, header := CookieToken(parse, r, cfg.cookieName), Header(r, cfg.headerName);
      && (Decide(parse, cfg, r) == Reject(MissingCookie) <==> cookie.None?)
      && (Decide(parse, cfg, r) == Reject(MissingHeader) <==>
            cookie.Some? && (header.None? || !IsToken(header.value)))
      && (Decide(parse, cfg, r) == Reject(TokenMismatch) <==>
            cookie.Some? && header.Some? && IsToken(header.value) && header != cookie)
  {
    forall token | IsToken(token) ensures Visible(token) {
      TokenIsPlain(token);
    }
    if Decide(parse, cfg, r).Forward? {
      var token := HeaderToken(r, cfg.headerName).value;
      assert IsToken(token) && Header(r, cfg.headerName) == Some(token);
    }
  }

  /** Requests of those methods and bearer requests always pass; a token is injected exactly if none is readable. */
  lemma ReadableTokenIsKept(parse: CookieParser, cfg: CsrfConfig, r: Request)
    ensures ReadsOnly(r) || IsBearer(r) ==> Decide(parse, cfg, r).Forward?
    ensures Decide(parse, cfg, r) == Forward(true) <==>
      ReadsOnly(r) && !IsBearer(r) && CookieToken(parse, r, cfg.cookieName).None?
  {
  }

  // ---------- a cookie header as a browser writes it ----------

  function Join(parts: seq<string>): string {
    if parts == [] then "" else if |parts| == 1 then parts[0] else parts[0] + ";" + (" " + Join(parts[1..]))
  }

  /** The pieces of several texts, one after another. */
  function Pieces(parts: seq<string>): seq<string> {
    if parts == [] then [] else Split(parts[0]) + Pieces(parts[1..])
  }

  lemma SplitCons(c: char, s: string)
    ensures Split([c] + s) == if c == ';' then [[]] + Split(s) else Lead(c, Split(s))
  {
    assert ([c] + s)[1..] == s;
  }

  lemma {:induction false} SplitConcat(x: string, y: string)
    ensures Split(x + ";" + y) == Split(x) + Split(y)
  {
    if x == [] {
      SplitCons(';', y);
      assert x + ";" + y == [';'] + y;
    } else {
      var c, rest := x[0], x[1..];
      SplitConcat(rest, y);
      SplitCons(c, rest);
      SplitCons(c, rest + ";" + y);
      assert x == [c] + rest && x + ";" + y == [c] + (rest + ";" + y);
      if c == ';' {
        Text.ConcatAssociates([[]], Split(rest), Split(y));
      } else {
        LeadConcat(c, Split(rest), Split(y));
      }
    }
  }

  lemma LeadConcat(c: char, a: seq<string>, b: seq<string>)
    requires a != []
    ensures Lead(c, a + b) == Lead(c, a) + b
  {
    assert (a + b)[0] == a[0] && (a + b)[1..] == a[1..] + b;
  }

  lemma {:induction false} PiecesConcat(a: seq<string>, b: seq<string>)
    ensures Pieces(a + b) == Pieces(a) + Pieces(b)
  {
    if a == [] {
      assert a + b == b;
    } else {
      PiecesConcat(a[1..], b);
      assert (a + b)[0] == a[0] && (a + b)[1..] == a[1..] + b;
      Text.ConcatAssociates(Split(a[0]), Pieces(a[1..]), Pieces(b));
    }
  }

  /** Whatever comes first is searched first; the rest counts only if all of that is skipped. */
  lemma {:induction false} FindConcat(parse: CookieParser, a: seq<string>, b: seq<string>, name: string)
    ensures FindCookie(parse, a + b, name) ==
      if SkippedBefore(parse, a, |a|, name) then FindCookie(parse, b, name) else FindCookie(parse, a, name)
  {
    if a == [] {
      assert a + b == b;
    } else {
      var rest := a[1..];
      FindConcat(parse, rest, b, name);
      assert (a + b)[1..] == rest + b;
      assert forall j :: 0 <= j < |rest| ==> rest[j] == a[j + 1];
      assert forall j :: 1 <= j < |a| ==> a[j] == rest[j - 1];
    }
  }

  /** The space after a separator is trimmed away. */
  lemma FindLed(parse: CookieParser, s: string, name: string)
    ensures FindCookie(parse, Split(" " + s), name) == FindCookie(parse, Split(s), name)
  {
    var pieces, led := Split(s), Split(" " + s);
    assert (" " + s)[1..] == s;
    assert led == [" " + pieces[0]] + pieces[1..];
    assert (" " + pieces[0])[1..] == pieces[0];
    assert led[1..] == pieces[1..];
  }

  /** The search reads the joined header as the pieces of its parts. */
  lemma {:induction false} FindJoined(parse: CookieParser, parts: seq<string>, name: string)
    requires parts != []
    ensures FindCookie(parse, Split(Join(parts)), name) == FindCookie(parse, Pieces(parts), name)
  {
    var first, rest := Split(parts[0]), parts[1..];
    if |parts| == 1 {
      assert rest == [] && first + [] == first;
    } else {
      SplitConcat(parts[0], " " + Join(rest));
      FindLed(parse, Join(rest), name);
      FindJoined(parse, rest, name);
      FindConcat(parse, first, Split(" " + Join(rest)), name);
      FindConcat(parse, first, Pieces(rest), name);
    }
  }

  lemma {:induction false} JoinVisible(parts: seq<string>)
    ensures Visible(Join(parts)) <==> forall part <- parts :: Visible(part)
  {
    if |parts| == 1 {
      assert parts == [parts[0]];
    } else if parts != [] {
      JoinVisible(parts[1..]);
      assert parts == [parts[0]] + parts[1..];
      assert forall c :: c in Join(parts) <==> c in parts[0] || c == ';' || c == ' ' || c in Join(parts[1..]);
      assert Visible(Join(parts)) <==> Visible(parts[0]) && Visible(Join(parts[1..]));
    }
  }

  // ---------- browser and server over whole runs ----------

  predicate PlainChar(c: char) { 'a' <= c <= 'z' || 'A' <= c <= 'Z' || '0' <= c <= '9' || c == '-' || c == '_' }

  predicate Plain(s: string) { s != [] && forall c <- s :: PlainChar(c) }

  /**
   * How the cookie library writes a cookie, and what is asked of it: a plain value under any name comes back,
   * from a text that a `Cookie` header can hold, and no cookie without a name is parsed.
   */
  type CookieWriter = (string, string) -> string

  ghost predicate Parses(parse: CookieParser, write: CookieWriter) {
    && (forall name, value :: name != [] && Plain(value) ==>
          Sendable(write(name, value)) && parse(write(name, value)) == Some((name, value)))
    && (forall text :: parse(text).Some? ==> parse(text).value.0 != [])
  }

  predicate Sendable(text: string) { text != [] && Visible(text) && ';' !in text && Text.Trim(text) == text }

  /**
   * One visit by a page that echoes the cookie it can read: whatever other texts the browser sends
   * before and after that cookie, and what the random generator would give.
   */
  datatype Visit = Visit(verb: string, before: seq<string>, after: seq<string>, authorization: Option<string>,
                         random: Option<seq<Hex.Byte>>)

  /** A browser and what it deals with: the server's configuration and the cookie library. */
  datatype Site = Site(cfg: CsrfConfig, parse: CookieParser, write: CookieWriter)

  function Sent(site: Site, jar: Option<string>, v: Visit): seq<string> {
    v.before + ((if jar.Some? then [site.write(site.cfg.cookieName, jar.value)] else []) + v.after)
  }

  /** A page can set the header it is told to, unless that is no field name or the browser's own `Cookie`. */
  predicate Settable(cfg: CsrfConfig) { FieldName(cfg.headerName) && Text.LowerAll(cfg.headerName) != "cookie" }

  function RequestOf(site: Site, jar: Option<string>, v: Visit): Request {
    var headers: map<string, string> := map[];
    var headers := if Sent(site, jar, v) == [] then headers else headers["cookie" := Join(Sent(site, jar, v))];
    var headers := if v.authorization.None? then headers else headers["authorization" := v.authorization.value];
    Request(v.verb, if jar.None? || !Settable(site.cfg) then headers
                    else headers[Text.LowerAll(site.cfg.headerName) := jar.value])
  }

  /** The `Authorization` header of a visit: the echoed cookie, if that is where the page is told to put it. */
  function Authorization(cfg: CsrfConfig, jar: Option<string>, v: Visit): Option<string> {
    if jar.Some? && FieldName(cfg.headerName) && Text.LowerAll(cfg.headerName) == "authorization" then jar
    else v.authorization
  }

  /** What the server finds under the header it looks at. */
  function Echoed(site: Site, jar: Option<string>, v: Visit): Option<string> {
    if !FieldName(site.cfg.headerName) then None
    else if Text.LowerAll(site.cfg.headerName) == "cookie" then
      if Sent(site, jar, v) == [] then None else Some(Join(Sent(site, jar, v)))
    else if jar.Some? then jar
    else if Text.LowerAll(site.cfg.headerName) == "authorization" then v.authorization
    else None
  }

  function Answer(site: Site, jar: Option<string>, v: Visit): Decision {
    Decide(site.parse, site.cfg, RequestOf(site, jar, v))
  }

  /** The jar after the response: an injected cookie is stored if the browser accepts its attributes. */
  function JarAfter(site: Site, jar: Option<string>, v: Visit): Option<string> {
    if Answer(site, jar, v) == Forward(true) && v.random.Some? && |v.random.value| == TOKEN_BYTES && HostRule(site.cfg)
    then Some(Generated(v.random.value))
    else jar
  }

  /** Every text sent is skipped. */
  ghost predicate Clear(parse: CookieParser, name: string, texts: seq<string>) {
    SkippedBefore(parse, Pieces(texts), |Pieces(texts)|, name)
  }

  /** The first text not skipped is a cookie of that name, holding this token. */
  ghost predicate Shows(parse: CookieParser, name: string, texts: seq<string>, token: string) {
    exists i: nat :: FoundAt(parse, Pieces(texts), i, name, token)
  }

  /** The first text not skipped is no cookie at all. */
  ghost predicate Blocked(parse: CookieParser, name: string, texts: seq<string>) {
    var pieces := Pieces(texts);
    exists i: nat :: i < |pieces| && SkippedBefore(parse, pieces, i, name)
                     && Text.Trim(pieces[i]) != [] && parse(Text.Trim(pieces[i])).None?
  }

  /**
   * What the server can read of a visit: the browser's own cookie if everything in front of it is
   * skipped, otherwise a cookie of the same name further to the front; and nothing at all if any
   * text sent, in front or behind, is not visible ASCII, or if the cookie has no name.
   */
  ghost predicate Reads(site: Site, jar: Option<string>, v: Visit, token: string) {
    && IsToken(token) && site.cfg.cookieName != []
    && (forall part <- v.before + v.after :: Visible(part))
    && (match jar
        case None => Shows(site.parse, site.cfg.cookieName, v.before + v.after, token)
        case Some(own) => Shows(site.parse, site.cfg.cookieName, v.before, token)
                          || (Clear(site.parse, site.cfg.cookieName, v.before) && token == own))
  }

  ghost predicate Readable(site: Site, jar: Option<string>, v: Visit) {
    exists token :: Reads(site, jar, v, token)
  }

  lemma {:induction false} SplitWhole(x: string)
    requires ';' !in x
    ensures Split(x) == [x]
  {
    if x != [] {
      assert x[0] in x && x == [x[0]] + x[1..];
      SplitWhole(x[1..]);
    }
  }

  lemma TokenIsPlain(token: string)
    requires IsToken(token)
    ensures Plain(token) && Visible(token)
  {
    forall c | c in token ensures PlainChar(c) {
      assert Hex.IsHex(c);
    }
  }

  /** A token is no bearer scheme, so echoing it in `Authorization` exempts nothing. */
  lemma TokenIsNoBearer(token: string)
    requires IsToken(token)
    ensures !BearerScheme(Some(token))
  {
    TokenIsPlain(token);
    forall i | 0 <= i < |token| ensures !IsAsciiSpace(token[i]) {
      assert PlainChar(token[i]) by { assert token[i] in token; }
    }
    FirstWordOf(token, "");
    assert token + "" == token;
  }

  /** A cookie without a name is never found. */
  lemma {:induction false} NamelessIsLost(parse: CookieParser, write: CookieWriter, pieces: seq<string>)
    requires Parses(parse, write)
    ensures FindCookie(parse, pieces, []) == None
  {
    if pieces != [] {
      NamelessIsLost(parse, write, pieces[1..]);
    }
  }

  /** The search over everything sent, when the browser holds the cookie. */
  lemma FindOwn(site: Site, own: string, v: Visit, token: string)
    requires Parses(site.parse, site.write) && Plain(own) && site.cfg.cookieName != []
    ensures FindCookie(site.parse, Pieces(Sent(site, Some(own), v)), site.cfg.cookieName) == Some(token) <==>
      IsToken(token) && (Shows(site.parse, site.cfg.cookieName, v.before, token)
                         || (Clear(site.parse, site.cfg.cookieName, v.before) && token == own))
  {
    var parse, name := site.parse, site.cfg.cookieName;
    var text := site.write(name, own);
    assert Sendable(text) && parse(text) == Some((name, own));
    SplitWhole(text);
    PiecesConcat(v.before, [text] + v.after);
    assert ([text] + v.after)[1..] == v.after;
    var rest := Pieces([text] + v.after);
    assert rest == [text] + Pieces(v.after);
    FindConcat(parse, Pieces(v.before), rest, name);
    FindCookieExactly(parse, Pieces(v.before), name, token);
  }

  /** What the server finds in the header is what the search finds in the pieces sent, if all are visible. */
  lemma FindSent(site: Site, jar: Option<string>, v: Visit, name: string)
    ensures CookieToken(site.parse, RequestOf(site, jar, v), name) ==
      if forall part <- Sent(site, jar, v) :: Visible(part) then FindCookie(site.parse, Pieces(Sent(site, jar, v)), name)
      else None
  {
    var parts := Sent(site, jar, v);
    JoinVisible(parts);
    if parts != [] {
      FindJoined(site.parse, parts, name);
      assert Field(RequestOf(site, jar, v), "cookie") == Some(Join(parts));
    } else {
      assert Field(RequestOf(site, jar, v), "cookie") == None;
    }
  }

  lemma SentVisible(site: Site, jar: Option<string>, v: Visit)
    requires Parses(site.parse, site.write) && site.cfg.cookieName != [] && (jar.Some? ==> Plain(jar.value))
    ensures (forall part <- Sent(site, jar, v) :: Visible(part)) <==> forall part <- v.before + v.after :: Visible(part)
  {
    if jar.Some? {
      assert Sendable(site.write(site.cfg.cookieName, jar.value));
    }
  }

  /** The server reads exactly what the visit lets it read. */
  lemma CookieExactly(site: Site, jar: Option<string>, v: Visit, token: string)
    requires Parses(site.parse, site.write) && (jar.Some? ==> Plain(jar.value))
    ensures CookieToken(site.parse, RequestOf(site, jar, v), site.cfg.cookieName) == Some(token) <==>
      Reads(site, jar, v, token)
  {
    FindSent(site, jar, v, site.cfg.cookieName);
    if site.cfg.cookieName == [] {
      NamelessIsLost(site.parse, site.write, Pieces(Sent(site, jar, v)));
    } else {
      SentVisible(site, jar, v);
      if jar.Some? {
        FindOwn(site, jar.value, v, token);
      } else {
        assert Sent(site, jar, v) == v.before + v.after;
        FindCookieExactly(site.parse, Pieces(v.before + v.after), site.cfg.cookieName, token);
      }
    }
  }

  /** The header the server looks at carries the very token it reads off the cookies. */
  ghost predicate Echoes(site: Site, jar: Option<string>, v: Visit) {
    Echoed(site, jar, v).Some? && Reads(site, jar, v, Echoed(site, jar, v).value)
  }

  /** The visit passes, and leaves the browser's cookie alone. */
  ghost predicate Undisturbed(site: Site, jar: Option<string>, v: Visit) {
    || BearerScheme(Authorization(site.cfg, jar, v))
    || (if SafeVerb(v.verb) then Readable(site, jar, v) else Echoes(site, jar, v))
  }

  lemma HeadersSent(site: Site, jar: Option<string>, v: Visit)
    ensures Field(RequestOf(site, jar, v), "authorization") == Authorization(site.cfg, jar, v)
    ensures Header(RequestOf(site, jar, v), site.cfg.headerName) == Echoed(site, jar, v)
  {
  }

  /**
   * One visit, whatever else the browser sends and however the server is configured. It is let through with
   * its cookie untouched exactly when it is undisturbed; a fresh cookie comes exactly with a safe visit of
   * which no token can be read; every other visit is refused, for want of a cookie exactly when none can.
   */
  lemma VisitExactly(site: Site, jar: Option<string>, v: Visit)
    requires Parses(site.parse, site.write) && (jar.Some? ==> Plain(jar.value))
    ensures var d := Answer(site, jar, v); var bearer := BearerScheme(Authorization(site.cfg, jar, v));
      && (d == Forward(false) <==> Undisturbed(site, jar, v))
      && (d == Forward(true) <==> SafeVerb(v.verb) && !bearer && !Readable(site, jar, v))
      && (d == Reject(MissingCookie) <==> !SafeVerb(v.verb) && !bearer && !Readable(site, jar, v))
  {
    var r := RequestOf(site, jar, v);
    HeadersSent(site, jar, v);
    var cookie := CookieToken(site.parse, r, site.cfg.cookieName);
    if cookie.Some? {
      CookieExactly(site, jar, v, cookie.value);
    }
    forall token | Reads(site, jar, v, token) ensures cookie == Some(token) && Visible(token) {
      CookieExactly(site, jar, v, token);
      TokenIsPlain(token);
    }
  }

  lemma NothingReadable(site: Site, own: string, v: Visit)
    requires Blocked(site.parse, site.cfg.cookieName, v.before) || exists part <- v.before + v.after :: !Visible(part)
    ensures !Readable(site, Some(own), v)
  {
  }

  /**
   * A valid token can be hidden. A malformed text in front of it ends the search, and a byte outside
   * visible ASCII in any cookie makes the header unreadable: then every post without a bearer token is
   * refused as if there were no cookie, and a safe visit replaces the token.
   */
  lemma HiddenToken(site: Site, own: string, v: Visit)
    requires Parses(site.parse, site.write) && IsToken(own) && !BearerScheme(v.authorization)
    requires Blocked(site.parse, site.cfg.cookieName, v.before) || exists part <- v.before + v.after :: !Visible(part)
    ensures !SafeVerb(v.verb) ==> Answer(site, Some(own), v) == Reject(MissingCookie)
    ensures SafeVerb(v.verb) && HostRule(site.cfg) && v.random.Some? && |v.random.value| == TOKEN_BYTES ==>
      JarAfter(site, Some(own), v) == Some(Generated(v.random.value))
  {
    TokenIsPlain(own);
    TokenIsNoBearer(own);
    NothingReadable(site, own, v);
    VisitExactly(site, Some(own), v);
  }

  /**
   * A configuration can shut every post out. Under a header name that is no HTTP field name the server finds
   * no header, and without a cookie name it finds no cookie: whatever a request carries, it is refused if it
   * is unsafe and has no bearer token.
   */
  lemma UnusableNames(parse: CookieParser, write: CookieWriter, cfg: CsrfConfig, r: Request)
    requires Parses(parse, write) && !IsSafe(r) && !IsBearer(r)
    requires !FieldName(cfg.headerName) || cfg.cookieName == []
    ensures Decide(parse, cfg, r).Reject?
  {
    var raw := Field(r, "cookie");
    if raw.Some? && cfg.cookieName == [] {
      NamelessIsLost(parse, write, Split(raw.value));
    }
  }

  /** The builder accepts such names. */
  lemma UnusableNamesAreAccepted(header: string)
    requires header == "x csrf" || header == ""
    ensures var a, b := ConfigureAll(PRODUCTION, [WithHeaderName(header)]), ConfigureAll(PRODUCTION, [WithCookieName("")]);
      a.Some? && !FieldName(a.value.headerName) && b.Some? && b.value.cookieName == []
  {
    var x, y := WithHeaderName(header), WithCookieName("");
    assert [x][..0] == [] && [y][..0] == [];
    assert "x csrf"[1] == ' ' && !IsFieldChar(' ');
  }

  /** The names of the presets are usable, and their cookies as secure as their names ask. */
  lemma PresetsAreUsable(preset: CsrfConfig)
    requires preset == PRODUCTION || preset == DEVELOPMENT || preset == INERTIA
    ensures OwnHeader(preset) && preset.cookieName != [] && HostRule(preset)
  {
    assert forall c <- "x-csrf-token" :: IsFieldChar(c);
    assert forall c <- "x-xsrf-token" :: IsFieldChar(c);
    assert Text.LowerAll(preset.headerName)[0] == 'x' && "cookie"[0] == 'c' && "authorization"[0] == 'a';
    assert DEVELOPMENT.cookieName[0] == 'a';
  }

  function JarAfterAll(site: Site, jar: Option<string>, visits: seq<Visit>): Option<string>
    decreases visits
  {
    if visits == [] then jar else JarAfterAll(site, JarAfter(site, jar, visits[0]), visits[1..])
  }

  /** Every visit of the run is let through, and none is sent another cookie. */
  ghost predicate Smooth(site: Site, jar: Option<string>, visits: seq<Visit>)
    decreases visits
  {
    visits != [] ==>
      Answer(site, jar, visits[0]) == Forward(false) && Smooth(site, JarAfter(site, jar, visits[0]), visits[1..])
  }

  /** Over any run, a browser with a token passes every visit exactly when none is disturbed; then it keeps the token. */
  lemma {:induction false} TokenLasts(site: Site, own: string, visits: seq<Visit>)
    requires Parses(site.parse, site.write) && IsToken(own)
    ensures Smooth(site, Some(own), visits) <==> forall v <- visits :: Undisturbed(site, Some(own), v)
    ensures Smooth(site, Some(own), visits) ==> JarAfterAll(site, Some(own), visits) == Some(own)
    decreases visits
  {
    TokenIsPlain(own);
    if visits != [] {
      assert visits == [visits[0]] + visits[1..];
      VisitExactly(site, Some(own), visits[0]);
      TokenLasts(site, own, visits[1..]);
    }
  }

  /** A header name of the page's own: a field name that is neither `Cookie` nor `Authorization`. */
  predicate OwnHeader(cfg: CsrfConfig) { Settable(cfg) && Text.LowerAll(cfg.headerName) != "authorization" }

  /**
   * After one safe visit of a new browser, under any configuration a builder chain reaches: the exact
   * condition for a post to be accepted. Under a header name of the page's own it is that no token was read
   * off the page's visit and the new one is read off the post, so it is met whenever the cookie has a name
   * and all other cookies are visible ASCII and well-formed, with other names.
   */
  lemma EchoIsAccepted(site: Site, preset: CsrfConfig, calls: seq<ConfigCall>, page: Visit, post: Visit)
    requires preset == PRODUCTION || preset == DEVELOPMENT || preset == INERTIA
    requires ConfigureAll(preset, calls) == Some(site.cfg) && Parses(site.parse, site.write)
    requires SafeVerb(page.verb) && !BearerScheme(page.authorization)
    requires page.random.Some? && |page.random.value| == TOKEN_BYTES
    requires !SafeVerb(post.verb) && !BearerScheme(post.authorization)
    ensures var token, accepted := Generated(page.random.value), Answer(site, JarAfter(site, None, page), post).Forward?;
      var name, others := site.cfg.cookieName, post.before + post.after;
      && JarAfter(site, None, page) == (if Readable(site, None, page) then None else Some(token))
      && (accepted <==> Echoes(site, JarAfter(site, None, page), post))
      && (OwnHeader(site.cfg) ==> (accepted <==> !Readable(site, None, page) && Reads(site, Some(token), post, token)))
      && (OwnHeader(site.cfg) && name != [] && Clear(site.parse, name, page.before + page.after) ==>
            Clear(site.parse, name, post.before) && (forall part <- others :: Visible(part)) ==> accepted)
  {
    var token := Generated(page.random.value);
    ChainsKeepHostRule(preset, calls);
    VisitExactly(site, None, page);
    TokenIsPlain(token);
    TokenIsNoBearer(token);
    VisitExactly(site, JarAfter(site, None, page), post);
  }
}
