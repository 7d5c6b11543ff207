/**
 Normalised Git URLs: scheme and host case, default ports and percent-escapes, as
 sections 6.2.2 and 6.2.3 of RFC 3986 allow. Normalising reads a URL into parts and
 prints them; printed parts read back the same, so normalising twice changes nothing.
 */
module GitUrl {
  import opened Prelude
  import opened Text

  datatype UrlError =
    | EmptyUrl
    | ControlOrWhitespace
    | QueryOrFragmentForbidden
    | InvalidScheme
    | MissingAuthority
    | CredentialsForbidden
    | InvalidHost
    | InvalidPort
    | InvalidPercentEscape
    | InvalidPathCharacter

  // ------------------------------------------------------------- percent-escapes

  function HexValue(c: char): (d: nat)
    requires IsHexDigit(c)
    ensures d < 16
  {
    if IsDigit(c) then c as nat - 48 else if 'a' <= c <= 'f' then c as nat - 87 else c as nat - 55
  }

  function HexDigit(d: nat): (c: char)
    requires d < 16
    ensures IsHexDigit(c) && HexValue(c) == d
  {
    if d < 10 then (d + 48) as char else (d + 55) as char
  }

  predicate IsUnreserved(c: char) {
    IsAlphanumeric(c) || c == '-' || c == '.' || c == '_' || c == '~'
  }

  predicate IsPathCharacter(c: char) {
    IsUnreserved(c) || c in "/:@!$&'()*+,;="
  }

  // A path as what it denotes: characters that may stand plainly, and octets that
  // need an escape.
  datatype Token = Plain(c: char) | Octet(value: nat) {
    predicate Valid() {
      match this
      case Plain(c) => IsPathCharacter(c)
      case Octet(value) => value < 256 && !IsUnreserved(value as char)
    }
  }

  function TokenOf(value: nat): Token
    requires value < 256
  {
    if IsUnreserved(value as char) then Plain(value as char) else Octet(value)
  }

  function Read(s: string): Result<seq<Token>, UrlError> {
    if s == "" then Ok([])
    else if s[0] == '%' then
      if |s| < 3 || !IsHexDigit(s[1]) || !IsHexDigit(s[2]) then Err(InvalidPercentEscape)
      else
        var rest :- Read(s[3..]);
        Ok([TokenOf(HexValue(s[1]) * 16 + HexValue(s[2]))] + rest)
    else if !IsPathCharacter(s[0]) then Err(InvalidPathCharacter)
    else
      var rest :- Read(s[1..]);
      Ok([Plain(s[0])] + rest)
  }

  function WriteToken(token: Token): string
    requires token.Valid()
  {
    match token
    case Plain(c) => [c]
    case Octet(value) => ['%', HexDigit(value / 16), HexDigit(value % 16)]
  }

  ghost predicate ValidPath(tokens: seq<Token>) {
    forall i | 0 <= i < |tokens| :: tokens[i].Valid()
  }

  function Write(tokens: seq<Token>): string
    requires forall i | 0 <= i < |tokens| :: tokens[i].Valid()
  {
    if tokens == [] then "" else WriteToken(tokens[0]) + Write(tokens[1..])
  }

  lemma {:induction false} ReadIsValid(s: string)
    ensures Read(s).Ok? ==> ValidPath(Read(s).value)
  {
    if s != "" {
      if s[0] == '%' {
        if |s| >= 3 {
          ReadIsValid(s[3..]);
        }
      } else {
        ReadIsValid(s[1..]);
      }
    }
  }

  lemma OctetReads(value: nat, rest: string, text: string)
    requires Octet(value).Valid() && text == WriteToken(Octet(value)) + rest && Read(rest).Ok?
    ensures Read(text) == Ok([Octet(value)] + Read(rest).value)
  {
    assert text[0] == '%' && text[1] == HexDigit(value / 16) && text[2] == HexDigit(value % 16) && text[3..] == rest;
    assert value / 16 * 16 + value % 16 == value;
  }

  lemma PlainReads(c: char, rest: string, text: string)
    requires Plain(c).Valid() && text == [c] + rest && Read(rest).Ok?
    ensures Read(text) == Ok([Plain(c)] + Read(rest).value)
  {
    assert text[0] == c && text[1..] == rest;
  }

  lemma TokenReads(token: Token, rest: string, text: string)
    requires token.Valid() && text == WriteToken(token) + rest && Read(rest).Ok?
    ensures Read(text) == Ok([token] + Read(rest).value)
  {
    match token
    case Plain(c) => PlainReads(c, rest, text);
    case Octet(value) => OctetReads(value, rest, text);
  }

  // What is written reads back as the same path.
  lemma {:induction false} ReadOfWrite(tokens: seq<Token>)
    requires ValidPath(tokens)
    ensures Read(Write(tokens)) == Ok(tokens)
  {
    if tokens != [] {
      ReadOfWrite(tokens[1..]);
      TokenReads(tokens[0], Write(tokens[1..]), Write(tokens));
      assert tokens == [tokens[0]] + tokens[1..];
    }
  }

  // Normalising decides whether two paths denote the same.
  lemma NormalPathDecides(a: string, b: string)
    requires Read(a).Ok? && Read(b).Ok?
    ensures ValidPath(Read(a).value) && ValidPath(Read(b).value)
    ensures Write(Read(a).value) == Write(Read(b).value) <==> Read(a) == Read(b)
  {
    ReadIsValid(a);
    ReadIsValid(b);
    ReadOfWrite(Read(a).value);
    ReadOfWrite(Read(b).value);
  }

  function Normal(r: Result<seq<Token>, UrlError>): Result<string, UrlError>
    requires r.Ok? ==> forall i | 0 <= i < |r.value| :: r.value[i].Valid()
  {
    match r
    case Ok(tokens) => Ok(Write(tokens))
    case Err(error) => Err(error)
  }

  function Before(front: string, r: Result<string, UrlError>): Result<string, UrlError> {
    match r
    case Ok(text) => Ok(front + text)
    case Err(error) => Err(error)
  }

  lemma EscapeWritten(s: string)
    requires |s| >= 3 && IsHexDigit(s[1]) && IsHexDigit(s[2])
    ensures var token := TokenOf(HexValue(s[1]) * 16 + HexValue(s[2]));
      token.Valid() && WriteToken(token) ==
        if token.Plain? then [token.c] else ['%', UpperChar(s[1]), UpperChar(s[2])]
  {
    UpperHex(s[1]);
    UpperHex(s[2]);
    var high, low := HexValue(s[1]), HexValue(s[2]);
    assert (high * 16 + low) / 16 == high && (high * 16 + low) % 16 == low;
  }

  lemma UpperHex(c: char)
    requires IsHexDigit(c)
    ensures HexDigit(HexValue(c)) == UpperChar(c)
  {
  }

  // `normalize_url_component`.
  method NormalizeComponent(component: string) returns (r: Result<string, UrlError>)
    ensures Read(component).Ok? ==> ValidPath(Read(component).value) && r == Ok(Write(Read(component).value))
    ensures Read(component).Err? ==> r == Err(Read(component).error)
  {
    var normalized := "";
    var index := 0;
    ReadIsValid(component);
    assert component[0..] == component && Before("", Normal(Read(component))) == Normal(Read(component)) by {
      if Read(component).Ok? {
        assert "" + Write(Read(component).value) == Write(Read(component).value);
      }
    }
    while index < |component|
      invariant index <= |component|
      invariant Read(component[index..]).Ok? ==> ValidPath(Read(component[index..]).value)
      invariant Normal(Read(component)) == Before(normalized, Normal(Read(component[index..])))
    {
      var rest := component[index..];
      if component[index] == '%' {
        if index + 2 >= |component| || !IsHexDigit(component[index + 1]) || !IsHexDigit(component[index + 2]) {
          return Err(InvalidPercentEscape);
        }
        var value := HexValue(component[index + 1]) * 16 + HexValue(component[index + 2]);
        EscapeWritten(rest);
        ReadIsValid(component[index + 3..]);
        assert rest[3..] == component[index + 3..];
        WrittenNext(Read(rest), Read(rest[3..]), TokenOf(value), normalized);
        if IsUnreserved(value as char) {
          normalized := normalized + [value as char];
        } else {
          normalized := normalized + ['%', UpperChar(component[index + 1]), UpperChar(component[index + 2])];
        }
        index := index + 3;
      } else {
        if !IsPathCharacter(component[index]) {
          return Err(InvalidPathCharacter);
        }
        ReadIsValid(component[index + 1..]);
        assert rest[1..] == component[index + 1..];
        WrittenNext(Read(rest), Read(rest[1..]), Plain(component[index]), normalized);
        normalized := normalized + [component[index]];
        index := index + 1;
      }
    }
    assert normalized + "" == normalized;
    return Ok(normalized);
  }

  lemma WrittenNext(all: Result<seq<Token>, UrlError>, rest: Result<seq<Token>, UrlError>, token: Token,
    normalized: string)
    requires token.Valid() && (rest.Ok? ==> ValidPath(rest.value)) && (all.Ok? ==> ValidPath(all.value))
    requires all.Ok? <==> rest.Ok?
    requires all.Ok? ==> all.value == [token] + rest.value
    requires all.Err? ==> all.error == rest.error
    ensures Before(normalized, Normal(all)) == Before(normalized + WriteToken(token), Normal(rest))
  {
    if all.Ok? {
      assert all.value[1..] == rest.value;
      assert normalized + (WriteToken(token) + Write(rest.value)) == (normalized + WriteToken(token)) +
        Write(rest.value);
    }
  }

  // -------------------------------------------------------------- hosts and ports

  // Parsing and printing of address literals, which belong to the standard library.
  datatype Addresses = Addresses(v4: string -> Option<string>, v6: string -> Option<string>) {
    ghost predicate Sound() {
      && (forall x :: v4(x).Some? ==> V4Text(x) && V4Text(v4(x).value) && v4(v4(x).value) == v4(x))
      && (forall x :: v6(x).Some? ==> V6Text(v6(x).value) && v6(v6(x).value) == v6(x))
    }
  }

  predicate V4Text(s: string) {
    s != "" && forall c | c in s :: IsDigit(c) || c == '.'
  }

  predicate V6Text(s: string) {
    s != "" && forall c | c in s :: IsHexDigit(c) || c == ':' || c == '.'
  }

  function LastOf(s: string, c: char): (found: Option<nat>)
    ensures found.Some? ==> found.value < |s| && s[found.value] == c && c !in s[found.value + 1..]
    ensures found.None? ==> c !in s
  {
    if s == "" then None
    else if s[|s| - 1] == c then Some(|s| - 1)
    else match LastOf(s[..|s| - 1], c)
      case Some(i) => assert s[i + 1..] == s[..|s| - 1][i + 1..] + [s[|s| - 1]]; Some(i)
      case None => assert s == s[..|s| - 1] + [s[|s| - 1]]; None
  }

  predicate IsDot(c: char) {
    c == '.'
  }

  predicate ValidLabel(part: string) {
    && part != "" && part[0] != '-' && part[|part| - 1] != '-'
    && forall c | c in part :: IsAlphanumeric(c) || c == '-'
  }

  predicate ValidName(host: string) {
    forall part | part in SplitOn(host, IsDot) :: ValidLabel(part)
  }

  const PORT_LIMIT: nat := 65536

  function ReadPort(text: string): Result<nat, UrlError> {
    if text == "" || exists c | c in text :: !IsDigit(c) then Err(InvalidPort)
    else if DecimalValue(text) >= PORT_LIMIT then Err(InvalidPort)
    else Ok(DecimalValue(text))
  }

  function ReadOptionalPort(text: Option<string>): Result<Option<nat>, UrlError> {
    match text
    case None => Ok(None)
    case Some(digits) =>
      var port :- ReadPort(digits);
      Ok(Some(port))
  }

  // A bracketed address and what follows it.
  function SplitBracketed(ip: Addresses, authority: string): Result<(string, Option<string>), UrlError>
    requires authority != ""
  {
    match FirstOf(authority[1..], ']')
    case None => Err(InvalidHost)
    case Some(close) =>
      var host, remainder := authority[1..][..close], authority[1..][close + 1..];
      if remainder != "" && remainder[0] != ':' then Err(InvalidHost)
      else match ip.v6(host)
        case None => Err(InvalidHost)
        case Some(address) => Ok(("[" + address + "]", if remainder == "" then None else Some(remainder[1..])))
  }

  function SplitPlain(authority: string): Result<(string, Option<string>), UrlError> {
    match LastOf(authority, ':')
    case None => Ok((authority, None))
    case Some(i) => if ':' in authority[..i] then Err(InvalidHost) else Ok((authority[..i], Some(authority[i + 1..])))
  }

  function CanonicalHost(ip: Addresses, host: string): Result<string, UrlError> {
    if host == "" || '%' in host then Err(InvalidHost)
    else if host[0] == '[' then Ok(host)
    else match ip.v4(host)
      case Some(address) => Ok(address)
      case None => if ValidName(host) then Ok(Lower(host)) else Err(InvalidHost)
  }

  // `canonical_host_and_port`.
  function HostAndPort(ip: Addresses, authority: string): Result<(string, Option<nat>), UrlError> {
    var split :- if authority != "" && authority[0] == '[' then SplitBracketed(ip, authority)
      else SplitPlain(authority);
    var host :- CanonicalHost(ip, split.0);
    var port :- ReadOptionalPort(split.1);
    Ok((host, port))
  }

  // -------------------------------------------------------------------- whole URLs

  datatype Url = Url(scheme: string, host: string, port: Option<nat>, path: seq<Token>)

  predicate IsSchemeChar(c: char) {
    IsAlphanumeric(c) || c == '+' || c == '-' || c == '.'
  }

  predicate ValidScheme(scheme: string) {
    scheme != "" && IsAlpha(scheme[0]) && forall c | c in scheme :: IsSchemeChar(c)
  }

  predicate IsDefaultPort(scheme: string, port: nat) {
    || (scheme == "https" && port == 443) || (scheme == "http" && port == 80)
    || (scheme == "ssh" && port == 22) || (scheme == "git" && port == 9418)
  }

  // A default port is left out.
  function KeptPort(scheme: string, port: Option<nat>): Option<nat> {
    if port.Some? && IsDefaultPort(scheme, port.value) then None else port
  }

  // The first occurrence of "://".
  function FindSeparator(s: string): Option<nat> {
    if |s| < 3 then None
    else if s[..3] == "://" then Some(0)
    else match FindSeparator(s[1..])
      case Some(i) => Some(i + 1)
      case None => None
  }

  lemma {:induction false} SeparatorFound(s: string)
    ensures FindSeparator(s).Some? ==> FindSeparator(s).value + 3 <= |s|
  {
    if |s| >= 3 && s[..3] != "://" {
      SeparatorFound(s[1..]);
    }
  }

  function SplitUrl(s: string): Option<(string, string, string)> {
    SeparatorFound(s);
    match FindSeparator(s)
    case None => None
    case Some(i) =>
      var remainder := s[i + 3..];
      var end := match FirstOf(remainder, '/') case Some(k) => k case None => |remainder|;
      Some((s[..i], remainder[..end], remainder[end..]))
  }

  function ParseUrl(ip: Addresses, input: string): Result<Url, UrlError> {
    if input == "" then Err(EmptyUrl)
    else if exists c | c in input :: IsControl(c) || IsSpace(c) then Err(ControlOrWhitespace)
    else if '?' in input || '#' in input then Err(QueryOrFragmentForbidden)
    else match SplitUrl(input)
      case None => Err(InvalidScheme)
      case Some((scheme, authority, path)) =>
        if !ValidScheme(scheme) then Err(InvalidScheme)
        else if authority == "" then Err(MissingAuthority)
        else if '@' in authority then Err(CredentialsForbidden)
        else
          var (host, port) :- HostAndPort(ip, authority);
          var tokens :- Read(path);
          Ok(Url(Lower(scheme), host, KeptPort(Lower(scheme), port), tokens))
  }

  function PortText(port: Option<nat>): string {
    if port.Some? then ":" + Decimal(port.value) else ""
  }

  function Authority(url: Url): string {
    url.host + PortText(url.port)
  }

  function PrintUrl(url: Url): string
    requires forall i | 0 <= i < |url.path| :: url.path[i].Valid()
  {
    url.scheme + "://" + Authority(url) + Write(url.path)
  }

  ghost predicate ValidHost(ip: Addresses, host: string) {
    || (exists a :: host == "[" + a + "]" && ip.v6(a) == Some(a))
    || ip.v4(host) == Some(host)
    || (ip.v4(host) == None && ValidName(host) && Lower(host) == host && host != "")
  }

  // The parts that parsing can return.
  ghost predicate ValidUrl(ip: Addresses, url: Url) {
    && ValidScheme(url.scheme) && Lower(url.scheme) == url.scheme
    && ValidHost(ip, url.host)
    && (url.port.Some? ==> url.port.value < PORT_LIMIT && !IsDefaultPort(url.scheme, url.port.value))
    && ValidPath(url.path) && (url.path != [] ==> url.path[0] == Plain('/'))
  }

  // ------------------------------------------------------------------ lower case

  lemma LowerKeeps(c: char)
    ensures LowerChar(LowerChar(c)) == LowerChar(c) && !IsUpper(LowerChar(c))
    ensures IsAlphanumeric(LowerChar(c)) <==> IsAlphanumeric(c)
    ensures IsAlpha(LowerChar(c)) <==> IsAlpha(c)
    ensures !IsAlpha(c) ==> LowerChar(c) == c
    ensures IsDigit(LowerChar(c)) || LowerChar(c) == '.' || LowerChar(c) == '-' ==> LowerChar(c) == c
  {
  }

  lemma LowerTwice(s: string)
    ensures Lower(Lower(s)) == Lower(s)
    ensures forall i | 0 <= i < |s| :: Lower(s)[i] == LowerChar(s[i])
  {
    forall i | 0 <= i < |s|
      ensures Lower(Lower(s))[i] == Lower(s)[i]
    {
      LowerKeeps(s[i]);
    }
  }

  lemma LowerScheme(scheme: string)
    requires ValidScheme(scheme)
    ensures ValidScheme(Lower(scheme))
  {
    LowerKeeps(scheme[0]);
    forall c | c in Lower(scheme)
      ensures IsSchemeChar(c)
    {
      var i :| 0 <= i < |scheme| && Lower(scheme)[i] == c;
      assert scheme[i] in scheme;
      LowerKeeps(scheme[i]);
    }
  }

  function LowerAll(parts: seq<string>): (lowered: seq<string>)
    ensures |lowered| == |parts| && forall i | 0 <= i < |parts| :: lowered[i] == Lower(parts[i])
  {
    seq(|parts|, i requires 0 <= i < |parts| => Lower(parts[i]))
  }

  lemma LowerCons(c: char, rest: string)
    ensures Lower([c] + rest) == [LowerChar(c)] + Lower(rest)
  {
  }

  lemma LowerAllCons(part: string, rest: seq<string>)
    ensures LowerAll([part] + rest) == [Lower(part)] + LowerAll(rest)
  {
  }

  lemma {:induction false} SplitLower(s: string)
    ensures SplitOn(Lower(s), IsDot) == LowerAll(SplitOn(s, IsDot))
  {
    if s == "" {
      assert Lower("") == "";
    } else {
      var rest := SplitOn(s[1..], IsDot);
      SplitLower(s[1..]);
      LowerKeeps(s[0]);
      LowerCons(s[0], s[1..]);
      assert s == [s[0]] + s[1..] && rest == [rest[0]] + rest[1..];
      assert Lower(s)[1..] == Lower(s[1..]);
      LowerAllCons("", rest);
      LowerAllCons(rest[0], rest[1..]);
      LowerCons(s[0], rest[0]);
      LowerAllCons([s[0]] + rest[0], rest[1..]);
      assert Lower("") == "";
    }
  }

  lemma LowerLabel(part: string)
    requires ValidLabel(part)
    ensures ValidLabel(Lower(part))
  {
    LowerKeeps(part[0]);
    LowerKeeps(part[|part| - 1]);
    forall c | c in Lower(part)
      ensures IsAlphanumeric(c) || c == '-'
    {
      var i :| 0 <= i < |part| && Lower(part)[i] == c;
      assert part[i] in part;
      LowerKeeps(part[i]);
    }
  }

  lemma LowerName(host: string)
    requires ValidName(host)
    ensures ValidName(Lower(host))
  {
    SplitLower(host);
    var parts := SplitOn(host, IsDot);
    forall part | part in SplitOn(Lower(host), IsDot)
      ensures ValidLabel(part)
    {
      var i :| 0 <= i < |parts| && LowerAll(parts)[i] == part;
      assert parts[i] in parts;
      LowerLabel(parts[i]);
    }
  }

  // Digits and periods are in lower case already.
  lemma AddressIsLower(host: string)
    requires V4Text(Lower(host))
    ensures Lower(host) == host
  {
    forall i | 0 <= i < |host|
      ensures Lower(host)[i] == host[i]
    {
      assert Lower(host)[i] in Lower(host);
      LowerKeeps(host[i]);
    }
  }

  // A name that is no address literal is none in lower case either.
  lemma LowerIsNoAddress(ip: Addresses, host: string)
    requires ip.Sound() && ip.v4(host) == None
    ensures ip.v4(Lower(host)) == None
  {
    if ip.v4(Lower(host)).Some? {
      AddressIsLower(host);
    }
  }

  // -------------------------------------------------------------- parsing is valid

  lemma CanonicalHostIsValid(ip: Addresses, host: string)
    requires ip.Sound() && CanonicalHost(ip, host).Ok? && (host != "" && host[0] == '[' ==> ValidHost(ip, host))
    ensures ValidHost(ip, CanonicalHost(ip, host).value)
  {
    if host[0] != '[' && ip.v4(host) == None {
      LowerTwice(host);
      LowerName(host);
      LowerIsNoAddress(ip, host);
    }
  }

  lemma HostIsValid(ip: Addresses, authority: string)
    requires ip.Sound() && HostAndPort(ip, authority).Ok?
    ensures ValidHost(ip, HostAndPort(ip, authority).value.0)
    ensures var port := HostAndPort(ip, authority).value.1; port.Some? ==> port.value < PORT_LIMIT
  {
    var split := if authority != "" && authority[0] == '[' then SplitBracketed(ip, authority)
      else SplitPlain(authority);
    if authority == "" || authority[0] != '[' {
      assert split.value.0 != "" ==> split.value.0[0] == authority[0];
    }
    CanonicalHostIsValid(ip, split.value.0);
  }

  lemma PathOfSplit(input: string, scheme: string, authority: string, path: string)
    requires SplitUrl(input) == Some((scheme, authority, path))
    ensures path == "" || path[0] == '/'
  {
    SeparatorFound(input);
  }

  lemma ParseIsValid(ip: Addresses, input: string)
    requires ip.Sound() && ParseUrl(ip, input).Ok?
    ensures ValidUrl(ip, ParseUrl(ip, input).value)
  {
    var (scheme, authority, path) := SplitUrl(input).value;
    PathOfSplit(input, scheme, authority, path);
    LowerScheme(scheme);
    LowerTwice(scheme);
    HostIsValid(ip, authority);
    ReadIsValid(path);
  }

  // -------------------------------------------------------- printing reads back

  lemma {:induction false} SeparatorAfter(scheme: string, rest: string)
    requires ':' !in scheme
    ensures FindSeparator(scheme + "://" + rest) == Some(|scheme|)
  {
    var s := scheme + "://" + rest;
    if scheme == "" {
      assert s[..3] == "://";
    } else {
      assert s[0] == scheme[0] && s[0] in scheme;
      assert s[..3] != "://" by {
        assert s[..3][0] == scheme[0];
      }
      assert s[1..] == scheme[1..] + "://" + rest;
      SeparatorAfter(scheme[1..], rest);
    }
  }

  lemma {:induction false} LastAt(front: string, c: char, back: string)
    requires c !in back
    ensures LastOf(front + [c] + back, c) == Some(|front|)
    decreases |back|
  {
    if back == "" {
      assert front + [c] + "" == front + [c];
    } else {
      var less := back[..|back| - 1];
      assert back[|back| - 1] in back;
      assert (front + [c] + back)[..|front + [c] + back| - 1] == front + [c] + less;
      LastAt(front, c, less);
    }
  }

  lemma LastAbsent(s: string, c: char)
    requires c !in s
    ensures LastOf(s, c) == None
  {
  }

  lemma UrlSplits(scheme: string, authority: string, path: string)
    requires ':' !in scheme && '/' !in authority && (path == "" || path[0] == '/')
    ensures SplitUrl(scheme + "://" + authority + path) == Some((scheme, authority, path))
  {
    var s := scheme + "://" + authority + path;
    var remainder := authority + path;
    assert s == scheme + "://" + remainder;
    SeparatorAfter(scheme, remainder);
    assert s[|scheme| + 3..] == remainder && s[..|scheme|] == scheme;
    if path == "" {
      assert remainder == authority;
      FirstAbsent(authority, '/');
    } else {
      assert remainder == authority + ['/'] + path[1..];
      FirstAt(authority, '/', path[1..]);
    }
    assert remainder[..|authority|] == authority && remainder[|authority|..] == path;
  }

  predicate IsHostChar(c: char) {
    IsAlphanumeric(c) || c == '-' || c == '.' || c == ':' || c == '[' || c == ']'
  }

  lemma NameChars(host: string)
    requires ValidName(host)
    ensures forall c | c in host :: IsAlphanumeric(c) || c == '-' || c == '.'
  {
    SplitCovers(host, IsDot);
  }

  lemma HostChars(ip: Addresses, host: string)
    requires ip.Sound() && ValidHost(ip, host)
    ensures host != "" && forall c | c in host :: IsHostChar(c)
    ensures host[0] != '[' ==> ':' !in host
  {
    if exists a :: host == "[" + a + "]" && ip.v6(a) == Some(a) {
      var a :| host == "[" + a + "]" && ip.v6(a) == Some(a);
      assert V6Text(a);
    } else if ip.v4(host) == Some(host) {
      assert V4Text(host);
    } else {
      NameChars(host);
    }
  }

  lemma PortReads(n: nat)
    requires n < PORT_LIMIT
    ensures ReadPort(Decimal(n)) == Ok(n)
  {
    DecimalValueOfDecimal(n);
  }

  lemma PortTextReads(port: Option<nat>)
    requires port.Some? ==> port.value < PORT_LIMIT
    ensures ReadOptionalPort(if port.None? then None else Some(Decimal(port.value))) == Ok(port)
  {
    if port.Some? {
      PortReads(port.value);
    }
  }

  lemma BracketedTail(a: string, rest: string)
    ensures ("[" + a + "]" + rest)[1..] == a + [']'] + rest
    ensures (a + [']'] + rest)[..|a|] == a && (a + [']'] + rest)[|a| + 1..] == rest
  {
  }

  lemma PortDigits(port: nat)
    ensures PortText(Some(port)) != "" && PortText(Some(port))[0] == ':' && PortText(Some(port))[1..] == Decimal(port)
  {
  }

  lemma BracketedSplits(ip: Addresses, a: string, port: Option<nat>)
    requires ip.Sound() && ip.v6(a) == Some(a)
    ensures SplitBracketed(ip, "[" + a + "]" + PortText(port)) ==
      Ok(("[" + a + "]", if port.None? then None else Some(Decimal(port.value))))
  {
    var authority := "[" + a + "]" + PortText(port);
    assert V6Text(a);
    BracketedTail(a, PortText(port));
    FirstAt(a, ']', PortText(port));
    if port.Some? {
      PortDigits(port.value);
    }
  }

  lemma BracketedIsCanonical(ip: Addresses, a: string, host: string)
    requires ip.Sound() && ip.v6(a) == Some(a) && host == "[" + a + "]"
    ensures CanonicalHost(ip, host) == Ok(host)
  {
    NoPercent(host, a);
  }

  lemma HostOfSplit(ip: Addresses, authority: string, host: string, digits: Option<string>, port: Option<nat>)
    requires authority != "" && authority[0] == '[' && SplitBracketed(ip, authority) == Ok((host, digits))
    requires CanonicalHost(ip, host) == Ok(host) && ReadOptionalPort(digits) == Ok(port)
    ensures HostAndPort(ip, authority) == Ok((host, port))
  {
  }

  lemma BracketedReads(ip: Addresses, a: string, port: Option<nat>)
    requires ip.Sound() && ip.v6(a) == Some(a)
    requires port.Some? ==> port.value < PORT_LIMIT
    ensures HostAndPort(ip, "[" + a + "]" + PortText(port)) == Ok(("[" + a + "]", port))
  {
    var host := "[" + a + "]";
    BracketedSplits(ip, a, port);
    BracketedIsCanonical(ip, a, host);
    PortTextReads(port);
    HostOfSplit(ip, host + PortText(port), host, if port.None? then None else Some(Decimal(port.value)), port);
  }

  lemma NoPercent(host: string, a: string)
    requires host == "[" + a + "]" && V6Text(a)
    ensures '%' !in host
  {
  }

  lemma PlainSplits(host: string, port: Option<nat>)
    requires ':' !in host
    ensures SplitPlain(host + PortText(port)) == Ok((host, if port.None? then None else Some(Decimal(port.value))))
  {
    var authority := host + PortText(port);
    if port.Some? {
      var digits := Decimal(port.value);
      assert authority == host + [':'] + digits;
      LastAt(host, ':', digits);
      assert authority[..|host|] == host && authority[|host| + 1..] == digits;
    } else {
      assert authority == host;
      LastAbsent(host, ':');
    }
  }

  lemma NameIsCanonical(ip: Addresses, host: string)
    requires ip.Sound() && ValidHost(ip, host) && host != "" && host[0] != '['
    ensures CanonicalHost(ip, host) == Ok(host) && ':' !in host
  {
    HostChars(ip, host);
  }

  lemma HostOfPlain(ip: Addresses, authority: string, host: string, digits: Option<string>, port: Option<nat>)
    requires authority != "" && authority[0] != '[' && SplitPlain(authority) == Ok((host, digits))
    requires CanonicalHost(ip, host) == Ok(host) && ReadOptionalPort(digits) == Ok(port)
    ensures HostAndPort(ip, authority) == Ok((host, port))
  {
  }

  lemma NameReads(ip: Addresses, host: string, port: Option<nat>)
    requires ip.Sound() && ValidHost(ip, host) && host != "" && host[0] != '['
    requires port.Some? ==> port.value < PORT_LIMIT
    ensures HostAndPort(ip, host + PortText(port)) == Ok((host, port))
  {
    NameIsCanonical(ip, host);
    PlainSplits(host, port);
    PortTextReads(port);
    HostOfPlain(ip, host + PortText(port), host, if port.None? then None else Some(Decimal(port.value)), port);
  }

  lemma AuthorityReads(ip: Addresses, url: Url)
    requires ip.Sound() && ValidUrl(ip, url)
    ensures HostAndPort(ip, Authority(url)) == Ok((url.host, url.port))
  {
    HostChars(ip, url.host);
    assert Authority(url) == url.host + PortText(url.port);
    if url.host[0] == '[' {
      BracketedHost(ip, url.host);
      var a :| url.host == "[" + a + "]" && ip.v6(a) == Some(a);
      BracketedReads(ip, a, url.port);
    } else {
      NameReads(ip, url.host, url.port);
    }
  }

  lemma NotBracketed(ip: Addresses, host: string)
    requires ip.Sound() && host != "" && (ip.v4(host) == Some(host) || ValidName(host))
    ensures host[0] != '['
  {
    assert host[0] in host;
    if ip.v4(host) == Some(host) {
      assert V4Text(host);
    } else {
      NameChars(host);
    }
  }

  lemma BracketedHost(ip: Addresses, host: string)
    requires ip.Sound() && ValidHost(ip, host) && host != "" && host[0] == '['
    ensures exists a :: host == "[" + a + "]" && ip.v6(a) == Some(a)
  {
    if ip.v4(host) == Some(host) || ValidName(host) {
      NotBracketed(ip, host);
    }
  }

  lemma {:induction false} WrittenChars(tokens: seq<Token>)
    requires ValidPath(tokens)
    ensures forall c | c in Write(tokens) :: IsPathCharacter(c) || c == '%'
  {
    if tokens != [] {
      WrittenChars(tokens[1..]);
      TokenChars(tokens[0]);
    }
  }

  lemma TokenChars(token: Token)
    requires token.Valid()
    ensures forall c | c in WriteToken(token) :: IsPathCharacter(c) || c == '%'
  {
    if token.Octet? {
      var high, low := HexDigit(token.value / 16), HexDigit(token.value % 16);
      HexIsUnreserved(high);
      HexIsUnreserved(low);
    }
  }

  lemma HexIsUnreserved(c: char)
    requires IsHexDigit(c)
    ensures IsPathCharacter(c)
  {
  }

  predicate IsUrlChar(c: char) {
    IsPathCharacter(c) || c == '%' || c == '[' || c == ']'
  }

  lemma UrlCharIsPrintable(c: char)
    requires IsUrlChar(c)
    ensures !IsControl(c) && !IsSpace(c) && c != '?' && c != '#'
  {
  }

  lemma PrintedChars(ip: Addresses, url: Url)
    requires ip.Sound() && ValidUrl(ip, url)
    ensures forall c | c in PrintUrl(url) :: IsUrlChar(c)
  {
    HostChars(ip, url.host);
    WrittenChars(url.path);
    AuthorityChars(url);
    forall c | c in PrintUrl(url)
      ensures IsUrlChar(c)
    {
      PrintedFrom(url, c);
    }
  }

  lemma PartsSeparate(ip: Addresses, url: Url)
    requires ip.Sound() && ValidUrl(ip, url)
    ensures '/' !in Authority(url) && '@' !in Authority(url) && ':' !in url.scheme
  {
    HostChars(ip, url.host);
    AuthorityChars(url);
  }

  lemma AuthorityChars(url: Url)
    requires forall c | c in url.host :: IsHostChar(c)
    ensures forall c | c in Authority(url) :: IsHostChar(c)
  {
  }

  lemma PrintedFrom(url: Url, c: char)
    requires ValidPath(url.path) && c in PrintUrl(url)
    requires forall d | d in Authority(url) :: IsHostChar(d)
    requires forall d | d in Write(url.path) :: IsPathCharacter(d) || d == '%'
    requires forall d | d in url.scheme :: IsSchemeChar(d)
    ensures IsUrlChar(c)
  {
    assert c in url.scheme || c in "://" || c in Authority(url) || c in Write(url.path);
  }

  lemma ParsedParts(ip: Addresses, text: string, scheme: string, authority: string, path: string, host: string,
    port: Option<nat>)
    requires text != "" && (forall c | c in text :: !IsControl(c) && !IsSpace(c) && c != '?' && c != '#')
    requires SplitUrl(text) == Some((scheme, authority, path)) && ValidScheme(scheme)
    requires authority != "" && '@' !in authority && HostAndPort(ip, authority) == Ok((host, port)) && Read(path).Ok?
    ensures ParseUrl(ip, text) == Ok(Url(Lower(scheme), host, KeptPort(Lower(scheme), port), Read(path).value))
  {
  }

  lemma PrintableText(ip: Addresses, url: Url)
    requires ip.Sound() && ValidUrl(ip, url)
    ensures PrintUrl(url) != "" && forall c | c in PrintUrl(url) :: !IsControl(c) && !IsSpace(c) && c != '?' && c != '#'
  {
    PrintedChars(ip, url);
    forall c | c in PrintUrl(url)
      ensures !IsControl(c) && !IsSpace(c) && c != '?' && c != '#'
    {
      UrlCharIsPrintable(c);
    }
  }

  // The parts of a URL print to a text that parses to the same parts.
  lemma ParseOfPrint(ip: Addresses, url: Url)
    requires ip.Sound() && ValidUrl(ip, url)
    ensures ParseUrl(ip, PrintUrl(url)) == Ok(url)
  {
    PrintableText(ip, url);
    PartsSeparate(ip, url);
    PathStarts(url.path);
    UrlSplits(url.scheme, Authority(url), Write(url.path));
    AuthorityReads(ip, url);
    HostChars(ip, url.host);
    ReadOfWrite(url.path);
    ParsedParts(ip, PrintUrl(url), url.scheme, Authority(url), Write(url.path), url.host, url.port);
  }

  lemma PathStarts(path: seq<Token>)
    requires ValidPath(path) && (path != [] ==> path[0] == Plain('/'))
    ensures Write(path) == "" || Write(path)[0] == '/'
  {
  }

  lemma PortAppended(front: string, port: Option<nat>, canonical: string)
    requires canonical == if port.Some? then front + ":" + Decimal(port.value) else front
    ensures canonical == front + PortText(port)
  {
  }

  lemma PartsPrinted(scheme: string, host: string, port: Option<nat>, tokens: seq<Token>, canonical: string)
    requires ValidPath(tokens) && canonical == (scheme + "://" + host) + PortText(port)
    ensures canonical + Write(tokens) == PrintUrl(Url(scheme, host, port, tokens))
  {
    ConcatAssociates(scheme + "://", host, PortText(port));
  }

  // `NormalizedGitUrl::new`.
  method NormalizeUrl(ip: Addresses, input: string) returns (r: Result<string, UrlError>)
    requires ip.Sound()
    ensures ParseUrl(ip, input).Ok? ==>
      ValidPath(ParseUrl(ip, input).value.path) && r == Ok(PrintUrl(ParseUrl(ip, input).value))
    ensures ParseUrl(ip, input).Err? ==> r == Err(ParseUrl(ip, input).error)
  {
    if input == "" {
      return Err(EmptyUrl);
    }
    if exists c | c in input :: IsControl(c) || IsSpace(c) {
      return Err(ControlOrWhitespace);
    }
    if '?' in input || '#' in input {
      return Err(QueryOrFragmentForbidden);
    }
    var parts := SplitUrl(input);
    if parts.None? {
      return Err(InvalidScheme);
    }
    var (scheme, authority, path) := parts.value;
    if !ValidScheme(scheme) {
      return Err(InvalidScheme);
    }
    if authority == "" {
      return Err(MissingAuthority);
    }
    if '@' in authority {
      return Err(CredentialsForbidden);
    }
    var located := HostAndPort(ip, authority);
    if located.Err? {
      return Err(located.error);
    }
    var component := NormalizeComponent(path);
    if component.Err? {
      return Err(component.error);
    }
    var canonical := Lower(scheme) + "://" + located.value.0;
    ghost var front := canonical;
    if located.value.1.Some? && !IsDefaultPort(Lower(scheme), located.value.1.value) {
      canonical := canonical + ":" + Decimal(located.value.1.value);
    }
    ghost var port := KeptPort(Lower(scheme), located.value.1);
    PortAppended(front, port, canonical);
    PartsPrinted(Lower(scheme), located.value.0, port, Read(path).value, canonical);
    return Ok(canonical + component.value);
  }

  function Normalized(ip: Addresses, input: string): Result<string, UrlError>
    requires ip.Sound()
  {
    match ParseUrl(ip, input)
    case Err(error) => Err(error)
    case Ok(url) => ParseIsValid(ip, input); Ok(PrintUrl(url))
  }

  // Normalising is idempotent: an accepted output is accepted and returned unchanged.
  lemma NormalizedTwice(ip: Addresses, input: string)
    requires ip.Sound() && Normalized(ip, input).Ok?
    ensures Normalized(ip, Normalized(ip, input).value) == Normalized(ip, input)
  {
    ParseIsValid(ip, input);
    ParseOfPrint(ip, ParseUrl(ip, input).value);
  }

  // Two accepted URLs normalise to one text exactly when they parse to the same parts.
  lemma NormalizedDecides(ip: Addresses, a: string, b: string)
    requires ip.Sound() && Normalized(ip, a).Ok? && Normalized(ip, b).Ok?
    ensures Normalized(ip, a) == Normalized(ip, b) <==> ParseUrl(ip, a) == ParseUrl(ip, b)
  {
    ParseIsValid(ip, a);
    ParseIsValid(ip, b);
    ParseOfPrint(ip, ParseUrl(ip, a).value);
    ParseOfPrint(ip, ParseUrl(ip, b).value);
  }
}
