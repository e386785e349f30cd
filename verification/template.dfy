/** `MultiChainTemplate`: the argument checks made when a client is built,
    the endpoint URI, and the ordered JSON-RPC 1.0 envelope every request is
    wrapped in. The HTTP exchange itself is outside the model. */
module Template {
  import opened Base
  import opened Text
  import opened Requests

  /** A Java `int`. */
  type Int32 = x: int | -0x8000_0000 <= x < 0x8000_0000

  const HOST_BLANK := "Host must not be null."
  const PORT_INVALID := "Port] must be greater than zero."
  const USERNAME_BLANK := "Username] must not be blank."
  const PASSWORD_BLANK := "Password] must not be blank."

  /** The HTTP Basic credentials the rest template is configured with. */
  datatype Credentials = Credentials(username: string, password: string)

  /** A constructed template: where it posts, and as whom. */
  datatype Template = Template(uri: string, credentials: Credentials)

  /** The pieces a URI is built from. */
  datatype Endpoint = Endpoint(secure: bool, host: string, port: nat)

  function Scheme(secure: bool): string
  {
    if secure then "https" else "http"
  }

  /** Index of the last ':' in `s`, if any. */
  function LastColon(s: string): (i: Option<nat>)
    ensures i.Some? ==> i.value < |s| && s[i.value] == ':'
    ensures i.Some? ==> forall k :: i.value < k < |s| ==> s[k] != ':'
    ensures i.None? ==> forall k :: 0 <= k < |s| ==> s[k] != ':'
  {
    if s == [] then None
    else if s[|s| - 1] == ':' then Some(|s| - 1)
    else LastColon(s[..|s| - 1])
  }

  /** Reads `host:port` back, splitting at the last colon so that a host
      containing colons is kept whole. */
  function ParseAuthority(rest: string): Option<(string, nat)>
  {
    match LastColon(rest)
    case None => None
    case Some(i) =>
      match ParseDecimal(rest[i + 1..])
      case None => None
      case Some(port) => Some((rest[..i], port))
  }

  /** Reads a `scheme://host:port` text back into its pieces. */
  function ParseUri(uri: string): Option<Endpoint>
  {
    var secure := |uri| >= 8 && uri[..8] == "https://";
    var plain := |uri| >= 7 && uri[..7] == "http://";
    if !secure && !plain then None
    else
      match ParseAuthority(if secure then uri[8..] else uri[7..])
      case None => None
      case Some((host, port)) => Some(Endpoint(secure, host, port))
  }

  /** `createURI`: a blank host, then a port that is not positive, is
      rejected; otherwise the text `scheme://host:port` with the host as
      given and the port in decimal. */
  function CreateUri(host: Option<string>, port: Int32, secure: bool): (r: Result<string>)
    ensures !HasText(host) ==> r == Failure(IllegalArgument(HOST_BLANK))
    ensures HasText(host) && port <= 0 ==> r == Failure(IllegalArgument(PORT_INVALID))
    ensures HasText(host) && port > 0 ==> r.Success? && ParseUri(r.value) == Some(Endpoint(secure, host.value, port))
    ensures r.Success? ==> r.value[..|Scheme(secure)| + 3] == Scheme(secure) + "://"
  {
    if !HasText(host) then Failure(IllegalArgument(HOST_BLANK))
    else if port <= 0 then Failure(IllegalArgument(PORT_INVALID))
    else
      var uri := Scheme(secure) + "://" + host.value + ":" + Decimal(port);
      UriRoundTrip(secure, host.value, port);
      Success(uri)
  }

  /** The URI text splits back into the scheme, the host and the port. */
  lemma UriRoundTrip(secure: bool, host: string, port: nat)
    ensures ParseUri(Scheme(secure) + "://" + host + ":" + Decimal(port)) == Some(Endpoint(secure, host, port))
  {
    var rest := host + ":" + Decimal(port);
    assert Scheme(secure) + "://" + host + ":" + Decimal(port) == Scheme(secure) + "://" + rest;
    AuthorityRoundTrip(host, port);
    SchemeSplits(secure, rest);
  }

  lemma SchemeSplits(secure: bool, rest: string)
    ensures ParseUri(Scheme(secure) + "://" + rest)
            == match ParseAuthority(rest)
               case None => None
               case Some((host, port)) => Some(Endpoint(secure, host, port))
  {
    var uri := Scheme(secure) + "://" + rest;
    if secure {
      assert uri == "https://" + rest;
      assert uri[..8] == "https://";
      assert uri[8..] == rest;
    } else {
      assert uri == "http://" + rest;
      assert uri[..7] == "http://";
      assert uri[7..] == rest;
      assert !(|uri| >= 8 && uri[..8] == "https://") by {
        assert uri[4] == ':';
        assert "https://"[4] == 's';
      }
    }
  }

  lemma AuthorityRoundTrip(host: string, port: nat)
    ensures ParseAuthority(host + ":" + Decimal(port)) == Some((host, port))
  {
    var digits := Decimal(port);
    var rest := host + ":" + digits;
    LastColonBeforeDigits(host, digits);
    assert rest[|host| + 1..] == digits && rest[..|host|] == host;
    DecimalRoundTrip(port);
  }

  lemma {:induction false} LastColonBeforeDigits(host: string, digits: string)
    requires forall i :: 0 <= i < |digits| ==> IsDecimalDigit(digits[i])
    ensures LastColon(host + ":" + digits) == Some(|host|)
    decreases |digits|
  {
    if digits != [] {
      var d := digits[..|digits| - 1];
      assert (host + ":" + digits)[..|host + ":" + digits| - 1] == host + ":" + d;
      LastColonBeforeDigits(host, d);
    }
  }

  /** `createRestTemplate`: a blank username, then a blank password, is
      rejected; otherwise the credentials are kept unchanged. */
  function CreateRestTemplate(username: Option<string>, password: Option<string>): (r: Result<Credentials>)
    ensures !HasText(username) ==> r == Failure(IllegalArgument(USERNAME_BLANK))
    ensures HasText(username) && !HasText(password) ==> r == Failure(IllegalArgument(PASSWORD_BLANK))
    ensures HasText(username) && HasText(password) ==> r == Success(Credentials(username.value, password.value))
  {
    if !HasText(username) then Failure(IllegalArgument(USERNAME_BLANK))
    else if !HasText(password) then Failure(IllegalArgument(PASSWORD_BLANK))
    else Success(Credentials(username.value, password.value))
  }

  /** The public constructor: the URI argument is evaluated before the rest
      template, so host and port are checked before the credentials. */
  function NewTemplate(host: Option<string>, port: Int32, username: Option<string>, password: Option<string>, secure: bool): (r: Result<Template>)
    ensures !HasText(host) ==> r == Failure(IllegalArgument(HOST_BLANK))
    ensures HasText(host) && port <= 0 ==> r == Failure(IllegalArgument(PORT_INVALID))
    ensures HasText(host) && port > 0 && !HasText(username) ==> r == Failure(IllegalArgument(USERNAME_BLANK))
    ensures HasText(host) && port > 0 && HasText(username) && !HasText(password)
            ==> r == Failure(IllegalArgument(PASSWORD_BLANK))
    ensures r.Success? <==> HasText(host) && port > 0 && HasText(username) && HasText(password)
    ensures r.Success? ==> && ParseUri(r.value.uri) == Some(Endpoint(secure, host.value, port))
                           && r.value.credentials == Credentials(username.value, password.value)
  {
    match CreateUri(host, port, secure)
    case Failure(e) => Failure(e)
    case Success(uri) =>
      match CreateRestTemplate(username, password)
      case Failure(e) => Failure(e)
      case Success(credentials) => Success(Template(uri, credentials))
  }

  // ---- The request envelope ----

  const PROTOCOL := "jsonrpc"
  const IDENTIFIER := "id"
  const METHOD := "method"
  const PARAMETERS := "params"
  const VERSION := "1.0"

  /** A value in the envelope map: a string, or the request's parameters. */
  datatype PayloadValue = Str(text: string) | Params(params: Option<seq<Param>>)

  /** The insertion-ordered map (`LinkedHashMap`) handed to the JSON writer. */
  type Payload = seq<(string, PayloadValue)>

  function Keys(p: Payload): seq<string>
  {
    seq(|p|, i requires 0 <= i < |p| => p[i].0)
  }

  /** The value stored under `key`, reading entries in order. */
  function Get(p: Payload, key: string): Option<PayloadValue>
  {
    if p == [] then None
    else if p[0].0 == key then Some(p[0].1)
    else Get(p[1..], key)
  }

  /** `createRequestPayload`: null for a null request; otherwise exactly the
      keys jsonrpc, id, method and params in that order, with the protocol
      version and the request's own identifier, command and parameters. */
  function CreateRequestPayload(request: Option<Request>): (p: Option<Payload>)
    ensures request.None? <==> p.None?
    ensures p.Some? ==> Keys(p.value) == [PROTOCOL, IDENTIFIER, METHOD, PARAMETERS]
    ensures p.Some? ==> && Get(p.value, PROTOCOL) == Some(Str(VERSION))
                        && Get(p.value, IDENTIFIER) == Some(Str(request.value.id))
                        && Get(p.value, METHOD) == Some(Str(GetCommand(request.value)))
                        && Get(p.value, PARAMETERS) == Some(Params(GetParams(request.value)))
  {
    match request
    case None => None
    case Some(r) =>
      var p: Payload := [(PROTOCOL, Str(VERSION)),
                         (IDENTIFIER, Str(r.id)),
                         (METHOD, Str(GetCommand(r))),
                         (PARAMETERS, Params(GetParams(r)))];
      assert METHOD[0] != PARAMETERS[0] && |PROTOCOL| != |METHOD| && |IDENTIFIER| != |METHOD|;
      assert p[1..][1..] == p[2..] && p[2..][1..] == p[3..];
      assert Get(p, METHOD) == Get(p[1..], METHOD) == Get(p[2..], METHOD);
      assert Get(p, PARAMETERS) == Get(p[1..], PARAMETERS) == Get(p[2..], PARAMETERS) == Get(p[3..], PARAMETERS);
      Some(p)
  }

  /** What a server reads from an envelope: the identifier, the command and
      the parameters of the request it was built from. */
  lemma EnvelopeIdentifiesRequest(r: Request)
    ensures var p := CreateRequestPayload(Some(r)).value;
            && Get(p, METHOD).Some? && Get(p, METHOD).value.Str?
            && ParseCommand(Get(p, METHOD).value.text) == Some(CommandOf(r))
            && Get(p, PARAMETERS) == Some(Params(GetParams(r)))
  {}
}
