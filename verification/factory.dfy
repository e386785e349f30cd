/** `MultiChainClientFactory`: a mutable holder of connection settings with
    validating setters, modelled as a record each setter returns a new copy
    of. A rejected value leaves the record as it was. */
module Factory {
  import opened Base
  import opened Text
  import Template

  /** The factory's fields; Java defaults are null, zero and false. */
  datatype ClientFactory = ClientFactory(
    host: Option<string>,
    password: Option<string>,
    port: Template.Int32,
    secure: bool,
    username: Option<string>)

  /** A freshly constructed factory. */
  const Initial := ClientFactory(None, None, 0, false, None)

  const HOST_BLANK := "MultiChain RPC server host name must not be blank."
  const PASSWORD_BLANK := "MultiChain RPC password must not be blank."
  const PORT_INVALID := "MultiChain RPC server port must be greater than zero."
  const USERNAME_BLANK := "MultiChain RPC username must not be blank."

  /** The factory after a setter call, and whether the call threw. */
  datatype Update = Update(factory: ClientFactory, error: Option<Error>)

  /** `setHost`: a blank host throws and changes nothing. */
  function SetHost(f: ClientFactory, host: Option<string>): (u: Update)
    ensures !HasText(host) ==> u == Update(f, Some(IllegalArgument(HOST_BLANK)))
    ensures HasText(host) ==> u.error.None? && u.factory.host == host
    ensures u.factory.(host := f.host) == f
  {
    if !HasText(host) then Update(f, Some(IllegalArgument(HOST_BLANK)))
    else Update(f.(host := host), None)
  }

  /** `setPassword`: a blank password throws and changes nothing. */
  function SetPassword(f: ClientFactory, password: Option<string>): (u: Update)
    ensures !HasText(password) ==> u == Update(f, Some(IllegalArgument(PASSWORD_BLANK)))
    ensures HasText(password) ==> u.error.None? && u.factory.password == password
    ensures u.factory.(password := f.password) == f
  {
    if !HasText(password) then Update(f, Some(IllegalArgument(PASSWORD_BLANK)))
    else Update(f.(password := password), None)
  }

  /** `setPort`: a port that is not positive throws and changes nothing. */
  function SetPort(f: ClientFactory, port: Template.Int32): (u: Update)
    ensures port <= 0 ==> u == Update(f, Some(IllegalArgument(PORT_INVALID)))
    ensures port > 0 ==> u.error.None? && u.factory.port == port
    ensures u.factory.(port := f.port) == f
  {
    if port <= 0 then Update(f, Some(IllegalArgument(PORT_INVALID)))
    else Update(f.(port := port), None)
  }

  /** `setSecure`: every value is accepted. */
  function SetSecure(f: ClientFactory, secure: bool): (u: Update)
    ensures u.error.None? && u.factory.secure == secure
    ensures u.factory.(secure := f.secure) == f
  {
    Update(f.(secure := secure), None)
  }

  /** `setUsername`: a blank username throws and changes nothing. */
  function SetUsername(f: ClientFactory, username: Option<string>): (u: Update)
    ensures !HasText(username) ==> u == Update(f, Some(IllegalArgument(USERNAME_BLANK)))
    ensures HasText(username) ==> u.error.None? && u.factory.username == username
    ensures u.factory.(username := f.username) == f
  {
    if !HasText(username) then Update(f, Some(IllegalArgument(USERNAME_BLANK)))
    else Update(f.(username := username), None)
  }

  /** `getMultiChainClient`: the current fields go to the template's
      constructor unchanged, so its checks decide. */
  function GetMultiChainClient(f: ClientFactory): (r: Result<Template.Template>)
    ensures r.Success? <==> HasText(f.host) && f.port > 0 && HasText(f.username) && HasText(f.password)
    ensures r.Success? ==> Template.ParseUri(r.value.uri) == Some(Template.Endpoint(f.secure, f.host.value, f.port))
  {
    Template.NewTemplate(f.host, f.port, f.username, f.password, f.secure)
  }

  /** A factory nobody configured fails on its unset host. */
  lemma UnsetHostFails()
    ensures GetMultiChainClient(Initial) == Failure(IllegalArgument(Template.HOST_BLANK))
  {}

  /** Once every setter has accepted its value, a client can be built, and
      it points at the configured endpoint with the configured credentials. */
  lemma ConfiguredFactoryBuilds(host: string, port: Template.Int32, username: string, password: string, secure: bool)
    requires HasText(Some(host)) && port > 0 && HasText(Some(username)) && HasText(Some(password))
    ensures var f := SetSecure(SetPassword(SetUsername(SetPort(SetHost(Initial, Some(host)).factory, port).factory,
                                                     Some(username)).factory, Some(password)).factory, secure).factory;
            && GetMultiChainClient(f).Success?
            && Template.ParseUri(GetMultiChainClient(f).value.uri) == Some(Template.Endpoint(secure, host, port))
            && GetMultiChainClient(f).value.credentials == Template.Credentials(username, password)
  {}
}
