/**
 * The Active Directory inventory task: validate the options, derive the
 * connection settings and the search base, bind, search for computers and
 * turn the entries into targets; errors raised on the way become the task's
 * `_error` result.
 */
module Inventory {
  import opened Wrappers
  import opened DomainNames
  import opened Entries

  /** The task's options; `None` is a key that is missing or `nil`. */
  datatype Options = Options(
    adDomain: Option<string>,
    domainController: Option<string>,
    username: Option<string>,
    password: Option<string>)

  /** The error the task raises: a message and a machine-readable kind. */
  datatype TaskError = TaskError(message: string, kind: string)

  const ValidationErrorKind := "bolt.plugin/validation-error"
  const MissingDomainMessage := "The Active Directory Inventory Plugin requires the ad_domain"

  /** Keys of the connection-settings hash handed to the LDAP client. */
  datatype PropertyKey = Host | Auth

  datatype AuthMethod = Simple

  /** Values of the connection-settings hash. */
  datatype PropertyValue =
    | HostValue(host: string)
    | AuthValue(authMethod: AuthMethod, username: string, password: string)

  type LdapProperties = map<PropertyKey, PropertyValue>

  /** An LDAP equality filter, `(attribute=value)`. */
  datatype Filter = Eq(attribute: string, value: string)

  /** The arguments of one search. */
  datatype SearchRequest = SearchRequest(
    base: string, filter: Filter, attributes: seq<string>, returnResult: bool)

  /**
   * The directory as the task sees it: whether a bind with these settings
   * succeeds, and the entries a search returns.
   */
  datatype Directory = Directory(
    bind: LdapProperties -> bool,
    search: SearchRequest -> seq<Entry>)

  /** One interaction with the LDAP client, in the order it happens. */
  datatype LdapCall = Connect(properties: LdapProperties) | Bind | Search(request: SearchRequest)

  /** What `task` returns: `{value: targets}` or `{_error: error}`. */
  datatype TaskResult = Value(targets: Option<seq<Target>>) | Error(error: TaskError)

  /** `ad_domain` is given and not empty. */
  predicate HasDomain(opts: Options)
  {
    opts.adDomain.Some? && |opts.adDomain.value| > 0
  }

  /** `domain_controller`, falling back to `ad_domain` when it is not given. */
  function ControllerHost(opts: Options): string
    requires opts.adDomain.Some?
  {
    if opts.domainController.Some? then opts.domainController.value else opts.adDomain.value
  }

  /** The computers-only search rooted at the domain's search base. */
  function ComputerSearch(domain: string): SearchRequest
  {
    SearchRequest(SearchBase(domain), Eq("objectCategory", "computer"), ["dn", "dNSHostName"], true)
  }

  /**
   * The settings hash: `host` is always set; `auth` is added, for a simple
   * bind, exactly when both a user name and a password are given.
   */
  ghost predicate ConnectionSettings(props: LdapProperties, host: string, opts: Options)
  {
    && props.Keys == (if opts.username.Some? && opts.password.Some? then {Host, Auth} else {Host})
    && props[Host] == HostValue(host)
    && (Auth in props ==> props[Auth] == AuthValue(Simple, opts.username.value, opts.password.value))
  }

  /** The settings hash is determined by the host and the options. */
  lemma ConnectionSettingsUnique(p: LdapProperties, q: LdapProperties, host: string, opts: Options)
    requires ConnectionSettings(p, host, opts) && ConnectionSettings(q, host, opts)
    ensures p == q
  {
    assert forall k :: k in p ==> p[k] == q[k];
  }

  /** Builds the settings hash, then adds the credentials in place when both are given. */
  method BuildLdapProperties(host: string, opts: Options) returns (props: LdapProperties)
    ensures ConnectionSettings(props, host, opts)
  {
    props := map[Host := HostValue(host)];
    if opts.username.Some? && opts.password.Some? {
      props := props[Auth := AuthValue(Simple, opts.username.value, opts.password.value)];
    }
  }

  /**
   * `resolve_reference`: raises a validation error, before any LDAP call,
   * when `ad_domain` is missing or empty; otherwise connects to
   * `domain_controller` (or to `ad_domain` when that is not given), binds,
   * and, only if the bind succeeds, searches the domain's computers and
   * returns their targets; a failed bind yields `nil`. `calls` is the order
   * in which the LDAP client is used.
   */
  method ResolveReference(opts: Options, dir: Directory)
    returns (r: Result<Option<seq<Target>>, TaskError>, calls: seq<LdapCall>)
    ensures !HasDomain(opts) ==>
      r == Err(TaskError(MissingDomainMessage, ValidationErrorKind)) && calls == []
    ensures HasDomain(opts) ==>
      && |calls| >= 2
      && calls[0].Connect?
      && ConnectionSettings(calls[0].properties, ControllerHost(opts), opts)
      && calls[1] == Bind
      && (if dir.bind(calls[0].properties) then
            var request := ComputerSearch(opts.adDomain.value);
            calls[2..] == [Search(request)] && r == Ok(Some(ResolveTargets(dir.search(request))))
          else
            |calls| == 2 && r == Ok(None))
  {
    calls := [];
    var adDomain := opts.adDomain;
    if adDomain.None? || |adDomain.value| == 0 {
      return Err(TaskError(MissingDomainMessage, ValidationErrorKind)), calls;
    }
    var domainController := if opts.domainController.Some? then opts.domainController.value else adDomain.value;
    var searchBase := SearchBase(adDomain.value);
    var props := BuildLdapProperties(domainController, opts);
    calls := calls + [Connect(props)];
    calls := calls + [Bind];
    if dir.bind(props) {
      var request := SearchRequest(searchBase, Eq("objectCategory", "computer"), ["dn", "dNSHostName"], true);
      calls := calls + [Search(request)];
      r := Ok(Some(ResolveTargets(dir.search(request))));
    } else {
      r := Ok(None);
    }
  }

  /**
   * `task`: the targets (possibly `nil`) under `value`, or the raised error
   * under `_error`.
   */
  method Task(opts: Options, dir: Directory) returns (result: TaskResult)
    ensures !HasDomain(opts) ==> result == Error(TaskError(MissingDomainMessage, ValidationErrorKind))
    ensures HasDomain(opts) ==>
      forall props :: ConnectionSettings(props, ControllerHost(opts), opts) ==>
        result == if dir.bind(props)
                  then Value(Some(ResolveTargets(dir.search(ComputerSearch(opts.adDomain.value)))))
                  else Value(None)
  {
    var r, calls := ResolveReference(opts, dir);
    if HasDomain(opts) {
      forall props | ConnectionSettings(props, ControllerHost(opts), opts)
        ensures props == calls[0].properties
      {
        ConnectionSettingsUnique(props, calls[0].properties, ControllerHost(opts), opts);
      }
    }
    match r
    case Ok(targets) => result := Value(targets);
    case Err(e) => result := Error(e);
  }
}
