/**
 * Services/Nebim/NebimApiService.cs: the Nebim client of the
 * `Services.Nebim` namespace. It first asks the configured URL for a
 * session-bearing address, which the server hands out as a redirect
 * `Location`, remembers it in `_sessionizedBaseUrl`, and sends connect and
 * post requests below it. The field goes from unset to set once and then
 * stays.
 */
module NebimSessionClient {
  import opened Wrappers
  import opened DataModels
  import opened NebimPostRequests
  import opened Settings

  const ApiUrlKey: string := "ApiUrls:Nebim"
  const ConnectPath: string := "IntegratorService/Connect"
  const PostPath: string := "IntegratorService/Post"

  /** `Headers.Location`: an absolute URI, split as `GetLeftPart(Authority)` and `PathAndQuery`, or a relative one. */
  datatype Location = Absolute(authority: string, pathAndQuery: string) | Relative(text: string)

  /** The outcome of the redirect-less GET on the base URL. */
  datatype ProbeReply = ProbeThrew | ProbeResponse(location: Option<Location>)

  /** `GET baseUrl` without following redirects. */
  type Probe = string -> ProbeReply

  /** `new Uri(new Uri(baseUrl), path).ToString()`. */
  type Resolve = (string, string) -> string

  /** `POST url` with the connect body. */
  type ConnectTransport = (string, NebimConnectRequest) -> HttpReply<NebimConnectResponse>

  /** `POST url` with a document. */
  type PostTransport = (string, NebimPostRequest) -> PostReply

  /** `InitializeSessionAsync()` on a client whose field holds `url`: the result and the new field. */
  function InitStep(url: Option<string>, lookup: string -> Option<string>, probe: Probe): (bool, Option<string>) {
    var baseUrl := lookup(ApiUrlKey);
    if IsNullOrEmpty(baseUrl) then (false, url)
    else if !IsNullOrEmpty(url) then (true, url)
    else
      match probe(baseUrl.value)
      case ProbeThrew => (false, url)
      case ProbeResponse(None) => (false, url)
      case ProbeResponse(Some(Relative(_))) => (false, url)
      case ProbeResponse(Some(Absolute(authority, pathAndQuery))) => (true, Some(authority + pathAndQuery))
  }

  /** `ConnectAsync()` on a client whose field holds `url`: the session id and the new field. */
  function ConnectStep(url: Option<string>, lookup: string -> Option<string>, probe: Probe, resolve: Resolve,
                       transport: ConnectTransport): (Guid, Option<string>)
  {
    var (initialized, url') := InitStep(url, lookup, probe);
    if !initialized || IsNullOrEmpty(url') then (EmptyGuid, url')
    else
      match transport(resolve(url'.value, ConnectPath), NewNebimConnectRequest())
      case Threw(_) => (EmptyGuid, url')
      case Replied(status, body) =>
        if IsSuccessStatusCode(status) && body.Parsed? && body.value.isSucceeded && body.value.sessionId != EmptyGuid
        then (body.value.sessionId, url')
        else (EmptyGuid, url')
  }

  /** `PostInOutDataAsync(sessionId, data)` on a client whose field holds `url`; the session id plays no part. */
  function PostStep(url: Option<string>, data: NebimPostRequest, resolve: Resolve, transport: PostTransport): bool {
    if IsNullOrEmpty(url) then false
    else
      match transport(resolve(url.value, PostPath), data)
      case PostThrew => false
      case PostStatus(status) => IsSuccessStatusCode(status)
  }

  class SessionClient {
    /** `_sessionizedBaseUrl`. */
    var sessionizedBaseUrl: Option<string>

    constructor()
      ensures sessionizedBaseUrl.None?
    {
      sessionizedBaseUrl := None;
    }

    method InitializeSession(lookup: string -> Option<string>, probe: Probe) returns (ok: bool)
      modifies this
      ensures (ok, sessionizedBaseUrl) == InitStep(old(sessionizedBaseUrl), lookup, probe)
    {
      var baseUrl := lookup(ApiUrlKey);
      if IsNullOrEmpty(baseUrl) {
        return false;
      }
      if !IsNullOrEmpty(sessionizedBaseUrl) {
        return true;
      }
      var initialResponse := probe(baseUrl.value);
      if initialResponse.ProbeThrew? || initialResponse.location.None? {
        return false;
      }
      match initialResponse.location.value
      case Relative(_) =>
        // `GetLeftPart` throws on a relative URI, inside the `try`.
        ok := false;
      case Absolute(authority, pathAndQuery) =>
        sessionizedBaseUrl := Some(authority + pathAndQuery);
        ok := true;
    }

    method Connect(lookup: string -> Option<string>, probe: Probe, resolve: Resolve,
                   transport: ConnectTransport) returns (sessionId: Guid)
      modifies this
      ensures (sessionId, sessionizedBaseUrl) == ConnectStep(old(sessionizedBaseUrl), lookup, probe, resolve, transport)
    {
      var sessionInitialized := InitializeSession(lookup, probe);
      if !sessionInitialized || IsNullOrEmpty(sessionizedBaseUrl) {
        return EmptyGuid;
      }
      var connectUrl := resolve(sessionizedBaseUrl.value, ConnectPath);
      var httpResponse := transport(connectUrl, NewNebimConnectRequest());
      if httpResponse.Threw? {
        return EmptyGuid;
      }
      if IsSuccessStatusCode(httpResponse.status) && httpResponse.body.Parsed? {
        var nebimResponse := httpResponse.body.value;
        if nebimResponse.isSucceeded && nebimResponse.sessionId != EmptyGuid {
          return nebimResponse.sessionId;
        }
      }
      return EmptyGuid;
    }

    method PostInOutData(sessionId: Guid, data: NebimPostRequest, resolve: Resolve,
                         transport: PostTransport) returns (ok: bool)
      ensures ok == PostStep(sessionizedBaseUrl, data, resolve, transport)
    {
      if IsNullOrEmpty(sessionizedBaseUrl) {
        return false;
      }
      var postUrl := resolve(sessionizedBaseUrl.value, PostPath);
      var httpResponse := transport(postUrl, data);
      ok := httpResponse.PostStatus? && IsSuccessStatusCode(httpResponse.status);
    }
  }

  /** Without a base URL setting initialisation fails, even with a session URL already held. */
  lemma InitNeedsBaseUrl(url: Option<string>, lookup: string -> Option<string>, probe: Probe,
                         resolve: Resolve, transport: ConnectTransport)
    requires IsNullOrEmpty(lookup(ApiUrlKey))
    ensures InitStep(url, lookup, probe) == (false, url)
    ensures ConnectStep(url, lookup, probe, resolve, transport) == (EmptyGuid, url)
  {
  }

  /** A held session URL is reused: no probe is made and the field keeps its value. */
  lemma InitReusesSession(url: Option<string>, lookup: string -> Option<string>, p1: Probe, p2: Probe)
    requires !IsNullOrEmpty(lookup(ApiUrlKey)) && !IsNullOrEmpty(url)
    ensures InitStep(url, lookup, p1) == InitStep(url, lookup, p2) == (true, url)
  {
  }

  /**
   * Initialisation succeeds when a probe is made and answers with an
   * absolute `Location`, and then stores its authority and path; it changes
   * the field in no other case.
   */
  lemma InitSetsFromLocation(url: Option<string>, lookup: string -> Option<string>, probe: Probe)
    ensures var (ok, url') := InitStep(url, lookup, probe);
      && (url' != url ==>
            && !IsNullOrEmpty(lookup(ApiUrlKey)) && IsNullOrEmpty(url)
            && var reply := probe(lookup(ApiUrlKey).value);
               reply.ProbeResponse? && reply.location.Some? && reply.location.value.Absolute?
               && url' == Some(reply.location.value.authority + reply.location.value.pathAndQuery))
      && (!ok ==> url' == url)
      && (ok <==>
            && !IsNullOrEmpty(lookup(ApiUrlKey))
            && (!IsNullOrEmpty(url) ||
                var reply := probe(lookup(ApiUrlKey).value);
                reply.ProbeResponse? && reply.location.Some? && reply.location.value.Absolute?))
  {
  }

  /** Once held, the session URL never changes again: neither initialisation nor connect writes it. */
  lemma SessionUrlIsWrittenOnce(url: Option<string>, lookup: string -> Option<string>, probe: Probe,
                                resolve: Resolve, transport: ConnectTransport)
    requires !IsNullOrEmpty(url)
    ensures InitStep(url, lookup, probe).1 == url
    ensures ConnectStep(url, lookup, probe, resolve, transport).1 == url
  {
  }

  /**
   * Connect yields a session id only when initialisation left a session URL
   * and the connect call under it answered 2xx with `IsSucceeded` and a
   * non-empty id; that id is returned and the URL stays held for the posts.
   */
  lemma ConnectSpec(url: Option<string>, lookup: string -> Option<string>, probe: Probe, resolve: Resolve,
                    transport: ConnectTransport)
    ensures var (sessionId, url') := ConnectStep(url, lookup, probe, resolve, transport);
      && url' == InitStep(url, lookup, probe).1
      && (sessionId != EmptyGuid <==>
            && InitStep(url, lookup, probe).0 && !IsNullOrEmpty(url')
            && var reply := transport(resolve(url'.value, ConnectPath), NebimConnectRequest(0));
               && reply.Replied? && IsSuccessStatusCode(reply.status) && reply.body.Parsed?
               && reply.body.value.isSucceeded && reply.body.value.sessionId != EmptyGuid
               && sessionId == reply.body.value.sessionId)
  {
  }

  /** Without a session URL every post fails; with one, a post succeeds exactly on a 2xx status. */
  lemma PostSpec(url: Option<string>, data: NebimPostRequest, resolve: Resolve, transport: PostTransport)
    ensures IsNullOrEmpty(url) ==> !PostStep(url, data, resolve, transport)
    ensures !IsNullOrEmpty(url) ==>
      (PostStep(url, data, resolve, transport) <==>
        var reply := transport(resolve(url.value, PostPath), data);
        reply.PostStatus? && IsSuccessStatusCode(reply.status))
  {
  }

  /** A client that connected successfully holds a session URL, so its posts reach the server. */
  lemma ConnectedClientCanPost(url: Option<string>, lookup: string -> Option<string>, probe: Probe,
                               resolve: Resolve, transport: ConnectTransport)
    requires ConnectStep(url, lookup, probe, resolve, transport).0 != EmptyGuid
    ensures !IsNullOrEmpty(ConnectStep(url, lookup, probe, resolve, transport).1)
  {
  }
}
