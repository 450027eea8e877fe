/**
 * Services/NebimApiService.cs: the Nebim client of the `Services` namespace,
 * the one Program.cs registers. It keeps no state: connect posts the
 * credentials to the configured URL, post sends a document with the session
 * id in the `Authorization: SessionID` header.
 */
module NebimLegacyClient {
  import opened Wrappers
  import opened DataModels
  import opened NebimPostRequests
  import opened Settings

  const ApiUrlKey: string := "ApiUrls:Nebim"
  const UserNameKey: string := "Credentials:Nebim:UserName"
  const PasswordKey: string := "Credentials:Nebim:Password"

  /** The connect body: the user name and password. */
  datatype ConnectBody = ConnectBody(userName: string, password: string)

  /** `POST apiUrl` with the connect body. */
  type ConnectTransport = (string, ConnectBody) -> HttpReply<NebimConnectResponse>

  /** `POST apiUrl` with the session id header and a document. */
  type PostTransport = (string, Guid, NebimPostRequest) -> PostReply

  /** `ConnectAsync()`. */
  function Connect(lookup: string -> Option<string>, transport: ConnectTransport): Guid {
    var url, user, pass := lookup(ApiUrlKey), lookup(UserNameKey), lookup(PasswordKey);
    if IsNullOrEmpty(url) || IsNullOrEmpty(user) || IsNullOrEmpty(pass) then EmptyGuid
    else
      match transport(url.value, ConnectBody(user.value, pass.value))
      case Threw(_) => EmptyGuid
      case Replied(status, body) =>
        if IsSuccessStatusCode(status) && body.Parsed? && body.value.isSucceeded then body.value.sessionId
        else EmptyGuid
  }

  /**
   * A session id comes back exactly when the three settings are present and
   * the server answered 2xx with a parsed body whose `IsSucceeded` is true;
   * the id is then the body's, which is not checked against `Guid.Empty`.
   * Every other path, an exception included, gives `Guid.Empty`.
   */
  lemma ConnectSpec(lookup: string -> Option<string>, transport: ConnectTransport)
    ensures if IsNullOrEmpty(lookup(ApiUrlKey)) || IsNullOrEmpty(lookup(UserNameKey)) || IsNullOrEmpty(lookup(PasswordKey))
      then Connect(lookup, transport) == EmptyGuid
      else
        var reply := transport(lookup(ApiUrlKey).value, ConnectBody(lookup(UserNameKey).value, lookup(PasswordKey).value));
        if reply.Replied? && IsSuccessStatusCode(reply.status) && reply.body.Parsed? && reply.body.value.isSucceeded
        then Connect(lookup, transport) == reply.body.value.sessionId
        else Connect(lookup, transport) == EmptyGuid
  {
  }

  /** A successful reply carrying `Guid.Empty` is passed on as it is, indistinguishable from failure. */
  lemma ConnectPassesEmptySessionId(lookup: string -> Option<string>, transport: ConnectTransport)
    requires !IsNullOrEmpty(lookup(ApiUrlKey)) && !IsNullOrEmpty(lookup(UserNameKey)) && !IsNullOrEmpty(lookup(PasswordKey))
    requires transport(lookup(ApiUrlKey).value, ConnectBody(lookup(UserNameKey).value, lookup(PasswordKey).value))
             == Replied(200, Parsed(NebimConnectResponse(EmptyGuid, true)))
    ensures Connect(lookup, transport) == EmptyGuid
  {
  }

  /** With a setting missing, connect gives `Guid.Empty` whatever the server would say. */
  lemma ConnectMissingSettings(lookup: string -> Option<string>, t1: ConnectTransport, t2: ConnectTransport)
    requires IsNullOrEmpty(lookup(ApiUrlKey)) || IsNullOrEmpty(lookup(UserNameKey)) || IsNullOrEmpty(lookup(PasswordKey))
    ensures Connect(lookup, t1) == Connect(lookup, t2) == EmptyGuid
  {
  }

  /** `PostInOutDataAsync(sessionId, data)`. */
  function PostInOutData(lookup: string -> Option<string>, sessionId: Guid, data: NebimPostRequest,
                         transport: PostTransport): bool
  {
    var url := lookup(ApiUrlKey);
    if IsNullOrEmpty(url) then false
    else if sessionId == EmptyGuid then false
    else
      match transport(url.value, sessionId, data)
      case PostThrew => false
      case PostStatus(status) => IsSuccessStatusCode(status)
  }

  /**
   * The URL is checked before the session id, and neither failure sends
   * anything; otherwise the post succeeds exactly on a 2xx status.
   */
  lemma PostInOutDataSpec(lookup: string -> Option<string>, sessionId: Guid, data: NebimPostRequest,
                          transport: PostTransport, other: PostTransport)
    ensures IsNullOrEmpty(lookup(ApiUrlKey)) || sessionId == EmptyGuid ==>
      !PostInOutData(lookup, sessionId, data, transport) && !PostInOutData(lookup, sessionId, data, other)
    ensures PostInOutData(lookup, sessionId, data, transport) <==>
      && !IsNullOrEmpty(lookup(ApiUrlKey)) && sessionId != EmptyGuid
      && var reply := transport(lookup(ApiUrlKey).value, sessionId, data);
         reply.PostStatus? && IsSuccessStatusCode(reply.status)
  {
  }
}
