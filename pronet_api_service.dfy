/**
 * Services/Pronet/PronetApiService.cs: the Pronet statistics client. It reads
 * its URL and credentials from the settings, builds the query body for a
 * device and a time window, and fails closed: every problem ends in `null`.
 */
module PronetClient {
  import opened Wrappers
  import opened Calendar
  import opened DateFormat
  import opened DataModels
  import opened PronetRequests
  import opened Settings

  const ApiUrlKey: string := "ApiUrls:Pronet"
  const UserNameKey: string := "Credentials:Pronet:UserName"
  const PasswordKey: string := "Credentials:Pronet:Password"

  /** The three settings the client needs, all present and non-empty. */
  datatype Credentials = Credentials(apiUrl: string, userName: string, password: string)

  /** `POST apiUrl` with a JSON body; the reply as the client observes it. */
  type Transport = (string, PronetRequest) -> HttpReply<PronetApiResponse>

  /** Reads the settings; `None` when any of them is null or empty. */
  function ReadCredentials(lookup: string -> Option<string>): (r: Option<Credentials>)
    ensures r.Some? <==>
      !IsNullOrEmpty(lookup(ApiUrlKey)) && !IsNullOrEmpty(lookup(UserNameKey)) && !IsNullOrEmpty(lookup(PasswordKey))
    ensures r.Some? ==>
      Some(r.value.apiUrl) == lookup(ApiUrlKey) && Some(r.value.userName) == lookup(UserNameKey) &&
      Some(r.value.password) == lookup(PasswordKey) &&
      r.value.apiUrl != [] && r.value.userName != [] && r.value.password != []
  {
    var url, user, pass := lookup(ApiUrlKey), lookup(UserNameKey), lookup(PasswordKey);
    if IsNullOrEmpty(url) || IsNullOrEmpty(user) || IsNullOrEmpty(pass) then None
    else Some(Credentials(url.value, user.value, pass.value))
  }

  /** The body of a statistics query for one device over `[start, end]`. */
  function StatisticsRequest(c: Credentials, device: Device, start: DateTime, end: DateTime): (r: PronetRequest)
    ensures r.userName == c.userName && r.passWord == c.password
    ensures r.interval == "0"
    ensures r.storeCode == device.pronetStoreCode && r.macAddress == device.macAddress
    ensures r.ip.None? && r.port.None?
    ensures r.startTime == FormatTimestamp(start) && r.endTime == FormatTimestamp(end)
  {
    NewPronetRequest(c.userName, c.password, FormatTimestamp(start), FormatTimestamp(end))
      .(interval := "0", storeCode := device.pronetStoreCode, macAddress := device.macAddress)
  }

  /** The success check `apiResponse?.Result?.ResponseText == "Başarılı"`. */
  predicate IsSuccessful(response: Option<PronetApiResponse>) {
    ResponseText(response) == Some(PronetSuccessText)
  }

  /** `GetStatisticsAsync(device, startTime, endTime)`. */
  function GetStatistics(lookup: string -> Option<string>, device: Device, start: DateTime, end: DateTime,
                         transport: Transport): Option<PronetApiResponse>
  {
    match ReadCredentials(lookup)
    case None => None
    case Some(c) =>
      match transport(c.apiUrl, StatisticsRequest(c, device, start, end))
      case Threw(_) => None
      case Replied(status, body) =>
        if !IsSuccessStatusCode(status) || body.MalformedBody? then None
        else
          var response := if body.Parsed? then Some(body.value) else None;
          if !IsSuccessful(response) then None else response
  }

  /** The query bounds read back as the window's start and end, to the second. */
  lemma StatisticsRequestBounds(c: Credentials, device: Device, start: DateTime, end: DateTime)
    requires start.Valid() && end.Valid()
    ensures ParseTimestamp(StatisticsRequest(c, device, start, end).startTime) == Some(start.(fraction := 0))
    ensures ParseTimestamp(StatisticsRequest(c, device, start, end).endTime) == Some(end.(fraction := 0))
  {
    TimestampRoundTrip(start);
    TimestampRoundTrip(end);
  }

  /**
   * The client answers with a response only when the settings are complete,
   * the call returned a 2xx status with a parsed body, and that body reports
   * success; it then passes the parsed response through unchanged.
   */
  lemma GetStatisticsSpec(lookup: string -> Option<string>, device: Device, start: DateTime, end: DateTime,
                          transport: Transport)
    ensures var r := GetStatistics(lookup, device, start, end, transport);
      r.Some? <==>
        && ReadCredentials(lookup).Some?
        && var c := ReadCredentials(lookup).value;
           var reply := transport(c.apiUrl, StatisticsRequest(c, device, start, end));
           && reply.Replied? && IsSuccessStatusCode(reply.status) && reply.body.Parsed?
           && IsSuccessful(Some(reply.body.value))
    ensures var r := GetStatistics(lookup, device, start, end, transport);
      r.Some? ==>
        && IsSuccessful(r)
        && var c := ReadCredentials(lookup).value;
           transport(c.apiUrl, StatisticsRequest(c, device, start, end)) == Replied(
             transport(c.apiUrl, StatisticsRequest(c, device, start, end)).status, Parsed(r.value))
  {
  }

  /** With a setting missing the result is null whatever the server would say: no request is made. */
  lemma MissingSettingsMakeNoRequest(lookup: string -> Option<string>, device: Device, start: DateTime,
                                     end: DateTime, t1: Transport, t2: Transport)
    requires IsNullOrEmpty(lookup(ApiUrlKey)) || IsNullOrEmpty(lookup(UserNameKey)) || IsNullOrEmpty(lookup(PasswordKey))
    ensures GetStatistics(lookup, device, start, end, t1) == GetStatistics(lookup, device, start, end, t2) == None
  {
  }

  /** The outcome of `TestConnectionAsync`: a value, or an exception escaping the method. */
  datatype TestOutcome = Returned(success: bool) | Raised

  /**
   * `TestConnectionAsync()`: `now1` and `now2` are the two readings of
   * `DateTime.Now`. The window is computed outside the `try`, so a clock
   * reading too close to 0001-01-01 makes `AddHours` throw out of the method.
   */
  function TestConnection(lookup: string -> Option<string>, now1: DateTime, now2: DateTime,
                          transport: Transport): TestOutcome
  {
    match ReadCredentials(lookup)
    case None => Returned(false)
    case Some(c) =>
      match AddHours(now1, -2)
      case None => Raised
      case Some(from) =>
        match AddHours(now2, -1)
        case None => Raised
        case Some(to) =>
          match transport(c.apiUrl, NewPronetRequest(c.userName, c.password, FormatTimestamp(from), FormatTimestamp(to)))
          case Threw(_) => Returned(false)
          case Replied(status, body) =>
            if !IsSuccessStatusCode(status) || body.MalformedBody? then Returned(false)
            else Returned(IsSuccessful(if body.Parsed? then Some(body.value) else None))
  }

  /**
   * The test succeeds exactly when the settings are complete, the window
   * two hours to one hour back exists, and the server answers 2xx with a
   * body reporting success; it raises only when that window does not exist.
   */
  lemma TestConnectionSpec(lookup: string -> Option<string>, now1: DateTime, now2: DateTime, transport: Transport)
    ensures TestConnection(lookup, now1, now2, transport) == Returned(true) <==>
      && ReadCredentials(lookup).Some?
      && AddHours(now1, -2).Some? && AddHours(now2, -1).Some?
      && var c := ReadCredentials(lookup).value;
         var reply := transport(c.apiUrl, NewPronetRequest(c.userName, c.password,
                                FormatTimestamp(AddHours(now1, -2).value), FormatTimestamp(AddHours(now2, -1).value)));
         reply.Replied? && IsSuccessStatusCode(reply.status) && reply.body.Parsed? && IsSuccessful(Some(reply.body.value))
    ensures TestConnection(lookup, now1, now2, transport) == Raised <==>
      ReadCredentials(lookup).Some? && (AddHours(now1, -2).None? || AddHours(now2, -1).None?)
  {
  }

  /** The test's request carries no store, MAC address, IP or port, and asks for hourly figures. */
  lemma TestRequestIsBare(c: Credentials, from: DateTime, to: DateTime)
    ensures var r := NewPronetRequest(c.userName, c.password, FormatTimestamp(from), FormatTimestamp(to));
      r.interval == "0" && r.storeCode.None? && r.macAddress.None? && r.ip.None? && r.port.None?
  {
  }
}
