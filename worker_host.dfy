/**
 * One iteration of `ExecuteAsync` in Worker.cs with the concrete services
 * bound: settings from the database with configuration fallback, the
 * Pronet client, and either Nebim client behind `INebimApiService`.
 */
module WorkerHost {
  import opened Wrappers
  import opened Calendar
  import opened DataModels
  import opened Database
  import opened Worker
  import opened NebimPostRequests
  import Settings
  import PronetClient
  import NebimLegacyClient
  import NebimSessionClient

  /** `ISettingsService.GetSettingAsync` over the rows read at the start of the iteration. */
  function SettingsLookup(rows: seq<SettingRow>, config: string -> Option<string>,
                          unprotect: string -> Option<string>): string -> Option<string>
  {
    key => Settings.GetSetting(rows, config, unprotect, key)
  }

  /** `IPronetApiService.GetStatisticsAsync`, which never throws. */
  function PronetFetcher(lookup: string -> Option<string>, transport: PronetClient.Transport): Fetcher {
    (device: Device, start: DateTime, end: DateTime) =>
      Fetched(PronetClient.GetStatistics(lookup, device, start, end, transport))
  }

  /** The class `INebimApiService` resolves to, with the transports it talks through. */
  datatype NebimBinding =
    | Legacy(legacyConnect: NebimLegacyClient.ConnectTransport, legacyPost: NebimLegacyClient.PostTransport)
    | Sessionized(probe: NebimSessionClient.Probe, resolve: NebimSessionClient.Resolve,
                  sessionConnect: NebimSessionClient.ConnectTransport, sessionPost: NebimSessionClient.PostTransport)

  /** `PostInOutDataAsync` of the bound client; `url` is the session client's field after connect. */
  function NebimPoster(nebim: NebimBinding, lookup: string -> Option<string>, url: Option<string>): Poster {
    match nebim
    case Legacy(_, postTransport) =>
      (sessionId: Guid, request: NebimPostRequest) =>
        Posted(NebimLegacyClient.PostInOutData(lookup, sessionId, request, postTransport))
    case Sessionized(_, resolve, _, postTransport) =>
      (sessionId: Guid, request: NebimPostRequest) =>
        Posted(NebimSessionClient.PostStep(url, request, resolve, postTransport))
  }

  /** `ConnectAsync` of a fresh instance of the bound client, and the post it then offers. */
  function Connected(nebim: NebimBinding, lookup: string -> Option<string>): (Guid, Poster) {
    match nebim
    case Legacy(connect, _) => (NebimLegacyClient.Connect(lookup, connect), NebimPoster(nebim, lookup, None))
    case Sessionized(probe, resolve, connect, _) =>
      var (sessionId, url) := NebimSessionClient.ConnectStep(None, lookup, probe, resolve, connect);
      (sessionId, NebimPoster(nebim, lookup, url))
  }

  /**
   * The body of the `ExecuteAsync` loop: a new scope with new services,
   * the delay read from the settings, and one `ProcessDataTransfer`.
   * `config` and `unprotect` stand for the configuration and the data
   * protector; `now` and `clock` for the readings of `DateTime.Now`.
   */
  method RunIteration(db: AppDb, config: string -> Option<string>, unprotect: string -> Option<string>,
                      nebim: NebimBinding, pronet: PronetClient.Transport, now: DateTime, clock: nat -> DateTime)
    returns (delayMinutes: int, calls: seq<Call>, outcome: CycleOutcome)
    requires now.Valid()
    modifies db`syncHistories
    ensures delayMinutes == ResolveFrequency(Settings.GetSetting(db.settings, config, unprotect, FrequencyKey))
    ensures var lookup := SettingsLookup(db.settings, config, unprotect);
      var (sessionId, post) := Connected(nebim, lookup);
      var run := RunDevices(ActiveDevices(db.devices), now, sessionId, PronetFetcher(lookup, pronet), post, clock);
      if sessionId == EmptyGuid then
        calls == [] && outcome == Aborted && db.syncHistories == old(db.syncHistories)
      else
        && calls == run.calls
        && db.syncHistories == old(db.syncHistories) + run.rows
        && outcome == if run.faulted then Faulted else Completed
  {
    var lookup := SettingsLookup(db.settings, config, unprotect);
    var fetch := PronetFetcher(lookup, pronet);
    delayMinutes := DefaultDelayMinutes;
    var frequencySetting := lookup(FrequencyKey);
    delayMinutes := ResolveFrequency(frequencySetting);
    var sessionId: Guid;
    var post: Poster;
    match nebim {
      case Legacy(connect, _) =>
        sessionId := NebimLegacyClient.Connect(lookup, connect);
        post := NebimPoster(nebim, lookup, None);
      case Sessionized(probe, resolve, connect, _) =>
        var client := new NebimSessionClient.SessionClient();
        sessionId := client.Connect(lookup, probe, resolve, connect);
        post := NebimPoster(nebim, lookup, client.sessionizedBaseUrl);
    }
    calls, outcome := ProcessDataTransfer(db, sessionId, now, fetch, post, clock);
  }

  /**
   * The Pronet client never throws, so a device whose statistics cannot be
   * had (a setting missing, an HTTP error, a response not reporting
   * success) is skipped silently: it gets no history row.
   */
  lemma PronetFailureIsSilent(device: Device, now: DateTime, lookup: string -> Option<string>,
                              transport: PronetClient.Transport)
    requires now.Valid() && HourBucket(now).Some?
    requires PronetClient.GetStatistics(lookup, device, HourBucket(now).value.0, HourBucket(now).value.1, transport).None?
    ensures !GetsRow(device, now, PronetFetcher(lookup, transport))
  {
  }

  /** With the Pronet client bound, every history row of a device that got one is a result of posting. */
  lemma PronetRowsComeFromPosts(device: Device, now: DateTime, sessionId: Guid, lookup: string -> Option<string>,
                                transport: PronetClient.Transport, post: Poster)
    requires now.Valid() && GetsRow(device, now, PronetFetcher(lookup, transport))
    ensures var (start, end) := HourBucket(now).value;
      var response := PronetClient.GetStatistics(lookup, device, start, end, transport);
      && response.Some? && PronetClient.IsSuccessful(response)
      && StoreStatistics(response).Some? && StoreStatistics(response).value != []
  {
    var (start, end) := HourBucket(now).value;
    PronetClient.GetStatisticsSpec(lookup, device, start, end, transport);
  }

  /** The session client's post does not look at the session id it is given. */
  lemma SessionPostIgnoresSessionId(nebim: NebimBinding, lookup: string -> Option<string>, url: Option<string>,
                                    a: Guid, b: Guid, request: NebimPostRequest)
    requires nebim.Sessionized?
    ensures NebimPoster(nebim, lookup, url)(a, request) == NebimPoster(nebim, lookup, url)(b, request)
  {
  }

  /** Either client aborts the cycle when the Nebim URL setting is missing: nothing is fetched or recorded. */
  lemma MissingNebimUrlAborts(nebim: NebimBinding, lookup: string -> Option<string>)
    requires Settings.IsNullOrEmpty(lookup("ApiUrls:Nebim"))
    ensures Connected(nebim, lookup).0 == EmptyGuid
  {
  }
}
