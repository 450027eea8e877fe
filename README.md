# Pronet–Nebim integration, modelled in Dafny

The integration is a .NET worker with a small admin web page. Once per cycle, the worker:

- connects to the Nebim ERP;
- walks the active people-counting devices;
- for each device open at the current time of day, fetches the previous hour's visitor counts from the Pronet statistics API;
- posts one Nebim in/out document per statistic line;
- appends one history row per device that got that far.

The admin endpoints in `Program.cs` and the page script `wwwroot/app.js` manage the settings, the devices and the dashboard.

## How the project is laid out

There is one Dafny module per source file, plus a few modules for the .NET behaviour the code depends on.

| module | file | what it models |
|---|---|---|
| `Wrappers` | wrappers.dfy | `Option` |
| `Decimal` | decimal.dfy | Zero-padded decimal digits as the custom date formats write them, and digit parsing. |
| `Calendar` | calendar.dfy | The proleptic Gregorian `DateTime`. `AddHours`/`AddSeconds` roll over day, month and year, and fail (`None`) where .NET throws. `TimeOnly` is ticks since midnight. |
| `DateFormat` | dateformat.dfy | The formats `yyyyMMdd`, `HHmmss` and `yyyy-MM-dd HH:mm:ss`, with parsers that read them back. |
| `DataModels` | data_models.dfy | `Device`, `Setting`, `SyncHistory`, the Pronet response envelope with its nullable levels, the Nebim connect messages, and HTTP replies as observed. |
| `NebimPostRequests` | nebim_post_request.dfy | The Nebim document and its property defaults. |
| `PronetRequests` | pronet_request.dfy | The Pronet query body and its JSON members. Null optional members are left out of the body. |
| `Settings` | settings_service.dfy | `GetSettingAsync` and the case-insensitive "Password" test. |
| `PronetClient` | pronet_api_service.dfy | `GetStatisticsAsync` and `TestConnectionAsync`. |
| `NebimLegacyClient` | legacy_nebim_api_service.dfy | The stateless Nebim client of the `Services` namespace. |
| `NebimSessionClient` | nebim_api_service.dfy | The Nebim client of `Services.Nebim`, a class whose `_sessionizedBaseUrl` field is set once. |
| `Database` | app_db.dfy | The Settings, Devices and SyncHistories tables as `seq` fields of a class, plus the AUTOINCREMENT sequence of Devices. |
| `Worker` | worker.dfy | The frequency resolution, the hour bucket, the document built per line, and `ProcessDataTransfer` as loops over the table. All of it is proved against a functional specification of the cycle. |
| `WorkerHost` | worker_host.dfy | One iteration of `ExecuteAsync` with the real services bound. Either Nebim client can be bound. |
| `AdminApi` | program.dfy | The endpoints: settings GET/POST, dashboard status, device POST/PUT/DELETE and the Pronet test. |
| `AdminUi` | app_js.dfy | The page script: the MAC normaliser, time display, hash routing, the device and settings forms, the store count and the page globals. |

### External services and readings

Every external service, and every reading of the clock, is a parameter:

- The HTTP transports are functions from the request to the observed reply: threw, or a status and a body that is null, malformed or parsed.
- `Protect` and `Unprotect` are functions. `Unprotect` is partial.
- `IConfiguration[key]` is a function.
- `Uri` resolution is a function.
- The redirect probe is a function.
- Each `DateTime.Now` reading is a value. The readings the device loop takes per history row are `clock(k)`.

### Services behind one interface

Dafny here has no interfaces. The class bound to `INebimApiService` is therefore a datatype, `WorkerHost.NebimBinding`, with two cases:

- `Legacy` is the `NebimApiService` of `Services/NebimApiService.cs:14`. `Program.cs:25` registers it, and `Program.cs` imports only `Services` (`Program.cs:6`).
- `Sessionized` is the `NebimApiService` of `Services/Nebim/NebimApiService.cs:3`.

`Worker.cs:4-5` imports both namespaces, and each declares an `INebimApiService` (`Services/NebimApiService.cs:7`, `Services/Nebim/INebimApiService.cs:6`). The uses at `Worker.cs:33` and `Worker.cs:49` are therefore an ambiguous reference, which C# does not compile. The model assumes either one could be meant.

The cycle itself, `Worker.ProcessDataTransfer`, sees only a connect result and a post function. As a result, every property of the cycle holds for both bindings.

### Behaviour worth knowing

Each item is a fact of the source, with the reading the model takes.

- Posting with a session id:
  - The session client's post never reads its `sessionId` argument (`Services/Nebim/NebimApiService.cs:99-112`). See `WorkerHost.SessionPostIgnoresSessionId`.
  - The legacy client checks only that the session id is not `Guid.Empty` (`Services/NebimApiService.cs:74-78`).
- The connect request body:
  - The session client posts a `NebimConnectRequest` with its `ModelType` of 0 to `IntegratorService/Connect` under the session URL (`Services/Nebim/NebimApiService.cs:69-75`).
  - The legacy client posts to the configured URL itself (`Services/NebimApiService.cs:40-45`).
  - The legacy client sets `UserName` and `Password` on a `NebimConnectRequest` (`Services/NebimApiService.cs:41`). That class declares only `ModelType` (`Services/Nebim/NebimConnectRequest.cs:7-11`), so this line does not compile as written. The model reads it as a body carrying the two credentials (`NebimLegacyClient.ConnectBody`).
- An exception can end the worker. The hour bucket is computed outside the per-device `try` (`Worker.cs:77-78`), so an `AddHours` that throws in the first hour of 0001-01-01 escapes `ProcessDataTransfer`. Nothing in `ExecuteAsync` catches it (`Worker.cs:25-46`), so it also ends the service's loop. The model records it as the cycle outcome `Faulted`, and `WorkerHost.RunIteration` reports it. It does not model what the host does afterwards.
- A failure row can have no post behind it. A fetch that throws is caught at `Worker.cs:125-130` and gives a "Hata" row. The Pronet client catches everything itself (`Services/Pronet/PronetApiService.cs:44-72`), so with it bound every row follows a successful fetch. See `WorkerHost.PronetRowsComeFromPosts`.
- A null statistic line. A `null` element of `StoreStatistics` would throw at `Worker.cs:114`, and that is caught and recorded as "Hata". The model's `seq<StoreStatistic>` has no null elements, so this case is left out.

## Model

| member | source | states |
|---|---|---|
| Decimal.Digits | Pronet.Nebim.Integration/Worker.cs:109-110 | a fixed-width rendering has exactly that many characters, all ASCII digits |
| Decimal.ToDecimal | Pronet.Nebim.Integration/Worker.cs:36 | the shortest decimal rendering is non-empty and all digits |
| Decimal.ParseDigitsOfDigits | Pronet.Nebim.Integration/Worker.cs:109-110 | reading a fixed-width rendering back gives the number modulo 10^width |
| Decimal.DigitsRoundTrip | Pronet.Nebim.Integration/Worker.cs:109-110 | a number below 10^width is rendered without loss |
| Decimal.ToDecimalRoundTrip | Pronet.Nebim.Integration/Worker.cs:36 | the decimal rendering of a number parses back to it |
| Calendar.TimeOfDay | Pronet.Nebim.Integration/Worker.cs:64 | `TimeOnly.FromDateTime` is the ticks of the instant less the ticks of the whole days before it |
| Calendar.PreviousDaySpec | Pronet.Nebim.Integration/Worker.cs:77 | one day back exists everywhere but on 0001-01-01, counts one day, keeps the time, is valid, and one day forward undoes it |
| Calendar.NextDaySpec | Pronet.Nebim.Integration/Worker.cs:78 | one day forward counts one day and keeps the time; it passes year 9999 exactly from 9999-12-31 and is a valid date otherwise |
| Calendar.PreviousHourSpec | Pronet.Nebim.Integration/Worker.cs:77 | `AddHours(-1)` throws only in the first hour of 0001-01-01; otherwise it is 3600 s earlier, valid, and `AddHours(1)` undoes it |
| Calendar.NextHourSpec | Pronet.Nebim.Integration/Worker.cs:78 | `AddHours(1)` throws only in the last hour of 9999-12-31; otherwise it is 3600 s later and valid |
| Calendar.PreviousSecondSpec | Pronet.Nebim.Integration/Worker.cs:78 | `AddSeconds(-1)` throws only at 0001-01-01 00:00:00; otherwise it is one second earlier and valid |
| Calendar.TruncateToHourSpec | Pronet.Nebim.Integration/Worker.cs:77 | `new DateTime(y, M, d, H, 0, 0)` is valid, on a whole hour, and within the hour before the instant |
| DateFormat.DocDateRoundTrip | Pronet.Nebim.Integration/Worker.cs:109 | `yyyyMMdd` is eight digits that read back as year, month and day |
| DateFormat.DocTimeRoundTrip | Pronet.Nebim.Integration/Worker.cs:110 | `HHmmss` is six digits that read back as hour, minute and second |
| DateFormat.TimestampRoundTrip | Pronet.Nebim.Integration/Services/Pronet/PronetApiService.cs:37-38 | `yyyy-MM-dd HH:mm:ss` is 19 characters and reads back as the instant less its sub-second ticks |
| DataModels.NewNebimConnectRequest | Pronet.Nebim.Integration/Services/Nebim/NebimConnectRequest.cs:9-10 | the connect body's ModelType defaults to 0 |
| NebimPostRequests.NewHeader | Pronet.Nebim.Integration/Services/Nebim/NebimPostRequest.cs:15-37 | ModelType defaults to 11 and Description to "INOUT"; the five required members are the values given |
| NebimPostRequests.NewLine | Pronet.Nebim.Integration/Services/Nebim/NebimPostRequest.cs:39-49 | OutGoingQty defaults to 0 and LineDescription to "Giren-Çıkan Adet"; InComingQty is the value given |
| NebimPostRequests.NewPostRequest | Pronet.Nebim.Integration/Services/Nebim/NebimPostRequest.cs:6-13 | a new document has the header given and an empty line list |
| PronetRequests.NewPronetRequest | Pronet.Nebim.Integration/Services/Pronet/PronetRequest.cs:7-38 | Interval defaults to "0"; the four optional members start null; the required ones are the values given |
| PronetRequests.FindSerialized | Pronet.Nebim.Integration/Services/Pronet/PronetRequest.cs:9-38 | in the serialised body, each property's member carries the request's value, and a null optional property has no member |
| PronetRequests.SerializeRoundTrip | Pronet.Nebim.Integration/Services/Pronet/PronetRequest.cs:24-38 | leaving null members out loses nothing: the body deserialises to the request it came from |
| PronetRequests.SerializedMembers | Pronet.Nebim.Integration/Services/Pronet/PronetRequest.cs:9-38 | a member is written iff its value is non-null; userName, passWord, startTime, endTime and interval are always written |
| Settings.ContainsIgnoreCaseSpec | Pronet.Nebim.Integration/Services/SettingsService.cs:32 | the ordinal case-insensitive scan finds the pattern iff some window of the key matches it |
| Settings.FirstWithKey | Pronet.Nebim.Integration/Services/SettingsService.cs:27 | a row found is a row of the table carrying the key |
| Settings.FirstWithKeySpec | Pronet.Nebim.Integration/Services/SettingsService.cs:27 | nothing is found iff no row carries the key; otherwise the row found is at the first position that does |
| Settings.DatabaseWins | Pronet.Nebim.Integration/Services/SettingsService.cs:29-45 | a stored non-empty value is returned verbatim for a key without "Password", whatever the configuration says |
| Settings.PasswordIsUnprotected | Pronet.Nebim.Integration/Services/SettingsService.cs:32-43 | for a password key the stored value is unprotected, and a failed unprotect gives null with no fallback |
| Settings.MissingRowFallsBack | Pronet.Nebim.Integration/Services/SettingsService.cs:29-48 | without a row the configuration answers, not unprotected, even for password keys |
| Settings.EmptyRowFallsBack | Pronet.Nebim.Integration/Services/SettingsService.cs:29-48 | a first row whose value is null or empty also defers to the configuration, not unprotected, even for password keys |
| Settings.PasswordKeyAt | Pronet.Nebim.Integration/Services/SettingsService.cs:32 | "Password" at any position, in any ASCII case, makes a password key |
| Settings.PronetPasswordKeyIsProtected | Pronet.Nebim.Integration/Services/Pronet/PronetApiService.cs:25 | the Pronet password setting is a password key |
| Settings.NebimPasswordKeyIsProtected | Pronet.Nebim.Integration/Services/NebimApiService.cs:32 | the Nebim password setting is a password key |
| PronetClient.ReadCredentials | Pronet.Nebim.Integration/Services/Pronet/PronetApiService.cs:23-31 | the three settings are read iff all are non-empty, and then carry those values |
| PronetClient.StatisticsRequest | Pronet.Nebim.Integration/Services/Pronet/PronetApiService.cs:33-42 | the query carries the credentials, both bounds as `yyyy-MM-dd HH:mm:ss`, interval "0", the device's Pronet store code and MAC address, and no IP or port |
| PronetClient.StatisticsRequestBounds | Pronet.Nebim.Integration/Services/Pronet/PronetApiService.cs:37-38 | the query bounds read back as the window's start and end to the second |
| PronetClient.GetStatisticsSpec | Pronet.Nebim.Integration/Services/Pronet/PronetApiService.cs:21-73 | a response comes back iff the settings are complete, the call returned 2xx with a parsed body, and the body's ResponseText is "Başarılı"; it is then the parsed body unchanged |
| PronetClient.MissingSettingsMakeNoRequest | Pronet.Nebim.Integration/Services/Pronet/PronetApiService.cs:27-31 | with a setting missing the result is null for every transport, so no request matters |
| PronetClient.TestConnectionSpec | Pronet.Nebim.Integration/Services/Pronet/PronetApiService.cs:75-106 | the test is true iff the settings are complete, the window now−2h..now−1h exists, and the reply is 2xx with "Başarılı"; it throws iff that window does not exist |
| PronetClient.TestRequestIsBare | Pronet.Nebim.Integration/Services/Pronet/PronetApiService.cs:84-91 | the test query has interval "0" and no store code, MAC address, IP or port |
| NebimLegacyClient.ConnectSpec | Pronet.Nebim.Integration/Services/NebimApiService.cs:27-64 | `Guid.Empty` when a setting is missing; otherwise the body's SessionId on 2xx with IsSucceeded, else `Guid.Empty` |
| NebimLegacyClient.ConnectPassesEmptySessionId | Pronet.Nebim.Integration/Services/NebimApiService.cs:47-54 | a successful reply carrying `Guid.Empty` is returned as it is, without a check |
| NebimLegacyClient.ConnectMissingSettings | Pronet.Nebim.Integration/Services/NebimApiService.cs:34-38 | with a setting missing, connect is `Guid.Empty` whatever the server would say |
| NebimLegacyClient.PostInOutDataSpec | Pronet.Nebim.Integration/Services/NebimApiService.cs:66-103 | an empty URL or `Guid.Empty` fails without a request; otherwise the post succeeds iff the status is 2xx |
| NebimSessionClient.SessionClient.constructor | Pronet.Nebim.Integration/Services/Nebim/NebimApiService.cs:8-15 | a new client holds no session URL |
| NebimSessionClient.SessionClient.InitializeSession | Pronet.Nebim.Integration/Services/Nebim/NebimApiService.cs:20-57 | the method's result and new field are `InitStep` of the old field |
| NebimSessionClient.SessionClient.Connect | Pronet.Nebim.Integration/Services/Nebim/NebimApiService.cs:59-97 | the method's result and new field are `ConnectStep` of the old field |
| NebimSessionClient.SessionClient.PostInOutData | Pronet.Nebim.Integration/Services/Nebim/NebimApiService.cs:99-128 | the method's result is `PostStep` of the field |
| NebimSessionClient.InitNeedsBaseUrl | Pronet.Nebim.Integration/Services/Nebim/NebimApiService.cs:22-30 | without the URL setting, initialisation and connect fail even when a session URL is held, and the field is unchanged |
| NebimSessionClient.InitReusesSession | Pronet.Nebim.Integration/Services/Nebim/NebimApiService.cs:30 | a held session URL is reused: true whatever the probe would say, field unchanged |
| NebimSessionClient.InitSetsFromLocation | Pronet.Nebim.Integration/Services/Nebim/NebimApiService.cs:41-56 | the field changes only when a probe was made and returned an absolute Location, and then holds its authority and path; a false result never changes it |
| NebimSessionClient.SessionUrlIsWrittenOnce | Pronet.Nebim.Integration/Services/Nebim/NebimApiService.cs:30-47 | once held, neither initialisation nor connect changes the session URL |
| NebimSessionClient.ConnectSpec | Pronet.Nebim.Integration/Services/Nebim/NebimApiService.cs:59-96 | a non-empty id iff initialisation left a URL and the connect under it answered 2xx with IsSucceeded and a non-empty SessionId, which is returned |
| NebimSessionClient.PostSpec | Pronet.Nebim.Integration/Services/Nebim/NebimApiService.cs:99-127 | without a session URL every post fails; with one, a post succeeds iff the status is 2xx |
| NebimSessionClient.ConnectedClientCanPost | Pronet.Nebim.Integration/Services/Nebim/NebimApiService.cs:62-105 | a client that connected holds a session URL, so its posts pass the guard |
| Database.AppDb.constructor | Pronet.Nebim.Integration/Data/AppDbContext.cs:13-17 | the tables and the sequence are the values given |
| Worker.ResolveFrequency | Pronet.Nebim.Integration/Worker.cs:27-39 | the delay is a positive `int`; it is the setting when that parses as an `int` above 0, else 60 |
| Worker.FrequencyFromDecimal | Pronet.Nebim.Integration/Worker.cs:36-38 | any positive `int` written in decimal is taken as it is |
| Worker.FrequencyDefaults | Pronet.Nebim.Integration/Worker.cs:27-39 | null, "", "0", "abc" and every negative number give 60 |
| Worker.InvertedWindowNeverOpen | Pronet.Nebim.Integration/Worker.cs:69-74 | a device whose opening time is after its closing time is skipped at every time |
| Worker.HourBucketSpec | Pronet.Nebim.Integration/Worker.cs:77-78 | the bucket exists except in the first hour of 0001-01-01, starts on the hour 3600 s before the truncated now, and ends at minute 59 second 59 of that hour, 3599 s later |
| Worker.HourBucketAfternoon | Pronet.Nebim.Integration/Worker.cs:77-78 | 2024-01-01 14:37 gives 13:00:00..13:59:59 |
| Worker.HourBucketAfterMidnight | Pronet.Nebim.Integration/Worker.cs:77-78 | 2024-01-01 00:10 rolls back to 2023-12-31 23:00:00..23:59:59 |
| Worker.BuildRequest | Pronet.Nebim.Integration/Worker.cs:102-116 | OfficeCode is the device's; StoreCode and WarehouseCode are its Nebim store code; DocDate/DocTime are formatted from the bucket start; there is one line with TotalEnterCount, 0 and the default description |
| Worker.RequestStampsStart | Pronet.Nebim.Integration/Worker.cs:109-110 | DocDate and DocTime have 8 and 6 digits and read back as the bucket start, never the submission time |
| Worker.ActiveDevices | Pronet.Nebim.Integration/Worker.cs:60 | the result holds exactly the active devices of the table, and is no longer than it |
| Worker.ActiveDevicesAppend | Pronet.Nebim.Integration/Worker.cs:60 | `Where` keeps table order: the filter of a concatenation is the concatenation of the filters |
| Worker.ActiveDevicesSingle | Pronet.Nebim.Integration/Worker.cs:60 | one device is kept, once, exactly when it is active; with the previous row this fixes the result as the order-keeping filter |
| Worker.PostStatistics | Pronet.Nebim.Integration/Worker.cs:99-123 | the inner loop's calls and error are those of `PostLines` |
| Worker.TransferDevice | Pronet.Nebim.Integration/Worker.cs:66-141 | the pass's calls and outcome are `ProcessDevice`, and the table gains one row exactly when the outcome is a record |
| Worker.ProcessDataTransfer | Pronet.Nebim.Integration/Worker.cs:49-142 | on `Guid.Empty` no call and no row; otherwise the calls, appended rows and outcome are those of `RunDevices` over the active devices; the history is only appended to |
| Worker.PostLinesSpec | Pronet.Nebim.Integration/Worker.cs:99-123 | either every line is accepted, each posted once in order, or posting stops at the first line not accepted, after lines 0..j, and reports that line's failure |
| Worker.ProcessDeviceSpec | Pronet.Nebim.Integration/Worker.cs:66-140 | a closed device makes no call; an open one fetches its bucket first; it gets a row iff open with a bucket and a failure or some statistics; the row is "Başarılı"/"Veri başarıyla aktarıldı." iff every line was accepted |
| Worker.ProcessDeviceRowStatus | Pronet.Nebim.Integration/Worker.cs:80-130 | a recorded row is either "Başarılı" with "Veri başarıyla aktarıldı." or "Hata"; a fetch that throws records "Hata" with the exception's message |
| Worker.PostLinesFirstRejection | Pronet.Nebim.Integration/Worker.cs:99-123 | when the lines before j are accepted and line j is not, the loop's error is exactly line j's failure |
| Worker.ProcessDeviceFirstRejection | Pronet.Nebim.Integration/Worker.cs:113-130 | when line j is the first not accepted, the row is "Hata" with that post's failure, which is "Veri Nebim'e gönderilemedi." when the post answered false |
| Worker.CycleRows | Pronet.Nebim.Integration/Worker.cs:132-140 | with a bucket the cycle runs to the end, with exactly one row per device past both skips, in order, carrying its Nebim store code, the k-th clock reading and its pass's status and message |
| Worker.CycleWithoutBucket | Pronet.Nebim.Integration/Worker.cs:77 | without a bucket no call and no row, and the cycle throws iff some device is open |
| Worker.DeviceCallsFor | Pronet.Nebim.Integration/Worker.cs:87-118 | every call of a pass is the fetch of the open device's bucket or a post of a document built from a line it returned |
| Worker.CycleCallsFor | Pronet.Nebim.Integration/Worker.cs:66-141 | every call of a cycle is made for one of its devices |
| Worker.TransferCallsAreForActiveOpenDevices | Pronet.Nebim.Integration/Worker.cs:60-118 | every fetch and post is for an active device open at now, and every post uses the cycle's session id |
| WorkerHost.RunIteration | Pronet.Nebim.Integration/Worker.cs:27-41 | the delay is the resolved frequency setting; the connect of a fresh client of the bound class decides between abort and the cycle of `RunDevices` |
| WorkerHost.PronetFailureIsSilent | Pronet.Nebim.Integration/Worker.cs:87-98 | a device whose statistics cannot be had, for a missing setting, an HTTP error or no "Başarılı", gets no row |
| WorkerHost.PronetRowsComeFromPosts | Pronet.Nebim.Integration/Worker.cs:87-99 | with the Pronet client bound, a device gets a row only after a successful response with some statistics |
| WorkerHost.SessionPostIgnoresSessionId | Pronet.Nebim.Integration/Services/Nebim/NebimApiService.cs:99-112 | the session client's post gives the same result for every session id |
| WorkerHost.MissingNebimUrlAborts | Pronet.Nebim.Integration/Worker.cs:53-58 | with the Nebim URL setting missing, either client's connect is `Guid.Empty`, so the cycle aborts |
| AdminApi.SettingsViewSpec | Pronet.Nebim.Integration/Program.cs:45 | the dictionary exists iff no key repeats; its keys are the table's keys and each maps to its value, null read as "" |
| AdminApi.ViewAgreesWithRead | Pronet.Nebim.Integration/Program.cs:45 | a key is in the dictionary iff the settings lookup finds its row, and maps to that row's value |
| AdminApi.FirstIndex | Pronet.Nebim.Integration/Program.cs:63 | the position found carries the key and no earlier one does; none is found iff no row carries it |
| AdminApi.PostSettings | Pronet.Nebim.Integration/Program.cs:53-73 | the loop leaves the table equal to `UpsertAll` of the request |
| AdminApi.UpsertReadsBack | Pronet.Nebim.Integration/Program.cs:63-71 | after one upsert the key reads back the value written |
| AdminApi.UpsertKeepsOthers | Pronet.Nebim.Integration/Program.cs:63-71 | one upsert leaves what every other key reads unchanged |
| AdminApi.UpsertKeepsUnique | Pronet.Nebim.Integration/Program.cs:63-71 | one upsert never adds a second row for a key |
| AdminApi.UpsertAllReadsBack | Pronet.Nebim.Integration/Program.cs:53-73 | every entry of the request reads back its stored value: protected for a non-empty password, verbatim otherwise |
| AdminApi.UpsertAllKeepsOthers | Pronet.Nebim.Integration/Program.cs:53-73 | keys absent from the request read as before |
| AdminApi.UpsertAllKeepsUnique | Pronet.Nebim.Integration/Program.cs:53-73 | a table with one row per key keeps one row per key, so the GET stays answerable |
| AdminApi.SavedSettingIsRead | Pronet.Nebim.Integration/Program.cs:55-61 | after a save, the settings lookup returns the value posted (decrypted again for password keys), or the configuration when that value was null or empty |
| AdminApi.UnsavedSettingIsUnchanged | Pronet.Nebim.Integration/Program.cs:53-73 | a setting the request does not mention reads as before |
| AdminApi.StoreCodes | Pronet.Nebim.Integration/Program.cs:81 | the groups' keys are distinct and are exactly the store codes in the history |
| AdminApi.WithCode | Pronet.Nebim.Integration/Program.cs:81 | a group holds exactly the rows of its store code |
| AdminApi.Newest | Pronet.Nebim.Integration/Program.cs:82 | the row chosen is in the group and no row of the group has a later RunTime |
| AdminApi.LatestAt | Pronet.Nebim.Integration/Program.cs:80-83 | the i-th dashboard row is the newest row of the i-th store code |
| AdminApi.LatestPerStoreRows | Pronet.Nebim.Integration/Program.cs:80-83 | the dashboard shows rows of the history, one per store code, with every store code covered |
| AdminApi.LatestPerStoreIsNewest | Pronet.Nebim.Integration/Program.cs:82 | no row of a store is newer than the row shown for it |
| AdminApi.FindDevice | Pronet.Nebim.Integration/Program.cs:101 | the position found carries the id; none is found iff no device has it |
| AdminApi.MaxId | Pronet.Nebim.Integration/Program.cs:95 | the maximum of the floor and the ids: at least each of them, and equal to the floor or to some id |
| AdminApi.CreateDeviceSpec | Pronet.Nebim.Integration/Program.cs:92-98 | the body is appended with both timestamps from the clock and a location naming its id; a zero id becomes `MaxId` of the table and the sequence plus one, above every id present and ever issued; the sequence becomes the larger of itself and the id inserted; an id already present fails the insert and changes nothing |
| AdminApi.UpdateDeviceSpec | Pronet.Nebim.Integration/Program.cs:100-114 | NotFound iff the id is absent, and nothing changes; otherwise only that device changes: the six editable fields come from the body, id, PronetStoreCode and CreatedAt stay, UpdatedAt is now; ids stay unique |
| AdminApi.RemoveDeviceSpec | Pronet.Nebim.Integration/Program.cs:116-123 | NotFound iff the id is absent, and nothing changes; otherwise NoContent and one device fewer |
| AdminApi.RemoveDeviceContents | Pronet.Nebim.Integration/Program.cs:116-123 | exactly the device with the id is gone, every other stays, ids stay unique |
| AdminApi.DeletedIdIsNotReissued | Pronet.Nebim.Integration/Program.cs:92-123 | after a delete, a new device is never given the deleted id |
| AdminApi.PostDevice | Pronet.Nebim.Integration/Program.cs:92-98 | reply, table and sequence are `CreateDevice` of the old ones; the key and sequence invariant is kept |
| AdminApi.PutDevice | Pronet.Nebim.Integration/Program.cs:100-114 | reply and table are `UpdateDevice` of the old table; the invariant is kept |
| AdminApi.DeleteDevice | Pronet.Nebim.Integration/Program.cs:116-123 | reply and table are `RemoveDevice` of the old table; the invariant is kept |
| AdminApi.TestPronetReply | Pronet.Nebim.Integration/Program.cs:129-152 | 200 iff the test returned true, 400 iff false, 500 iff it threw; `success` iff 200 |
| AdminApi.TestEndpointStatus | Pronet.Nebim.Integration/Program.cs:132-151 | missing settings give 400; 500 iff the settings are complete and the test window falls before 0001-01-01 |
| AdminUi.KeepHex | Pronet.Nebim.Integration/wwwroot/app.js:645 | the result is no longer than the input and all hex digits |
| AdminUi.Take12 | Pronet.Nebim.Integration/wwwroot/app.js:646 | at most 12 characters are kept |
| AdminUi.ToUpper | Pronet.Nebim.Integration/wwwroot/app.js:651 | upper-casing keeps the length |
| AdminUi.PairThenDropIsGrouped | Pronet.Nebim.Integration/wwwroot/app.js:648-649 | a colon after every pair, then dropping a final colon, groups the digits in pairs |
| AdminUi.GroupedShape | Pronet.Nebim.Integration/wwwroot/app.js:648-649 | in the grouped string, colons sit exactly at every third position, the rest are the digits, and there is no trailing colon |
| AdminUi.KeepHexOfGrouped | Pronet.Nebim.Integration/wwwroot/app.js:645-649 | stripping the grouped string gives back its digits |
| AdminUi.UpperOfGrouped | Pronet.Nebim.Integration/wwwroot/app.js:648-651 | upper-casing commutes with grouping |
| AdminUi.NormalizeMacSpec | Pronet.Nebim.Integration/wwwroot/app.js:645-651 | the output is the first 12 hex digits, upper-cased and paired: colons exactly at every third position, upper-case hex elsewhere, no trailing colon |
| AdminUi.NormalizeMacIdempotent | Pronet.Nebim.Integration/wwwroot/app.js:645-651 | normalising a normalised address changes nothing |
| AdminUi.FormatTimeSpec | Pronet.Nebim.Integration/wwwroot/app.js:399-403 | an absent or empty time gives the fallback ("--:--" in the list, "09:00" in the form at 362-366); otherwise the result is the input's prefix of length min(5, length) |
| AdminUi.HourMinute | Pronet.Nebim.Integration/wwwroot/app.js:365 | the hour and minute of a time take five characters |
| AdminUi.StoredTimeShowsHourAndMinute | Pronet.Nebim.Integration/wwwroot/app.js:364-365 | a stored time, as the API writes it, is shown in the list and in the form as HH:mm |
| AdminUi.RemoveFirstHashWithout | Pronet.Nebim.Integration/wwwroot/app.js:282 | a hash without '#' is kept |
| AdminUi.RemoveFirstHashAt | Pronet.Nebim.Integration/wwwroot/app.js:282 | exactly the first '#' is removed |
| AdminUi.RouteSpec | Pronet.Nebim.Integration/wwwroot/app.js:280-306 | the devices or settings section is shown iff the hash without its first '#' is "devices" or "settings"; "", "#" and anything else show the dashboard |
| AdminUi.PayloadSpec | Pronet.Nebim.Integration/wwwroot/app.js:111-119 | an empty Pronet store code or MAC is sent as null and a filled one as typed; the other fields are sent as typed |
| AdminUi.EditThenSaveUpdates | Pronet.Nebim.Integration/wwwroot/app.js:354-374 | saving an edited device unchanged PUTs it to its own URL with its own values, times as HH:mm |
| AdminUi.AddThenSaveCreates | Pronet.Nebim.Integration/wwwroot/app.js:340-346 | a form opened for a new device POSTs an active device open 09:00 to 22:00 with null optional codes |
| AdminUi.SettingsPayloadKeysDistinct | Pronet.Nebim.Integration/wwwroot/app.js:70-79 | the eight keys posted are distinct |
| AdminUi.SavedFormStoresPronetMask | Pronet.Nebim.Integration/wwwroot/app.js:52 | after loading and saving the page unchanged, the Pronet password reads "*****" where it read the stored password |
| AdminUi.SavedFormStoresPronetMaskExample | Pronet.Nebim.Integration/wwwroot/app.js:52 | the stored password "secret" reads "*****" after an unedited save |
| AdminUi.SavedFormStoresNebimCiphertext | Pronet.Nebim.Integration/wwwroot/app.js:57 | after loading and saving the page unchanged, the Nebim password reads as the stored protected text where it read the password |
| AdminUi.SavedFormStoresNebimCiphertextExample | Pronet.Nebim.Integration/wwwroot/app.js:57 | the stored password "secret" reads back as protect("secret") after an unedited save |
| AdminUi.KeepingPasswordsKeysDistinct | Pronet.Nebim.Integration/wwwroot/app.js:70-79 | the intended request body has each key at most once |
| AdminUi.MaskedOrBlankIsKept | Pronet.Nebim.Integration/Program.cs:53-73 | a key left out of the request, or posted empty when it has no stored non-empty value, reads as before |
| AdminUi.KeepingPasswordsEntries | Pronet.Nebim.Integration/wwwroot/app.js:70-79 | the intended body leaves a masked password field out and posts an empty one as empty |
| AdminUi.MaskedLoadSpec | Pronet.Nebim.Integration/wwwroot/app.js:52-57 | after the intended load, a password field shows the mask iff a password is stored, else what it held |
| AdminUi.MaskedSaveKeepsPasswords | Pronet.Nebim.Integration/wwwroot/app.js:45-95 | loading and saving the page with both password fields masked or empty leaves both stored passwords reading as before |
| AdminUi.StoreCountIsDistinctCodes | Pronet.Nebim.Integration/wwwroot/app.js:547-548 | the active-store count is the number of distinct store codes in the logs |
| AdminUi.DashboardStoreCount | Pronet.Nebim.Integration/wwwroot/app.js:547-548 | over the dashboard rows the count is the number of rows, one per store with any history |
| AdminUi.FindByProperty | Pronet.Nebim.Integration/wwwroot/app.js:355 | a device found carries the id under the property name looked up |
| AdminUi.CamelCaseLookup | Pronet.Nebim.Integration/wwwroot/app.js:355 | looking the id up under its JSON name `id` finds what `FindAsync` finds |
| AdminUi.PascalCaseLookupNeverFinds | Pronet.Nebim.Integration/wwwroot/app.js:355 | as written, the lookup under `Id` finds no device in any list |
| AdminUi.PascalCaseLookupExample | Pronet.Nebim.Integration/wwwroot/app.js:355 | a list holding device 1: `FindAsync` finds it, the page's lookup does not |
| AdminUi.ActiveStoresIgnoreHistory | Pronet.Nebim.Integration/wwwroot/app.js:226 | as written, the active-store counter shows the same text whatever the history holds |
| AdminUi.ActiveStoresExample | Pronet.Nebim.Integration/wwwroot/app.js:226 | with one row of history, the counter should read "1" but keeps its initial "0" |
| AdminUi.AdminPage.constructor | Pronet.Nebim.Integration/wwwroot/app.js:2-4 | no devices, no logs and no device being edited when the page loads |
| AdminUi.AdminPage.LoadDevices | Pronet.Nebim.Integration/wwwroot/app.js:97-101 | the device list becomes the GET's response |
| AdminUi.AdminPage.LoadDashboardStatus | Pronet.Nebim.Integration/wwwroot/app.js:184-188 | the logs become the GET's response |
| AdminUi.AdminPage.OpenAddDeviceModal | Pronet.Nebim.Integration/wwwroot/app.js:340-348 | no device is being edited and the form is the new-device form, so saving POSTs |
| AdminUi.AdminPage.EditDevice | Pronet.Nebim.Integration/wwwroot/app.js:354-377 | an id not in the list changes nothing; otherwise that device is being edited and the form is filled from it |
| AdminUi.AdminPage.EditDeviceAsWritten | Pronet.Nebim.Integration/wwwroot/app.js:354-356 | as written, the page is unchanged for every id |
| AdminUi.AdminPage.OnMacAddressInput | Pronet.Nebim.Integration/wwwroot/app.js:644-652 | only the MAC input changes, to its normalised form |
| AdminUi.AdminPage.SaveDevice | Pronet.Nebim.Integration/wwwroot/app.js:108-135 | the request is a PUT iff a non-zero device id is being edited, and its body is the form's payload |
| AdminUi.AdminPage.LoadSettings | Pronet.Nebim.Integration/wwwroot/app.js:45-66 | the settings inputs become `LoadSettingsForm` of the GET's dictionary |
| AdminUi.AdminPage.SaveSettings | Pronet.Nebim.Integration/wwwroot/app.js:68-95 | the body posted is the eight inputs under their keys, each key once |

## Left out

**Not modelled at all**

- HTTP and JSON. `HttpClient`, `PostAsJsonAsync`, `ReadFromJsonAsync`, `fetch` and `apiRequest` are foreign calls. Their results are parameters.
  - The 204 and non-JSON handling of `apiRequest` is therefore not modelled.
  - Reading a property of a `null` JSON body in `loadSettings` is not modelled.
- Cryptography, configuration and URI resolution. `Protect`/`Unprotect`, `IConfiguration` and `Uri` resolution are parameters, as are the redirect handler and its `Location` parsing.
- Host plumbing. Logging, dependency injection, `Task.Delay`, cancellation and the `BackgroundService` host are concurrency and runtime. One iteration of the loop is modelled, not the loop.
- The page outside the logic. DOM updates, notifications, timers, the fake progress bars and the locale-dependent date formatting in `app.js` are left out, and so is `index.html`.
  - The initial form values are constructor parameters.
  - A form after `reset()` is taken to be empty.
- Null statistic lines. A `null` element of Pronet's `StoreStatistics` throws at `Worker.cs:114` and is recorded as "Hata". Lines are modelled as `seq<StoreStatistic>`, which holds no nulls.
- Tables with no behaviour. The `License` table and the generated `Id` of Setting and SyncHistory rows carry no behaviour.
- EF Core. LINQ translation and change tracking are not modelled.
  - Within one settings POST, `FirstOrDefaultAsync` does not see rows added but not yet saved. With distinct dictionary keys this makes no difference, so the model saves each upsert at once.
  - The order in which SQLite returns rows is taken to be table order.
- AdminUi.AdminPage.LoadDashboardStatus: models the assignment that app.js:184-192 evidently means. As written, those lines sit unreachable inside `testNebimConnection`, and no `loadDashboardStatus` is defined, so its calls (app.js:226, 316) throw. The as-written half is `AdminUi.ActiveStoresTextAsWritten` (see Findings).
- AdminUi.StoreCountIsDistinctCodes: counts store codes as meant. As written, `updateStats` never runs (above), and `log.DeviceStoreCode` would be `undefined` on the camelCase rows.
- AdminUi.DashboardStoreCount: the same two gaps as `StoreCountIsDistinctCodes`.
- AdminUi.AdminPage.EditDevice: models the lookup by the JSON name `id`. As written, `d.Id === deviceId` (app.js:355) never matches, so editing never opens. The as-written half is `AdminUi.AdminPage.EditDeviceAsWritten` (see Findings).
- AdminUi.EditThenSaveUpdates: rests on the intended `EditDevice`. As written, this PUT never arises from the edit button.
- The "Test Nebim" button. It posts to `/api/test/nebim`, which `Program.cs` does not map.
- The JSON casing of the page. The API writes camelCase, but `editDevice`, the dashboard and `updateStats` read PascalCase properties (`d.Id`, `device.IsActive`, `log.DeviceStoreCode`), which are then `undefined`. Apart from the `Id` lookup, which is modelled both ways, the model reads the fields by meaning.

**Modelled with a stated assumption**

- TimeOnly text: `AdminUi.TimeOnlyText` takes `TimeOnly` to be written as `HH:mm:ss[.fffffff]`.
- `AdminUi.HourMinute` and `AdminUi.StoredTimeShowsHourAndMinute`: these rest on the same `TimeOnlyText` assumption.
- Settings dictionary: `AdminApi.SettingsView` returns `None` where `ToDictionaryAsync` throws on a repeated key. The settings GET then fails.
- `AdminApi.SavedSettingIsRead` assumes `Unprotect(Protect(x)) == x` and a non-empty protected payload. The data protector promises both, but the model cannot check them.
- AUTOINCREMENT ids:
  - `AdminApi.CreateDeviceSpec` models SQLite AUTOINCREMENT as one above the larger of the sequence and every id present (`AdminApi.MaxId`).
  - An explicit id already present is a failed insert (`ServerError`).
  - A different explicit id is inserted as given.
- `AdminApi.Newest`: a tie on RunTime keeps the earliest row. The row the database picks among equal RunTimes is unspecified.
- `AdminApi.LatestPerStore`: the group order is first appearance. The order of the database's groups is unspecified.
- `Worker.ParseInt32` accepts ASCII digits, a sign and the white space of `NumberStyles.Integer`. Culture-specific signs and non-ASCII digits are not modelled.
- `Settings.ContainsIgnoreCaseSpec` folds the ASCII letters only. Ordinal case-insensitive comparison also folds other letters, but "Password" is ASCII.
- The clock:
  - `DateTime.Now` readings are parameters. A reading is valid and whole-tick.
  - The culture uses the Gregorian calendar and ':' as its time separator.

## Findings

| source | as written | input that shows it | evidently intended | confidence | as-written member | corrected member |
|---|---|---|---|---|---|---|
| Pronet.Nebim.Integration/wwwroot/app.js:52 | `loadSettings` fills the Pronet password field with "*****"; `saveSettings` (app.js:70-79) posts the field verbatim, and the POST (Program.cs:57-60) protects and stores it | stored Pronet password "secret"; open the settings page and save without touching the password | a field still showing the mask leaves the stored password alone | not executed | AdminUi.SavedFormStoresPronetMaskExample | AdminUi.MaskedSaveKeepsPasswords |
| Pronet.Nebim.Integration/wwwroot/app.js:57 | `loadSettings` fills the Nebim password field with the value the GET returns, which is the stored protected text (Program.cs:45); saving protects that text again | stored Nebim password "secret"; open the settings page and save | the password field is masked like the Pronet one and a masked field is not posted | not executed | AdminUi.SavedFormStoresNebimCiphertextExample | AdminUi.MaskedSaveKeepsPasswords |
| Pronet.Nebim.Integration/wwwroot/app.js:355 | `editDevice` looks the device up by `d.Id`, but the list comes from `GET /api/devices` in camelCase, so the property is `undefined` and the function returns at app.js:356 | a list holding device 1; press its edit button, `editDevice(1)` | the lookup reads `d.id`, and the form opens filled from the device | not executed | AdminUi.PascalCaseLookupExample | AdminUi.AdminPage.EditDevice |
| Pronet.Nebim.Integration/wwwroot/app.js:226 | `showDashboard` (and app.js:316) calls `loadDashboardStatus`, which is never defined; its body (app.js:184-192) is unreachable code inside `testNebimConnection`, so the call throws and the dashboard and its counters are never filled | a history with one row; open the dashboard | the dashboard GET fills the logs, and the counter reads "1" | not executed | AdminUi.ActiveStoresExample | AdminUi.DashboardStoreCount |
